/** A block's spend journal: its spent outputs serialized last first, and read back against the
    inputs of the block's transactions, for any codec of a single output. */
module SpendJournal {
  import opened Options

  /** A transaction as the journal sees it: what each input says of the output it spends, and
      whether it is a vote, whose first input, the stakebase, spends none. */
  datatype Tx<C> = Tx(vote: bool, inputs: seq<C>)

  /** A vote has two inputs. */
  predicate VotesOk<C>(txs: seq<Tx<C>>)
  {
    forall t :: 0 <= t < |txs| && txs[t].vote ==> |txs[t].inputs| == 2
  }

  // ------------------------------------------------------------------
  // Writing.

  /** The outputs' encodings, last output first. */
  ghost function Journal<S>(encode: S -> seq<nat>, outs: seq<S>): seq<nat>
  {
    if outs == [] then [] else encode(outs[|outs| - 1]) + Journal(encode, outs[..|outs| - 1])
  }

  function TotalSize<S>(encode: S -> seq<nat>, outs: seq<S>): nat
  {
    if outs == [] then 0 else TotalSize(encode, outs[..|outs| - 1]) + |encode(outs[|outs| - 1])|
  }

  /** What is written before the outputs below n. */
  lemma {:induction false} JournalSplit<S>(encode: S -> seq<nat>, outs: seq<S>, n: nat)
    requires n <= |outs|
    ensures Journal(encode, outs) == Journal(encode, outs[n..]) + Journal(encode, outs[..n])
  {
    if n == |outs| {
      assert outs[..n] == outs;
    } else {
      var m := |outs| - 1;
      JournalSplit(encode, outs[..m], n);
      assert outs[..m][..n] == outs[..n];
      assert outs[n..][..m - n] == outs[..m][n..];
    }
  }

  method PutBytes(target: array<nat>, offset: nat, bytes: seq<nat>)
    requires offset + |bytes| <= target.Length
    modifies target
    ensures target[..offset + |bytes|] == old(target[..offset]) + bytes
  {
    for i := 0 to |bytes|
      invariant target[..offset + i] == old(target[..offset]) + bytes[..i]
    {
      target[offset + i] := bytes[i];
    }
  }

  /** Fills a buffer of exactly the right size. */
  method SerializeSpendJournalEntry<S>(encode: S -> seq<nat>, outs: seq<S>) returns (r: Option<seq<nat>>)
    ensures r == if outs == [] then None else Some(Journal(encode, outs))
  {
    hide Journal, TotalSize;
    if outs == [] {
      return None;
    }
    var serialized := new nat[TotalSize(encode, outs)];
    var offset: nat := 0;
    var i := |outs|;
    assert outs[..i] == outs && outs[i..] == [];
    JournalNone(encode);
    while i > 0
      invariant 0 <= i <= |outs| && offset + TotalSize(encode, outs[..i]) == serialized.Length
      invariant serialized[..offset] == Journal(encode, outs[i..])
    {
      i := i - 1;
      var bytes := encode(outs[i]);
      SizeUpTo(encode, outs, i);
      JournalFrom(encode, outs, i);
      PutBytes(serialized, offset, bytes);
      offset := offset + |bytes|;
    }
    assert outs[0..] == outs && outs[..0] == [];
    SizeNone(encode);
    assert serialized[..offset] == serialized[..];
    r := Some(serialized[..]);
  }

  lemma SizeNone<S>(encode: S -> seq<nat>)
    ensures TotalSize(encode, []) == 0
  {}

  lemma SizeUpTo<S>(encode: S -> seq<nat>, outs: seq<S>, i: nat)
    requires i < |outs|
    ensures TotalSize(encode, outs[..i + 1]) == TotalSize(encode, outs[..i]) + |encode(outs[i])|
  {
    assert outs[..i + 1][..i] == outs[..i];
  }

  lemma JournalNone<S>(encode: S -> seq<nat>)
    ensures Journal(encode, []) == []
  {}

  lemma JournalFrom<S>(encode: S -> seq<nat>, outs: seq<S>, i: nat)
    requires i < |outs|
    ensures Journal(encode, outs[i..]) == Journal(encode, outs[i + 1..]) + encode(outs[i])
  {
    JournalSplit(encode, outs[i..], 1);
    assert outs[i..][1..] == outs[i + 1..] && outs[i..][..1] == [outs[i]] && [outs[i]][..0] == [];
    assert Journal(encode, [outs[i]]) == encode(outs[i]) + Journal(encode, []);
  }

  // ------------------------------------------------------------------
  // Reading.

  type Decoder<!C, S> = (seq<nat>, C) -> Option<(S, nat)>

  /** Decoding takes no more bytes than there are. */
  ghost predicate Bounded<S(!new), C(!new)>(decode: Decoder<C, S>)
  {
    forall b, c :: decode(b, c).Some? ==> decode(b, c).value.1 <= |b|
  }

  /** The inputs that spend a recorded output. */
  function Spending<C>(tx: Tx<C>): seq<C>
  {
    if tx.vote && tx.inputs != [] then tx.inputs[1..] else tx.inputs
  }

  ghost function AllSpending<C>(txs: seq<Tx<C>>): seq<C>
  {
    if txs == [] then [] else AllSpending(txs[..|txs| - 1]) + Spending(txs[|txs| - 1])
  }

  /** The inputs that spend: all of a transaction's, and of a vote the one after
      the stakebase. */
  lemma {:induction false} SpendingAt<C>(txs: seq<Tx<C>>, t: nat)
    requires VotesOk(txs) && t < |txs|
    ensures AllSpending(txs[..t + 1]) ==
            AllSpending(txs[..t]) + if txs[t].vote then [txs[t].inputs[1]] else txs[t].inputs
    ensures AllSpending(txs[..t + 1]) <= AllSpending(txs)
    decreases |txs|
  {
    hide Spending;
    var n := |txs| - 1;
    if t < n {
      SpendingAt(txs[..n], t);
      assert txs[..n][..t + 1] == txs[..t + 1] && txs[..n][..t] == txs[..t];
      PrefixOf(AllSpending(txs[..t + 1]), AllSpending(txs[..n]), Spending(txs[n]));
    } else {
      assert txs[..t + 1] == txs;
      SpendingOf(txs[t]);
    }
  }

  lemma SpendingOf<C>(tx: Tx<C>)
    requires tx.vote ==> |tx.inputs| == 2
    ensures Spending(tx) == if tx.vote then [tx.inputs[1]] else tx.inputs
  {}

  lemma PrefixOf<T>(a: seq<T>, b: seq<T>, c: seq<T>)
    requires a <= b
    ensures a <= b + c
  {}

  /** The outputs read for these inputs, last input first from the front of the bytes. */
  ghost function ReadBack<S(!new), C(!new)>(decode: Decoder<C, S>, bytes: seq<nat>, inputs: seq<C>): Option<seq<S>>
    requires Bounded(decode)
    decreases |inputs|
  {
    if inputs == [] then Some([])
    else
      var last := decode(bytes, inputs[|inputs| - 1]);
      if last.None? then None
      else
        assert Bounded(decode);
        var rest := ReadBack(decode, bytes[last.value.1..], inputs[..|inputs| - 1]);
        if rest.None? then None else Some(rest.value + [last.value.0])
  }

  /** The codec decodes this output, for this input, from the front of a longer buffer. */
  ghost predicate Decodes<S, C>(encode: S -> seq<nat>, decode: Decoder<C, S>, out: S, input: C)
  {
    encode(out) != [] && forall rest :: decode(encode(out) + rest, input) == Some((out, |encode(out)|))
  }

  ghost predicate Aligned<S, C>(encode: S -> seq<nat>, decode: Decoder<C, S>, outs: seq<S>, inputs: seq<C>)
  {
    |outs| == |inputs| && forall i :: 0 <= i < |outs| ==> Decodes(encode, decode, outs[i], inputs[i])
  }

  /** The journal reads back as the outputs it was written for, whatever follows it. */
  lemma {:induction false} JournalReadBack<S(!new), C(!new)>(encode: S -> seq<nat>, decode: Decoder<C, S>,
                                                  outs: seq<S>, inputs: seq<C>, rest: seq<nat>)
    requires Bounded(decode) && Aligned(encode, decode, outs, inputs)
    ensures ReadBack(decode, Journal(encode, outs) + rest, inputs) == Some(outs)
    ensures outs != [] ==> Journal(encode, outs) != []
    decreases |outs|
  {
    hide Bounded, ReadBack;
    if outs == [] {
      ReadNone(decode, Journal(encode, outs) + rest);
    } else {
      var n := |outs| - 1;
      var head, tail := encode(outs[n]), Journal(encode, outs[..n]);
      var bytes := Journal(encode, outs) + rest;
      assert bytes == head + (tail + rest) && bytes[|head|..] == tail + rest;
      JournalReadBack(encode, decode, outs[..n], inputs[..n], rest);
      assert Decodes(encode, decode, outs[n], inputs[n]);
      assert decode(bytes, inputs[n]) == Some((outs[n], |head|));
      ReadOne(decode, bytes, inputs);
      assert outs == outs[..n] + [outs[n]];
    }
  }

  lemma ReadNone<S(!new), C(!new)>(decode: Decoder<C, S>, bytes: seq<nat>)
    requires Bounded(decode)
    ensures ReadBack(decode, bytes, []) == Some([])
  {}

  lemma ReadOne<S(!new), C(!new)>(decode: Decoder<C, S>, bytes: seq<nat>, inputs: seq<C>)
    requires Bounded(decode) && inputs != [] && decode(bytes, inputs[|inputs| - 1]).Some?
    ensures decode(bytes, inputs[|inputs| - 1]).value.1 <= |bytes|
    ensures var (out, n) := decode(bytes, inputs[|inputs| - 1]).value;
            var rest := ReadBack(decode, bytes[n..], inputs[..|inputs| - 1]);
            ReadBack(decode, bytes, inputs) == if rest.None? then None else Some(rest.value + [out])
  {}

  datatype ReadResult<+S> = Outputs(outs: seq<S>) | Mismatched | Undecodable

  method CountOutputs<C>(txs: seq<Tx<C>>) returns (n: nat)
    requires VotesOk(txs)
    ensures n == |AllSpending(txs)|
  {
    n := 0;
    for t := 0 to |txs|
      invariant n == |AllSpending(txs[..t])|
    {
      assert txs[..t + 1][..t] == txs[..t];
      if txs[t].vote {
        n := n + 1;
      } else {
        n := n + |txs[t].inputs|;
      }
    }
    assert txs[..|txs|] == txs;
  }

  /** The whole reads as what remains to be read, followed by what has been. */
  ghost predicate Remaining<S(!new), C(!new)>(decode: Decoder<C, S>, whole: Option<seq<S>>,
                                              bytes: seq<nat>, inputs: seq<C>, done: seq<S>)
    requires Bounded(decode)
  {
    var rest := ReadBack(decode, bytes, inputs);
    whole == if rest.None? then None else Some(rest.value + done)
  }

  lemma RemainingAll<S(!new), C(!new)>(decode: Decoder<C, S>, bytes: seq<nat>, inputs: seq<C>)
    requires Bounded(decode)
    ensures Remaining(decode, ReadBack(decode, bytes, inputs), bytes, inputs, [])
  {
    hide Bounded, ReadBack;
    var all := ReadBack(decode, bytes, inputs);
    assert all.Some? ==> all.value + [] == all.value;
  }

  lemma RemainingNone<S(!new), C(!new)>(decode: Decoder<C, S>, whole: Option<seq<S>>, bytes: seq<nat>, done: seq<S>)
    requires Bounded(decode) && Remaining(decode, whole, bytes, [], done)
    ensures whole == Some(done)
  {
    assert [] + done == done;
  }

  lemma RemainingOne<S(!new), C(!new)>(decode: Decoder<C, S>, whole: Option<seq<S>>,
                                       bytes: seq<nat>, inputs: seq<C>, input: C, done: seq<S>)
    requires Bounded(decode) && Remaining(decode, whole, bytes, inputs + [input], done)
    ensures var one := decode(bytes, input);
            if one.None? then whole == None
            else
              && one.value.1 <= |bytes|
              && Remaining(decode, whole, bytes[one.value.1..], inputs, [one.value.0] + done)
  {
    hide Bounded;
    var more := inputs + [input];
    assert more[..|more| - 1] == inputs;
    var one := decode(bytes, input);
    if one.Some? {
      ReadOne(decode, bytes, more);
      var rest := ReadBack(decode, bytes[one.value.1..], inputs);
      assert rest.Some? ==> (rest.value + [one.value.0]) + done == rest.value + ([one.value.0] + done);
    }
  }

  /** The slots written so far: each one below the one before, from the last. */
  ghost predicate Downward(written: seq<int>, last: int)
  {
    forall j :: 0 <= j < |written| ==> written[j] == last - j
  }

  /** Reads one transaction's outputs into the slots from `last` down. */
  method ReadTx<S(!new), C(!new)>(decode: Decoder<C, S>, serialized: seq<nat>, start: nat, tx: Tx<C>,
                                  outs: array<S>, last: int, ghost below: seq<C>, ghost whole: Option<seq<S>>)
    returns (ok: bool, at: int, offset: nat, ghost written: seq<int>)
    requires Bounded(decode) && start <= |serialized| && (tx.vote ==> |tx.inputs| == 2)
    requires 0 <= last + 1 == |below + Spending(tx)| <= outs.Length
    requires Remaining(decode, whole, serialized[start..], below + Spending(tx), outs[last + 1..])
    modifies outs
    ensures !ok ==> whole == None
    ensures ok ==> 0 <= at + 1 == |below| <= outs.Length && offset <= |serialized|
                   && Remaining(decode, whole, serialized[offset..], below, outs[at + 1..])
    ensures Downward(written, last) && |written| == last - at
  {
    hide Remaining, Bounded;
    at, offset, written := last, start, [];
    var stop := if tx.vote then 1 else 0;
    var i := |tx.inputs|;
    assert tx.inputs[stop..i] == Spending(tx);
    while i > stop
      invariant stop <= i <= |tx.inputs| && offset <= |serialized|
      invariant 0 <= at + 1 == |below| + i - stop <= outs.Length
      invariant Downward(written, last) && |written| == last - at
      invariant Remaining(decode, whole, serialized[offset..], below + tx.inputs[stop..i], outs[at + 1..])
    {
      i := i - 1;
      assert below + tx.inputs[stop..i + 1] == (below + tx.inputs[stop..i]) + [tx.inputs[i]];
      RemainingOne(decode, whole, serialized[offset..], below + tx.inputs[stop..i], tx.inputs[i], outs[at + 1..]);
      var one := decode(serialized[offset..], tx.inputs[i]);
      if one.None? {
        return false, at, offset, written;
      }
      ghost var done := outs[at + 1..];
      outs[at] := one.value.0;
      written := written + [at];
      assert outs[at..] == [one.value.0] + done;
      assert serialized[offset..][one.value.1..] == serialized[offset + one.value.1..];
      at := at - 1;
      offset := offset + one.value.1;
    }
    assert below + tx.inputs[stop..i] == below;
    ok := true;
  }

  /** Reads a journal against the transactions, filling one slot for each recorded output from
      the last to the first: every slot is written once and the index ends before the first. */
  method DeserializeSpendJournalEntry<S(!new), C(!new)>(decode: Decoder<C, S>, serialized: seq<nat>,
                                                        txs: seq<Tx<C>>, blank: S)
    returns (r: ReadResult<S>, ghost written: seq<int>)
    requires VotesOk(txs) && Bounded(decode)
    ensures serialized == [] ==> r == if AllSpending(txs) == [] then Outputs([]) else Mismatched
    ensures serialized != [] ==>
              var all := ReadBack(decode, serialized, AllSpending(txs));
              r == if all.Some? then Outputs(all.value) else Undecodable
    ensures serialized != [] && r.Outputs? ==>
              Downward(written, |r.outs| - 1) && |written| == |r.outs|
  {
    hide Remaining, Bounded, ReadBack;
    written := [];
    var count := CountOutputs(txs);
    if serialized == [] {
      if count != 0 {
        return Mismatched, [];
      }
      return Outputs([]), [];
    }
    var outs := new S[count](_ => blank);
    var at := count as int - 1;
    var offset: nat := 0;
    var t := |txs|;
    ghost var whole := ReadBack(decode, serialized, AllSpending(txs));
    assert txs[..t] == txs && serialized[0..] == serialized && outs[at + 1..] == [];
    RemainingAll(decode, serialized, AllSpending(txs));
    while t > 0
      invariant 0 <= t <= |txs| && offset <= |serialized|
      invariant 0 <= at + 1 == |AllSpending(txs[..t])| <= outs.Length
      invariant Downward(written, outs.Length - 1) && |written| == outs.Length - 1 - at
      invariant Remaining(decode, whole, serialized[offset..], AllSpending(txs[..t]), outs[at + 1..])
    {
      t := t - 1;
      assert txs[..t + 1][..t] == txs[..t];
      var ok;
      ghost var more;
      ok, at, offset, more := ReadTx(decode, serialized, offset, txs[t], outs, at, AllSpending(txs[..t]), whole);
      if !ok {
        return Undecodable, written;
      }
      written := written + more;
    }
    RemainingNone(decode, whole, serialized[offset..], outs[at + 1..]);
    assert outs[at + 1..] == outs[..];
    r := Outputs(outs[..]);
  }
}
