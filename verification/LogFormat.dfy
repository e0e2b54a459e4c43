/** The undo log's binary format: `emit` writes records one after another, and
    `records` reads them back, stopping at a record the kill cut short. */
module LogFormat {
  import opened Digits
  import opened Options

  newtype byte = b: int | 0 <= b < 256

  type Content = seq<byte>

  type Path = seq<byte>

  const WRITE: byte := 'W' as byte
  const TRUNCATE: byte := 'T' as byte
  const CREATE: byte := 'C' as byte
  const SYNC: byte := 'S' as byte

  const REC_MAX: nat := 0x1_0000
  const REC_HDR: nat := 23

  const U64: nat := 0x1_0000_0000_0000_0000

  datatype Record = Record(kind: byte, path: Path, off: nat, prevLen: nat, data: Content)

  /** What the fixed-width fields and the record buffer can hold. */
  predicate Fits(r: Record)
  {
    r.off < U64 && r.prevLen < U64 && REC_HDR + |r.path| + |r.data| <= REC_MAX
  }

  // ------------------------------------------------------------------
  // Little-endian integers.

  lemma Widths()
    ensures Pow(256, 2) == 0x1_0000 && Pow(256, 4) == 0x1_0000_0000 && Pow(256, 8) == U64
  {
    assert Pow(256, 2) == 256 * Pow(256, 1);
    PowAdd(256, 2, 2);
    PowAdd(256, 4, 4);
  }

  /** The k least significant bytes of a number. */
  function Le(n: nat, k: nat): (s: seq<byte>)
    ensures |s| == k
  {
    if k == 0 then [] else [(n % 256) as byte] + Le(n / 256, k - 1)
  }

  function Naturals(s: seq<byte>): seq<nat>
  {
    seq(|s|, i requires 0 <= i < |s| => s[i] as nat)
  }

  function FromLe(s: seq<byte>): nat
  {
    Value(Naturals(s), 256)
  }

  lemma {:induction false} LeRoundTrip(n: nat, k: nat)
    requires n < Pow(256, k)
    ensures FromLe(Le(n, k)) == n
  {
    if k > 0 {
      LeRoundTrip(n / 256, k - 1);
      assert Naturals(Le(n, k))[1..] == Naturals(Le(n / 256, k - 1));
    }
  }

  // ------------------------------------------------------------------
  // Writing records.

  /** The bytes of one record: type, path length, path, offset, data length,
      prior length, data. */
  function Encode(r: Record): seq<byte>
  {
    [r.kind] + Le(|r.path|, 2) + r.path + Le(r.off, 8) + Le(|r.data|, 4) + Le(r.prevLen, 8) + r.data
  }

  function EncodeAll(rs: seq<Record>): seq<byte>
  {
    if rs == [] then [] else Encode(rs[0]) + EncodeAll(rs[1..])
  }

  lemma {:induction false} EncodeAllConcat(a: seq<Record>, b: seq<Record>)
    ensures EncodeAll(a + b) == EncodeAll(a) + EncodeAll(b)
  {
    if a == [] {
      assert a + b == b;
    } else {
      assert (a + b)[1..] == a[1..] + b;
      EncodeAllConcat(a[1..], b);
    }
  }

  lemma EncodeAllOne(r: Record)
    ensures EncodeAll([r]) == Encode(r)
  {
    assert EncodeAll([r][1..]) == [];
  }

  // ------------------------------------------------------------------
  // Reading records.

  /** The record at the front of the bytes and its length, if it is whole. */
  function First(blob: seq<byte>): (r: Option<(Record, nat)>)
    ensures r.Some? ==> 0 < r.value.1 <= |blob|
  {
    if |blob| < 11 then None
    else
      var pl := FromLe(blob[1..3]);
      var j := 3 + pl;
      if j + 20 > |blob| then None
      else
        var ln := FromLe(blob[j + 8..j + 12]);
        var k := j + 20;
        if |blob| - k < ln then None
        else
          Some((Record(blob[0], blob[3..j], FromLe(blob[j..j + 8]), FromLe(blob[j + 12..k]), blob[k..k + ln]), k + ln))
  }

  /** All whole records from the front of the bytes. */
  function Parse(blob: seq<byte>): seq<Record>
    decreases |blob|
  {
    match First(blob)
    case None => []
    case Some((r, n)) => [r] + Parse(blob[n..])
  }

  lemma EncodedFields(r: Record, tail: seq<byte>)
    requires Fits(r)
    ensures var blob := Encode(r) + tail;
            var j := 3 + |r.path|;
            && |Encode(r)| == REC_HDR + |r.path| + |r.data|
            && blob[0] == r.kind
            && FromLe(blob[1..3]) == |r.path|
            && blob[3..j] == r.path
            && FromLe(blob[j..j + 8]) == r.off
            && FromLe(blob[j + 8..j + 12]) == |r.data|
            && FromLe(blob[j + 12..j + 20]) == r.prevLen
            && blob[j + 20..j + 20 + |r.data|] == r.data
            && blob[j + 20 + |r.data|..] == tail
  {
    hide Le, FromLe;
    var blob := Encode(r) + tail;
    var j := 3 + |r.path|;
    Widths();
    LeRoundTrip(|r.path|, 2);
    LeRoundTrip(r.off, 8);
    LeRoundTrip(|r.data|, 4);
    LeRoundTrip(r.prevLen, 8);
    assert blob[1..3] == Le(|r.path|, 2);
    assert blob[3..j] == r.path;
    assert blob[j..j + 8] == Le(r.off, 8);
    assert blob[j + 8..j + 12] == Le(|r.data|, 4);
    assert blob[j + 12..j + 20] == Le(r.prevLen, 8);
    assert blob[j + 20..j + 20 + |r.data|] == r.data;
    assert blob[j + 20 + |r.data|..] == tail;
  }

  lemma FirstOfEncoded(r: Record, tail: seq<byte>)
    requires Fits(r)
    ensures First(Encode(r) + tail) == Some((r, |Encode(r)|))
  {
    hide Le, FromLe, Encode;
    EncodedFields(r, tail);
  }

  /** A record the kill cut short is not read. */
  lemma FirstOfTorn(r: Record, n: nat)
    requires Fits(r) && n < |Encode(r)|
    ensures First(Encode(r)[..n]) == None
  {
    hide Le, FromLe, Encode;
    var whole := Encode(r);
    var torn := whole[..n];
    assert whole + [] == whole;
    EncodedFields(r, []);
    var j := 3 + |r.path|;
    if |torn| >= 11 {
      assert torn[1..3] == whole[1..3];
      if j + 20 <= |torn| {
        assert torn[j + 8..j + 12] == whole[j + 8..j + 12];
      }
    }
  }

  /** Whole records followed by the torn front of one more: the kind of log a
      kill leaves behind. */
  ghost predicate TornTail(tail: seq<byte>)
  {
    tail == [] || exists r: Record, n :: Fits(r) && 0 <= n < |Encode(r)| && tail == Encode(r)[..n]
  }

  lemma {:induction false} ParseEncoded(rs: seq<Record>, tail: seq<byte>)
    requires forall i :: 0 <= i < |rs| ==> Fits(rs[i])
    requires TornTail(tail)
    ensures Parse(EncodeAll(rs) + tail) == rs
  {
    hide First, Encode;
    if rs == [] {
      assert EncodeAll(rs) + tail == tail;
      if tail == [] {
        FirstOfEmpty();
      } else {
        var r: Record, n :| Fits(r) && 0 <= n < |Encode(r)| && tail == Encode(r)[..n];
        FirstOfTorn(r, n);
      }
    } else {
      var rest := EncodeAll(rs[1..]) + tail;
      assert EncodeAll(rs) + tail == Encode(rs[0]) + rest;
      FirstOfEncoded(rs[0], rest);
      ParseEncoded(rs[1..], tail);
    }
  }

  lemma FirstOfEmpty()
    ensures First([]) == None
  {}

  lemma FirstAt(blob: seq<byte>, i: nat)
    requires i + 11 <= |blob|
    ensures var pl := FromLe(blob[i + 1..i + 3]);
            var j := i + 3 + pl;
            if j + 20 > |blob| then First(blob[i..]) == None
            else
              var ln := FromLe(blob[j + 8..j + 12]);
              var k := j + 20;
              if k + ln > |blob| then First(blob[i..]) == None
              else First(blob[i..]) == Some((Record(blob[i], blob[i + 3..j], FromLe(blob[j..j + 8]),
                                                    FromLe(blob[j + 12..k]), blob[k..k + ln]), k + ln - i))
  {
    hide FromLe;
    var rest := blob[i..];
    assert rest[1..3] == blob[i + 1..i + 3];
    var pl := FromLe(blob[i + 1..i + 3]);
    var j := i + 3 + pl;
    if j + 20 <= |blob| {
      assert rest[3..3 + pl] == blob[i + 3..j];
      assert rest[j - i..j - i + 8] == blob[j..j + 8];
      assert rest[j - i + 8..j - i + 12] == blob[j + 8..j + 12];
      assert rest[j - i + 12..j - i + 20] == blob[j + 12..j + 20];
      var ln := FromLe(blob[j + 8..j + 12]);
      var k := j + 20;
      if k + ln <= |blob| {
        assert rest[k - i..k - i + ln] == blob[k..k + ln];
      }
    }
  }

  /** `records`: the cursor loop over the log's bytes. */
  method Records(blob: seq<byte>) returns (rs: seq<Record>)
    ensures rs == Parse(blob)
  {
    hide First, FromLe, Parse;
    rs := [];
    var i, n := 0, |blob|;
    assert blob[0..] == blob;
    while i + 11 <= n
      invariant i <= n
      invariant Parse(blob) == rs + Parse(blob[i..])
      decreases n - i
    {
      FirstAt(blob, i);
      var pl := FromLe(blob[i + 1..i + 3]);
      var j := i + 3 + pl;
      if j + 20 > n {
        break;
      }
      var off, ln, prev := FromLe(blob[j..j + 8]), FromLe(blob[j + 8..j + 12]), FromLe(blob[j + 12..j + 20]);
      var k := j + 20;
      var data := if k + ln <= n then blob[k..k + ln] else blob[k..];
      if |data| < ln {
        break;
      }
      var r := Record(blob[i], blob[i + 3..j], off, prev, data);
      assert blob[i..][k + ln - i..] == blob[k + ln..];
      ParseStep(blob[i..], r, k + ln - i);
      rs := rs + [r];
      i := k + ln;
    }
    ShortTail(blob[i..]);
  }

  lemma ParseStep(blob: seq<byte>, r: Record, n: nat)
    requires First(blob) == Some((r, n))
    ensures 0 < n <= |blob| && Parse(blob) == [r] + Parse(blob[n..])
  {}

  lemma ShortTail(blob: seq<byte>)
    requires |blob| < 11 || First(blob) == None
    ensures Parse(blob) == []
  {}
}
