/** The arena of block nodes: parent and skip links, accumulated work, and the
    order on best chain candidates. */
module NodeStores {
  import opened Digits
  import opened SkipList
  import opened Work
  import opened Options

  type NodeId = nat

  /** A 32-byte block hash. */
  type Hash = h: seq<nat> | |h| == 32 && Below(h, 256) witness seq(32, i => 0)

  /** The fields of a node that never change once it exists. */
  datatype Link = Link(parent: Option<NodeId>, skip: Option<NodeId>, hash: Hash, workSum: nat, height: int, bits: Bits)

  /** The validation status flags. */
  datatype Status = Status(dataStored: bool, validated: bool, validateFailed: bool, invalidAncestor: bool) {
    predicate KnownInvalid()
    {
      validateFailed || invalidAncestor
    }
  }

  const NONE: Status := Status(false, false, false, false)

  /** The fields of a node that change. */
  datatype NodeState = NodeState(status: Status, isFullyLinked: bool, receivedOrderId: nat)

  type Links = seq<Link>
  type States = seq<NodeState>

  // ------------------------------------------------------------------
  // Plain parent walks.

  /** The ancestor at a height by following parents one at a time. */
  ghost function Walk(links: Links, id: NodeId, height: int): Option<NodeId>
    requires id < |links|
  {
    if height < 0 || height > links[id].height then None
    else if links[id].height == height then Some(id)
    else match links[id].parent
         case None => None
         case Some(p) => if p < id then Walk(links, p, height) else None
  }

  /** The ancestor relation, reflexive, by parents. */
  ghost predicate Descends(links: Links, a: NodeId, d: NodeId)
    requires d < |links|
  {
    a == d || (links[d].parent.Some? && links[d].parent.value < d && Descends(links, a, links[d].parent.value))
  }

  /** A node built by `init_node` from the nodes before it. */
  ghost predicate WellLinked(links: Links, id: NodeId)
    requires id < |links|
  {
    var n := links[id];
    match n.parent
    case None => n.height == 0 && n.skip == None && n.workSum == CalcWork(n.bits)
    case Some(p) =>
      && p < id
      && n.height == links[p].height + 1
      && n.skip == Walk(links, p, CalcSkipListHeight(n.height))
      && n.workSum == (CalcWork(n.bits) + links[p].workSum) % TWO_256
  }

  /** Every node was built by `init_node`. */
  ghost predicate Tree(links: Links)
  {
    forall id :: 0 <= id < |links| ==> WellLinked(links, id)
  }

  lemma {:induction false} HeightNonNegative(links: Links, id: NodeId)
    requires Tree(links) && id < |links|
    ensures links[id].height >= 0
  {
    assert WellLinked(links, id);
    match links[id].parent
    case None =>
    case Some(p) => HeightNonNegative(links, p);
  }

  /** A walk to a height between zero and the node's finds a node there. */
  lemma {:induction false} WalkFinds(links: Links, id: NodeId, height: int)
    requires Tree(links) && id < |links| && 0 <= height <= links[id].height
    ensures var r := Walk(links, id, height);
            r.Some? && r.value <= id && links[r.value].height == height && Descends(links, r.value, id)
  {
    assert WellLinked(links, id);
    if links[id].height > height {
      WalkFinds(links, links[id].parent.value, height);
    }
  }

  /** Walks compose: a stop on the way does not change where a walk ends. */
  lemma {:induction false} WalkThrough(links: Links, id: NodeId, stop: int, height: int)
    requires Tree(links) && id < |links| && 0 <= height <= stop <= links[id].height
    ensures Walk(links, id, stop).Some? && Walk(links, id, stop).value < |links|
    ensures Walk(links, Walk(links, id, stop).value, height) == Walk(links, id, height)
  {
    WalkFinds(links, id, stop);
    assert WellLinked(links, id);
    if links[id].height > stop {
      WalkThrough(links, links[id].parent.value, stop, height);
    }
  }

  lemma {:induction false} DescendsHeight(links: Links, a: NodeId, d: NodeId)
    requires Tree(links) && d < |links| && Descends(links, a, d)
    ensures a <= d && links[a].height <= links[d].height
    ensures a != d ==> links[a].height < links[d].height
    ensures Walk(links, d, links[a].height) == Some(a)
  {
    DescendsUp(links, d, a);
    HeightNonNegative(links, a);
    assert WellLinked(links, d);
    if a != d {
      DescendsHeight(links, a, links[d].parent.value);
    }
  }

  /** The walk to a node's own height meets it exactly for its descendants. */
  lemma AncestorByHeight(links: Links, a: NodeId, d: NodeId)
    requires Tree(links) && a < |links| && d < |links|
    ensures Walk(links, d, links[a].height) == Some(a) <==> Descends(links, a, d)
  {
    HeightNonNegative(links, a);
    if Descends(links, a, d) {
      DescendsHeight(links, a, d);
    } else if links[a].height <= links[d].height {
      WalkFinds(links, d, links[a].height);
    }
  }

  lemma {:induction false} DescendsTransitive(links: Links, a: NodeId, b: NodeId, c: NodeId)
    requires b < |links| && c < |links| && Descends(links, a, b) && Descends(links, b, c)
    ensures Descends(links, a, c)
  {
    if b != c {
      DescendsTransitive(links, a, b, links[c].parent.value);
    }
  }

  /** Two ancestors of one node are ancestors one of the other. */
  lemma {:induction false} AncestorsComparable(links: Links, a: NodeId, b: NodeId, d: NodeId)
    requires d < |links| && a < |links| && b < |links| && Descends(links, a, d) && Descends(links, b, d)
    ensures Descends(links, a, b) || Descends(links, b, a)
  {
    if a != d && b != d {
      AncestorsComparable(links, a, b, links[d].parent.value);
    }
  }

  lemma {:induction false} DescendsUp(links: Links, d: NodeId, a: NodeId)
    requires d < |links| && Descends(links, a, d)
    ensures a <= d
  {
    if a != d {
      DescendsUp(links, links[d].parent.value, a);
    }
  }

  lemma DescendsAntisymmetric(links: Links, a: NodeId, b: NodeId)
    requires a < |links| && b < |links| && Descends(links, a, b) && Descends(links, b, a)
    ensures a == b
  {
    DescendsUp(links, a, b);
    DescendsUp(links, b, a);
  }

  // ------------------------------------------------------------------
  // Work sums.

  /** The exact work of every block on the path from the root. */
  ghost function PathWork(links: Links, id: NodeId): nat
    requires id < |links|
  {
    ExactWork(links[id].bits) +
    (if links[id].parent.Some? && links[id].parent.value < id then PathWork(links, links[id].parent.value) else 0)
  }

  /** A node's work sum is its whole path's exact work modulo 2^256. */
  lemma {:induction false} WorkSumExact(links: Links, id: NodeId)
    requires Tree(links) && id < |links|
    ensures links[id].workSum == PathWork(links, id) % TWO_256
  {
    hide CalcWork, ExactWork;
    assert WellLinked(links, id);
    var n := links[id];
    CalcWorkExact(n.bits);
    match n.parent {
      case None =>
        assert ExactWork(n.bits) % TWO_256 == ExactWork(n.bits);
      case Some(p) =>
        WorkSumExact(links, p);
        ModAdd(ExactWork(n.bits), PathWork(links, p), TWO_256);
    }
  }

  lemma ModAdd(a: nat, b: nat, m: nat)
    requires m == TWO_256
    ensures (a + b % m) % m == (a + b) % m
  {}

  /** No work sum in the arena wraps. */
  ghost predicate NoWrap(links: Links)
  {
    forall id :: 0 <= id < |links| ==> PathWork(links, id) < TWO_256
  }

  /** While sums do not wrap, no node has more work than a descendant. */
  lemma {:induction false} WorkGrows(links: Links, a: NodeId, d: NodeId)
    requires Tree(links) && NoWrap(links) && d < |links| && Descends(links, a, d)
    ensures a < |links| && links[a].workSum <= links[d].workSum
  {
    hide CalcWork, ExactWork, WellLinked;
    DescendsUp(links, d, a);
    if a != d {
      var p := links[d].parent.value;
      WorkGrows(links, a, p);
      WorkSumExact(links, p);
      WorkSumExact(links, d);
      assert PathWork(links, p) <= PathWork(links, d) < TWO_256;
    }
  }

  // ------------------------------------------------------------------
  // The candidate order.

  /** Compare from the most significant byte down: 1, -1 or 0. */
  function CompareFrom(a: Hash, b: Hash, n: nat): int
    requires n <= 32
  {
    if n == 0 then 0
    else if a[n - 1] != b[n - 1] then (if a[n - 1] > b[n - 1] then 1 else -1)
    else CompareFrom(a, b, n - 1)
  }

  function CompareHashesAsUint256LE(a: Hash, b: Hash): int
  {
    CompareFrom(a, b, 32)
  }

  lemma {:induction false} CompareFromByValue(a: Hash, b: Hash, n: nat)
    requires n <= 32
    ensures CompareFrom(a, b, n) > 0 <==> Value(a[..n], 256) > Value(b[..n], 256)
    ensures CompareFrom(a, b, n) < 0 <==> Value(a[..n], 256) < Value(b[..n], 256)
  {
    if n > 0 {
      var k := n - 1;
      CompareFromByValue(a, b, k);
      assert a[..n] == a[..k] + [a[k]] && b[..n] == b[..k] + [b[k]];
      ValueSnoc(a[..k], a[k], 256);
      ValueSnoc(b[..k], b[k], 256);
      ValueBound(a[..k], 256);
      ValueBound(b[..k], 256);
      if a[k] > b[k] {
        TopDigitDecides(Value(a[..k], 256), a[k], Value(b[..k], 256), b[k], Pow(256, k));
      } else if a[k] < b[k] {
        TopDigitDecides(Value(b[..k], 256), b[k], Value(a[..k], 256), a[k], Pow(256, k));
      }
    }
  }

  lemma TopDigitDecides(v: nat, d: nat, w: nat, e: nat, p: nat)
    requires w < p && e < d
    ensures v + p * d > w + p * e
  {
    MulMono(p, p, e + 1, d);
    assert p * (e + 1) == p * e + p;
  }

  /** The comparison is by the hashes' little-endian numbers, and only equal
      hashes compare equal. */
  lemma CompareHashesByValue(a: Hash, b: Hash)
    ensures CompareHashesAsUint256LE(a, b) > 0 <==> Value(a, 256) > Value(b, 256)
    ensures CompareHashesAsUint256LE(a, b) < 0 <==> Value(a, 256) < Value(b, 256)
    ensures Value(a, 256) == Value(b, 256) <==> a == b
  {
    CompareFromByValue(a, b, 32);
    assert a[..32] == a && b[..32] == b;
    if Value(a, 256) == Value(b, 256) {
      ValueInjective(a, b, 256);
    }
  }

  /** `better_candidate`: more work, then data, then earlier data, then the
      smaller hash. */
  predicate BetterCandidate(links: Links, states: States, a: NodeId, b: NodeId)
    requires a < |links| == |states| && b < |links|
  {
    if links[a].workSum != links[b].workSum then links[a].workSum > links[b].workSum
    else if states[a].status.dataStored != states[b].status.dataStored then states[a].status.dataStored
    else if states[a].receivedOrderId != states[b].receivedOrderId then
      states[a].receivedOrderId < states[b].receivedOrderId
    else CompareHashesAsUint256LE(links[a].hash, links[b].hash) < 0
  }

  lemma BetterTransitive(links: Links, states: States, a: NodeId, b: NodeId, c: NodeId)
    requires a < |links| == |states| && b < |links| && c < |links|
    requires BetterCandidate(links, states, a, b) && BetterCandidate(links, states, b, c)
    ensures BetterCandidate(links, states, a, c)
  {
    hide CompareHashesAsUint256LE;
    CompareHashesByValue(links[a].hash, links[b].hash);
    CompareHashesByValue(links[b].hash, links[c].hash);
    CompareHashesByValue(links[a].hash, links[c].hash);
  }

  /** Of two nodes with different hashes exactly one is better; none is better
      than itself. */
  lemma BetterTotal(links: Links, states: States, a: NodeId, b: NodeId)
    requires a < |links| == |states| && b < |links|
    ensures !BetterCandidate(links, states, a, a)
    ensures BetterCandidate(links, states, a, b) ==> !BetterCandidate(links, states, b, a)
    ensures links[a].hash != links[b].hash ==>
              BetterCandidate(links, states, a, b) || BetterCandidate(links, states, b, a)
  {
    hide CompareHashesAsUint256LE;
    CompareHashesByValue(links[a].hash, links[a].hash);
    CompareHashesByValue(links[a].hash, links[b].hash);
    CompareHashesByValue(links[b].hash, links[a].hash);
  }

  /** The best candidate against another, key by key: it has the most work; of
      the same work, its data if the other has it; then the smaller order id; then
      the smaller hash, as a number. */
  ghost predicate FirstChoice(links: Links, states: States, best: NodeId, n: NodeId)
    requires best < |links| == |states| && n < |links|
  {
    && links[n].workSum <= links[best].workSum
    && (links[n].workSum == links[best].workSum ==>
          && (states[n].status.dataStored ==> states[best].status.dataStored)
          && (states[n].status.dataStored == states[best].status.dataStored ==>
                && states[best].receivedOrderId <= states[n].receivedOrderId
                && (states[n].receivedOrderId == states[best].receivedOrderId ==>
                      Value(links[best].hash, 256) <= Value(links[n].hash, 256))))
  }

  /** The order is exactly that: of two nodes with different hashes the one that
      is better is the first choice. */
  lemma BestChosen(links: Links, states: States, best: NodeId, n: NodeId)
    requires best < |links| == |states| && n < |links|
    ensures best == n || BetterCandidate(links, states, best, n) ==> FirstChoice(links, states, best, n)
    ensures links[best].hash != links[n].hash && FirstChoice(links, states, best, n) ==>
              BetterCandidate(links, states, best, n)
  {
    hide CompareHashesAsUint256LE;
    CompareHashesByValue(links[best].hash, links[n].hash);
  }

  lemma NotBetterWork(links: Links, states: States, a: NodeId, b: NodeId)
    requires a < |links| == |states| && b < |links|
    ensures BetterCandidate(links, states, a, b) ==> links[a].workSum >= links[b].workSum
    ensures !BetterCandidate(links, states, a, b) ==> links[a].workSum <= links[b].workSum
  {}

  // ------------------------------------------------------------------
  // The arena.

  lemma {:induction false} WalkExtend(links: Links, n: Link, id: NodeId, height: int)
    requires id < |links|
    ensures Walk(links + [n], id, height) == Walk(links, id, height)
  {
    if links[id].parent.Some? && links[id].parent.value < id {
      WalkExtend(links, n, links[id].parent.value, height);
    }
  }

  lemma {:induction false} DescendsExtend(links: Links, n: Link, a: NodeId, d: NodeId)
    requires d < |links|
    ensures Descends(links + [n], a, d) == Descends(links, a, d)
  {
    if links[d].parent.Some? && links[d].parent.value < d {
      DescendsExtend(links, n, a, links[d].parent.value);
    }
  }

  lemma TreeExtend(links: Links, n: Link)
    requires Tree(links) && WellLinked(links + [n], |links|)
    ensures Tree(links + [n])
  {
    hide CalcWork;
    var more := links + [n];
    forall id | 0 <= id < |more|
      ensures WellLinked(more, id)
    {
      if id < |links| {
        assert WellLinked(links, id);
        if links[id].parent.Some? {
          WalkExtend(links, n, links[id].parent.value, CalcSkipListHeight(links[id].height));
        }
      }
    }
  }

  /** A node above height zero has a parent, and a skip link to its ancestor at
      the skip height. */
  lemma SkipLink(links: Links, id: NodeId)
    requires Tree(links) && id < |links| && links[id].height > 0
    ensures links[id].parent.Some? && links[id].parent.value < id
    ensures links[links[id].parent.value].height == links[id].height - 1
    ensures links[id].skip.Some? && links[id].skip == Walk(links, id, CalcSkipListHeight(links[id].height))
    ensures CalcSkipListHeight(links[id].height) < links[id].height
  {
    hide CalcWork;
    assert WellLinked(links, id);
    SkipFalls(links[id].height);
    WalkFinds(links, links[id].parent.value, CalcSkipListHeight(links[id].height));
  }

  class NodeStore {
    var links: Links
    var states: States

    ghost predicate Ok()
      reads this
    {
      Tree(links) && |links| == |states|
    }

    constructor ()
      ensures Ok() && links == [] && states == []
    {
      links := [];
      states := [];
    }

    /** `ancestor`: the skip list walk finds what the plain parent walk finds,
        in at most b * (b + 1) links for b the bit length of the height. */
    method Ancestor(id: NodeId, height: int) returns (r: Option<NodeId>, ghost followed: nat)
      requires Ok() && id < |links|
      ensures r == Walk(links, id, height)
      ensures links[id].height >= 0
      ensures followed <= BitLength(links[id].height) * (BitLength(links[id].height) + 1)
    {
      hide LinkCount, Tree, CalcSkipListHeight, BitLength;
      HeightNonNegative(links, id);
      followed := 0;
      if height < 0 || height > links[id].height {
        assert BitLength(links[id].height) * (BitLength(links[id].height) + 1) >= 0;
        return None, 0;
      }
      ghost var total := LinkCount(links[id].height, height);
      LinksQuadratic(links[id].height, height);
      var cur: NodeId := id;
      while links[cur].height != height
        invariant cur < |links| && height <= links[cur].height
        invariant Walk(links, cur, height) == Walk(links, id, height)
        invariant followed + LinkCount(links[cur].height, height) == total
        decreases links[cur].height
      {
        SkipLink(links, cur);
        followed := followed + 1;
        if links[cur].skip.Some? && CalcSkipListHeight(links[cur].height) >= height {
          WalkThrough(links, cur, CalcSkipListHeight(links[cur].height), height);
          WalkFinds(links, cur, CalcSkipListHeight(links[cur].height));
          LinksJump(links[cur].height, height);
          cur := links[cur].skip.value;
        } else {
          LinksStep(links[cur].height, height);
          WalkThrough(links, cur, links[cur].height - 1, height);
          WalkFinds(links, cur, links[cur].height - 1);
          cur := links[cur].parent.value;
        }
      }
      r := Some(cur);
    }

    /** `is_ancestor_of`: true exactly when the parent links lead from the
        target to the node. */
    method IsAncestorOf(id: NodeId, target: NodeId) returns (b: bool)
      requires Ok() && id < |links| && target < |links|
      ensures b <==> Descends(links, id, target)
    {
      var a, _ := Ancestor(target, links[id].height);
      AncestorByHeight(links, id, target);
      b := a == Some(id);
    }

    /** `init_node`: a node for a header on a known parent, one above it, or a
        root at height zero. */
    method InitNode(bits: Bits, height: int, hash: Hash, parent: Option<NodeId>) returns (id: NodeId)
      requires Ok()
      requires parent.None? ==> height == 0
      requires parent.Some? ==> parent.value < |links| && height == links[parent.value].height + 1
      modifies this
      ensures Ok() && id == |old(links)| && |links| == id + 1
      ensures links[..id] == old(links) && states == old(states) + [NodeState(NONE, false, 0)]
      ensures links[id].parent == parent && links[id].hash == hash
      ensures links[id].bits == bits && links[id].height == height
    {
      hide CalcWork, CalcSkipListHeight, Tree;
      id := |links|;
      var n := Link(None, None, hash, CalcWork(bits), height, bits);
      if parent.Some? {
        var p := parent.value;
        var skip, _ := Ancestor(p, CalcSkipListHeight(height));
        n := Link(parent, skip, hash, (CalcWork(bits) + links[p].workSum) % TWO_256, height, bits);
        WalkExtend(links, n, p, CalcSkipListHeight(height));
      }
      TreeExtend(links, n);
      links := links + [n];
      states := states + [NodeState(NONE, false, 0)];
    }
  }
}
