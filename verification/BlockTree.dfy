/** The tree of indexed blocks: its leaves, what marking a block as failed must
    do to it, and when a header is the best one. */
module BlockTree {
  import opened NodeStores
  import opened Options

  /** Nodes of the arena that are in the index: with their parents, and each
      under a hash of its own. */
  ghost predicate Indexed(links: Links, ix: set<NodeId>)
  {
    && (forall n :: n in ix ==> n < |links|)
    && (forall n :: n in ix && links[n].parent.Some? ==> links[n].parent.value in ix)
    && (forall m, n :: m in ix && n in ix && links[m].hash == links[n].hash ==> m == n)
  }

  /** An indexed node no indexed node has as its parent. */
  ghost predicate Leaf(links: Links, ix: set<NodeId>, n: NodeId)
    requires forall m :: m in ix ==> m < |links|
  {
    n in ix && forall m :: m in ix ==> links[m].parent != Some(n)
  }

  ghost function Leaves(links: Links, ix: set<NodeId>): set<NodeId>
    requires forall m :: m in ix ==> m < |links|
  {
    set n | n in ix && Leaf(links, ix, n)
  }

  lemma LeavesAfterAdd(links: Links, ix: set<NodeId>, node: NodeId)
    requires Tree(links) && Indexed(links, ix) && node < |links| && node !in ix
    requires links[node].parent.Some? ==> links[node].parent.value in ix
    ensures Leaves(links, ix + {node}) ==
            (match links[node].parent case None => Leaves(links, ix) case Some(p) => Leaves(links, ix) - {p}) + {node}
  {
    assert WellLinked(links, node);
    var more := ix + {node};
    assert Leaf(links, more, node);
    forall n | n in ix
      ensures Leaf(links, more, n) <==> Leaf(links, ix, n) && links[node].parent != Some(n)
    {}
  }

  /** Every indexed node has a leaf at or below it. */
  lemma {:induction false} LeafBelow(links: Links, ix: set<NodeId>, d: NodeId) returns (leaf: NodeId)
    requires Tree(links) && Indexed(links, ix) && d in ix
    ensures Leaf(links, ix, leaf) && leaf < |links| && Descends(links, d, leaf)
    decreases |links| - d
  {
    if Leaf(links, ix, d) {
      leaf := d;
    } else {
      var c :| c in ix && links[c].parent == Some(d);
      assert WellLinked(links, c);
      leaf := LeafBelow(links, ix, c);
      DescendsTransitive(links, d, c, leaf);
    }
  }

  lemma {:induction false} AncestorIndexed(links: Links, ix: set<NodeId>, a: NodeId, d: NodeId)
    requires Indexed(links, ix) && d in ix && Descends(links, a, d)
    ensures a in ix
  {
    if a != d {
      AncestorIndexed(links, ix, a, links[d].parent.value);
    }
  }

  // ------------------------------------------------------------------
  // Status flags.

  /** A child of a block known to be invalid is flagged. */
  ghost predicate FlagsClosed(links: Links, states: States, ix: set<NodeId>)
    requires |links| == |states| && Indexed(links, ix)
  {
    forall n :: n in ix && links[n].parent.Some? && states[links[n].parent.value].status.KnownInvalid() ==>
                  states[n].status.invalidAncestor
  }

  /** A block below a failed one is neither validated, nor a candidate, nor a
      block others wait for. */
  ghost predicate FlaggedQuiet(states: States, ix: set<NodeId>, candidates: set<NodeId>, waitedFor: set<NodeId>)
    requires forall n :: n in ix ==> n < |states|
  {
    forall n :: n in ix && states[n].status.invalidAncestor ==>
                  !states[n].status.validated && n !in candidates && n !in waitedFor
  }

  lemma {:induction false} InvalidBelow(links: Links, states: States, ix: set<NodeId>, a: NodeId, d: NodeId)
    requires |links| == |states| && Indexed(links, ix) && FlagsClosed(links, states, ix)
    requires d in ix && Descends(links, a, d) && a < |links| && states[a].status.KnownInvalid()
    ensures states[d].status.KnownInvalid()
    ensures a != d ==> states[d].status.invalidAncestor
  {
    if a != d {
      InvalidBelow(links, states, ix, a, links[d].parent.value);
    }
  }

  function Failed(s: Status): Status
  {
    s.(validateFailed := true, validated := false)
  }

  function BelowFailed(s: Status): Status
  {
    s.(invalidAncestor := true, validated := false)
  }

  /** The states after a block fails validation: it is marked failed, every
      indexed descendant is flagged, and nothing else changes. */
  ghost function Marked(links: Links, states: States, ix: set<NodeId>, node: NodeId): (r: States)
    requires |links| == |states| && node < |links|
    ensures |r| == |states|
  {
    seq(|states|, i requires 0 <= i < |states| =>
      if i == node then states[i].(status := Failed(states[i].status))
      else if i in ix && Descends(links, node, i) then states[i].(status := BelowFailed(states[i].status))
      else states[i])
  }

  // ------------------------------------------------------------------
  // The best header.

  /** No indexed block that is not known to be invalid has more work, and there
      is a best header exactly when there is such a block. */
  ghost predicate BestHeader(links: Links, states: States, ix: set<NodeId>, best: Option<NodeId>)
    requires |links| == |states| && forall n :: n in ix ==> n < |links|
  {
    match best
    case None => forall n :: n in ix ==> states[n].status.KnownInvalid()
    case Some(b) =>
      && b in ix && !states[b].status.KnownInvalid()
      && forall n :: n in ix && !states[n].status.KnownInvalid() ==> links[n].workSum <= links[b].workSum
  }

  /** No indexed block known to be invalid has more work, and there is a best
      invalid block exactly when there is such a block. */
  ghost predicate BestInvalid(links: Links, states: States, ix: set<NodeId>, best: Option<NodeId>)
    requires |links| == |states| && forall n :: n in ix ==> n < |links|
  {
    match best
    case None => forall n :: n in ix ==> !states[n].status.KnownInvalid()
    case Some(b) =>
      && b in ix && states[b].status.KnownInvalid()
      && forall n :: n in ix && states[n].status.KnownInvalid() ==> links[n].workSum <= links[b].workSum
  }

  // ------------------------------------------------------------------
  // Marking in progress.

  /** The indexed proper descendants of a node. */
  ghost function Below(links: Links, ix: set<NodeId>, node: NodeId): set<NodeId>
    requires forall n :: n in ix ==> n < |links|
  {
    set n | n in ix && n != node && Descends(links, node, n)
  }

  /** The states when the node is marked and some nodes are flagged. */
  ghost function PartlyMarked(states: States, node: NodeId, flagged: set<NodeId>): (r: States)
    ensures |r| == |states|
  {
    seq(|states|, i requires 0 <= i < |states| =>
      if i == node then states[i].(status := Failed(states[i].status))
      else if i in flagged then states[i].(status := BelowFailed(states[i].status))
      else states[i])
  }

  /** What marking does to each field: the node has failed, the reached blocks
      have a failed ancestor, neither it nor they are validated any longer, and
      nothing else changes. */
  ghost predicate MarkedFields(was: States, now: States, node: NodeId, reached: set<NodeId>)
  {
    && |now| == |was|
    && forall n :: 0 <= n < |was| ==>
         && (now[n].status.validateFailed <==> was[n].status.validateFailed || n == node)
         && (now[n].status.invalidAncestor <==> was[n].status.invalidAncestor || n in reached)
         && (now[n].status.validated <==> was[n].status.validated && n != node && n !in reached)
         && now[n].status.dataStored == was[n].status.dataStored
         && now[n].isFullyLinked == was[n].isFullyLinked
         && now[n].receivedOrderId == was[n].receivedOrderId
  }

  lemma FieldsAt(was: States, now: States, node: NodeId, reached: set<NodeId>, n: NodeId)
    requires MarkedFields(was, now, node, reached) && node < |was| && n < |was|
    ensures |now| == |was| && now[node].status.validateFailed && !now[node].status.validated
    ensures n != node && n !in reached ==> now[n] == was[n]
  {}

  lemma PartlyMarkedFields(states: States, node: NodeId, flagged: set<NodeId>)
    requires node !in flagged
    ensures MarkedFields(states, PartlyMarked(states, node, flagged), node, flagged)
  {}

  /** A node already flagged needs no change: it was not validated. */
  lemma FlagAgain(states: States, node: NodeId, flagged: set<NodeId>, n: NodeId)
    requires n < |states| && n != node
    requires states[n].status.invalidAncestor ==> !states[n].status.validated
    ensures var now := PartlyMarked(states, node, flagged);
            PartlyMarked(states, node, flagged + {n}) ==
            if now[n].status.invalidAncestor then now else now[n := now[n].(status := BelowFailed(now[n].status))]
    ensures PartlyMarked(states, node, flagged)[n].status.invalidAncestor ==>
              n in flagged || states[n].status.invalidAncestor
  {}

  /** The nodes from a tip up to, and without, one of its ancestors. */
  ghost function Path(links: Links, ix: set<NodeId>, node: NodeId, tip: NodeId): set<NodeId>
    requires tip < |links| && forall n :: n in ix ==> n < |links|
  {
    set n | n in ix && n != node && Descends(links, node, n) && Descends(links, n, tip)
  }

  /** Some visited leaf is the node or below it. */
  ghost predicate HasVisited(links: Links, visited: set<NodeId>, d: NodeId)
  {
    exists leaf :: leaf in visited && leaf < |links| && Descends(links, d, leaf)
  }

  /** What the walks from the visited leaves up to the node meet: its proper
      descendants with a visited leaf at or below them. */
  ghost function Reached(links: Links, ix: set<NodeId>, node: NodeId, visited: set<NodeId>): set<NodeId>
    requires forall n :: n in ix ==> n < |links|
  {
    set d | d in Below(links, ix, node) && HasVisited(links, visited, d)
  }

  /** One more visited leaf adds the path from it, when it is below the node. */
  lemma ReachedMore(links: Links, ix: set<NodeId>, node: NodeId, visited: set<NodeId>, leaf: NodeId)
    requires Indexed(links, ix) && node in ix && leaf in ix
    ensures Reached(links, ix, node, visited + {leaf}) ==
            Reached(links, ix, node, visited) +
            (if Descends(links, node, leaf) then Path(links, ix, node, leaf) else {})
  {
    hide Descends;
    forall d | d in Below(links, ix, node)
      ensures HasVisited(links, visited + {leaf}, d) <==> HasVisited(links, visited, d) || Descends(links, d, leaf)
      ensures Descends(links, d, leaf) ==> Descends(links, node, leaf)
    {
      if HasVisited(links, visited, d) {
        var l :| l in visited && l < |links| && Descends(links, d, l);
        assert l in visited + {leaf};
      }
      if Descends(links, d, leaf) {
        DescendsTransitive(links, node, d, leaf);
        assert leaf in visited + {leaf};
      }
    }
  }

  /** Visiting every leaf above the node reaches every proper descendant. */
  lemma PathsCover(links: Links, ix: set<NodeId>, node: NodeId, visited: set<NodeId>)
    requires Tree(links) && Indexed(links, ix) && node in ix
    requires forall leaf: NodeId ::
               Leaf(links, ix, leaf) && links[leaf].height > links[node].height && Descends(links, node, leaf) ==>
                 leaf in visited
    ensures Reached(links, ix, node, visited) == Below(links, ix, node)
  {
    forall d | d in Below(links, ix, node)
      ensures HasVisited(links, visited, d)
    {
      var leaf := LeafBelow(links, ix, d);
      DescendsTransitive(links, node, d, leaf);
      DescendsHeight(links, d, leaf);
      DescendsHeight(links, node, d);
    }
  }

  /** The block is not flagged, and should be once the node has failed. */
  ghost predicate MustFlag(links: Links, states: States, ix: set<NodeId>, node: NodeId, d: NodeId)
    requires |links| == |states| && Indexed(links, ix) && d in ix
  {
    && !states[d].status.invalidAncestor
    && (d in Below(links, ix, node) ||
        (links[d].parent.Some? && states[links[d].parent.value].status.KnownInvalid()))
  }

  /** Every such block is reached. */
  ghost predicate AllReached(links: Links, states: States, ix: set<NodeId>, node: NodeId, visited: set<NodeId>)
    requires |links| == |states| && Indexed(links, ix)
  {
    forall d :: d in ix && MustFlag(links, states, ix, node, d) ==> d in Reached(links, ix, node, visited)
  }

  /** A proper descendant that is neither flagged nor reached leaves a block that
      is not flagged under one known to be invalid. */
  lemma {:induction false} UnreachedOpen(links: Links, states: States, ix: set<NodeId>, node: NodeId,
                                         visited: set<NodeId>, d: NodeId)
    requires |links| == |states| && Indexed(links, ix) && node in ix && d in Below(links, ix, node)
    requires !states[d].status.invalidAncestor && d !in Reached(links, ix, node, visited)
    ensures !FlagsClosed(links, PartlyMarked(states, node, Reached(links, ix, node, visited)), ix)
    decreases d
  {
    hide HasVisited;
    var r := Reached(links, ix, node, visited);
    var p := links[d].parent.value;
    assert p in ix && p < d && Descends(links, node, p);
    assert PartlyMarked(states, node, r)[d] == states[d];
    if p != node && p !in r && !states[p].status.KnownInvalid() {
      UnreachedOpen(links, states, ix, node, visited, p);
    } else {
      assert PartlyMarked(states, node, r)[p].status.KnownInvalid();
    }
  }

  /** Marking with the reached blocks flagged keeps flagged blocks quiet, once
      they and the node are off the candidate set and the waiting map, and closes
      the flags exactly when every block that must be flagged is reached. */
  lemma MarkedKeeps(links: Links, states: States, ix: set<NodeId>, node: NodeId, visited: set<NodeId>,
                    candidates: set<NodeId>, waitedFor: set<NodeId>)
    requires Tree(links) && |links| == |states| && Indexed(links, ix) && node in ix
    requires FlaggedQuiet(states, ix, candidates, waitedFor)
    ensures var r := Reached(links, ix, node, visited);
            && FlaggedQuiet(PartlyMarked(states, node, r), ix, candidates - ({node} + r), waitedFor - ({node} + r))
            && (FlagsClosed(links, PartlyMarked(states, node, r), ix) <==> AllReached(links, states, ix, node, visited))
  {
    hide HasVisited;
    var r := Reached(links, ix, node, visited);
    var after := PartlyMarked(states, node, r);
    if FlagsClosed(links, after, ix) {
      forall d | d in ix && MustFlag(links, states, ix, node, d)
        ensures d in r
      {
        if d in Below(links, ix, node) && d !in r {
          UnreachedOpen(links, states, ix, node, visited, d);
        }
      }
    }
    if AllReached(links, states, ix, node, visited) {
      forall n | n in ix && links[n].parent.Some? && after[links[n].parent.value].status.KnownInvalid()
        ensures after[n].status.invalidAncestor
      {
        ChildReached(links, states, ix, node, visited, n);
      }
    }
  }

  lemma ChildReached(links: Links, states: States, ix: set<NodeId>, node: NodeId, visited: set<NodeId>, n: NodeId)
    requires Tree(links) && |links| == |states| && Indexed(links, ix) && node in ix && n in ix
    requires AllReached(links, states, ix, node, visited) && links[n].parent.Some?
    requires PartlyMarked(states, node, Reached(links, ix, node, visited))[links[n].parent.value].status.KnownInvalid()
    ensures PartlyMarked(states, node, Reached(links, ix, node, visited))[n].status.invalidAncestor
  {
    hide Reached, AllReached;
    var r, p := Reached(links, ix, node, visited), links[n].parent.value;
    ReachedBelow(links, ix, node, visited);
    assert p < n by { assert WellLinked(links, n); }
    if !states[n].status.invalidAncestor {
      if !states[p].status.KnownInvalid() {
        assert Descends(links, node, p) && Descends(links, node, n);
        DescendsUp(links, p, node);
      }
      MustReach(links, states, ix, node, visited, n);
    }
  }

  lemma ReachedBelow(links: Links, ix: set<NodeId>, node: NodeId, visited: set<NodeId>)
    requires forall n :: n in ix ==> n < |links|
    ensures Reached(links, ix, node, visited) <= Below(links, ix, node)
  {}

  lemma MustReach(links: Links, states: States, ix: set<NodeId>, node: NodeId, visited: set<NodeId>, d: NodeId)
    requires |links| == |states| && Indexed(links, ix) && AllReached(links, states, ix, node, visited)
    requires d in ix && MustFlag(links, states, ix, node, d)
    ensures d in Reached(links, ix, node, visited) && d in Below(links, ix, node)
  {}

  /** With every one reached, and only then, the states are those with exactly
      the node failed and its descendants flagged. */
  lemma ReachedMarks(links: Links, states: States, ix: set<NodeId>, node: NodeId, visited: set<NodeId>)
    requires |links| == |states| && Indexed(links, ix) && node in ix
    requires forall n :: n in ix && states[n].status.invalidAncestor ==> !states[n].status.validated
    ensures PartlyMarked(states, node, Reached(links, ix, node, visited)) == Marked(links, states, ix, node) <==>
              forall d :: d in Below(links, ix, node) && !states[d].status.invalidAncestor ==>
                d in Reached(links, ix, node, visited)
  {
    hide HasVisited, Descends;
    var r := Reached(links, ix, node, visited);
    var partly, marked := PartlyMarked(states, node, r), Marked(links, states, ix, node);
    forall d | d in Below(links, ix, node) && !states[d].status.invalidAncestor && d !in r
      ensures partly[d] != marked[d]
    {}
    forall i | 0 <= i < |states| && !(i in Below(links, ix, node) && i !in r)
      ensures partly[i] == marked[i]
    {}
  }

  // ------------------------------------------------------------------
  // Finding the best header again.

  /** The node has at most the best one's work. */
  ghost predicate Covered(links: Links, best: Option<NodeId>, n: NodeId)
    requires n < |links|
  {
    best.Some? && best.value < |links| && links[n].workSum <= links[best.value].workSum
  }

  /** Every valid indexed node on the way from a node to its root has at most
      the best one's work. */
  ghost predicate AncestorsCovered(links: Links, states: States, ix: set<NodeId>, best: Option<NodeId>, n: NodeId)
    requires |links| == |states| && n < |links| && forall m :: m in ix ==> m < |links|
  {
    forall v :: v in ix && Descends(links, v, n) && !states[v].status.KnownInvalid() ==> Covered(links, best, v)
  }

  lemma StillCovered(links: Links, states: States, ix: set<NodeId>, best: Option<NodeId>, best': Option<NodeId>,
                     n: NodeId)
    requires |links| == |states| && n < |links| && forall m :: m in ix ==> m < |links|
    requires best.Some? ==> best.value < |links| && Covered(links, best', best.value)
    requires AncestorsCovered(links, states, ix, best, n)
    ensures AncestorsCovered(links, states, ix, best', n)
  {}

  /** The first tips of a list that are not below the node have their valid
      ancestors covered. */
  ghost predicate TipsCovered(links: Links, states: States, ix: set<NodeId>, node: NodeId, best: Option<NodeId>,
                              tips: seq<NodeId>)
    requires |links| == |states| && forall m :: m in ix ==> m < |links|
  {
    forall j :: 0 <= j < |tips| ==>
      tips[j] < |links| && (!Descends(links, node, tips[j]) ==> AncestorsCovered(links, states, ix, best, tips[j]))
  }

  lemma CoverTip(links: Links, states: States, ix: set<NodeId>, node: NodeId, best: Option<NodeId>,
                 best': Option<NodeId>, tips: seq<NodeId>, i: nat)
    requires |links| == |states| && (forall m :: m in ix ==> m < |links|) && i < |tips| && tips[i] < |links|
    requires TipsCovered(links, states, ix, node, best, tips[..i])
    requires best == best' || (best.Some? ==> best.value < |links| && Covered(links, best', best.value))
    requires !Descends(links, node, tips[i]) ==> AncestorsCovered(links, states, ix, best', tips[i])
    ensures TipsCovered(links, states, ix, node, best', tips[..i + 1])
  {
    hide AncestorsCovered;
    forall j | 0 <= j < i + 1
      ensures tips[j] < |links|
      ensures !Descends(links, node, tips[j]) ==> AncestorsCovered(links, states, ix, best', tips[j])
    {
      if j < i {
        assert tips[..i][j] == tips[j];
        if !Descends(links, node, tips[j]) && best != best' {
          StillCovered(links, states, ix, best, best', tips[j]);
        }
      }
    }
  }

  /** The best of the valid blocks that are not below the node. */
  ghost predicate BestOutside(links: Links, states: States, ix: set<NodeId>, node: NodeId, best: Option<NodeId>)
    requires |links| == |states| && forall n :: n in ix ==> n < |links|
  {
    match best
    case None => forall v :: v in ix && !Descends(links, node, v) ==> states[v].status.KnownInvalid()
    case Some(b) =>
      && b in ix && !states[b].status.KnownInvalid() && !Descends(links, node, b)
      && forall v :: v in ix && !Descends(links, node, v) && !states[v].status.KnownInvalid() ==>
           links[v].workSum <= links[b].workSum
  }

  /** Covering the valid ancestors of the failed node, and of every leaf that
      is not below it, covers every valid node that is not below it. */
  lemma HeaderFound(links: Links, states: States, ix: set<NodeId>, node: NodeId, best: Option<NodeId>)
    requires Tree(links) && |links| == |states| && Indexed(links, ix) && node in ix
    requires best.Some? ==>
               best.value in ix && !states[best.value].status.KnownInvalid() && !Descends(links, node, best.value)
    requires AncestorsCovered(links, states, ix, best, node)
    requires forall leaf: NodeId :: Leaf(links, ix, leaf) && !Descends(links, node, leaf) ==>
               AncestorsCovered(links, states, ix, best, leaf)
    ensures BestOutside(links, states, ix, node, best)
  {
    forall v | v in ix && !Descends(links, node, v) && !states[v].status.KnownInvalid()
      ensures Covered(links, best, v)
    {
      var leaf := LeafBelow(links, ix, v);
      if Descends(links, node, leaf) {
        AncestorsComparable(links, v, node, leaf);
      }
    }
  }

  /** While the best header stays valid it stays the best. */
  lemma HeaderStays(links: Links, states: States, ix: set<NodeId>, node: NodeId, flagged: set<NodeId>,
                    best: Option<NodeId>)
    requires |links| == |states| && Indexed(links, ix)
    requires BestHeader(links, states, ix, best)
    requires best.Some? && best.value < |links| ==>
               !PartlyMarked(states, node, flagged)[best.value].status.KnownInvalid()
    ensures BestHeader(links, PartlyMarked(states, node, flagged), ix, best)
  {}

  /** Some valid block that is not below the node has at least the block's work. */
  ghost predicate Outweighed(links: Links, states: States, ix: set<NodeId>, node: NodeId, d: NodeId)
    requires |links| == |states| && (forall n :: n in ix ==> n < |links|) && d < |links|
  {
    exists v :: v in ix && !Descends(links, node, v) && !states[v].status.KnownInvalid() &&
      links[d].workSum <= links[v].workSum
  }

  /** The best header is not the node nor reached, or every valid descendant that
      is not reached is outweighed. */
  ghost predicate HeaderKept(links: Links, states: States, ix: set<NodeId>, node: NodeId, visited: set<NodeId>,
                             best: Option<NodeId>)
    requires |links| == |states| && forall n :: n in ix ==> n < |links|
  {
    best.Some? && best.value in {node} + Reached(links, ix, node, visited) ==>
      forall d ::
        d in Below(links, ix, node) - Reached(links, ix, node, visited) && !states[d].status.KnownInvalid() ==>
          Outweighed(links, states, ix, node, d)
  }

  /** The best header is the best again exactly under that condition. */
  lemma HeaderExactly(links: Links, states: States, ix: set<NodeId>, node: NodeId, visited: set<NodeId>,
                      best: Option<NodeId>, best': Option<NodeId>)
    requires |links| == |states| && Indexed(links, ix) && node in ix && BestHeader(links, states, ix, best)
    requires var after := PartlyMarked(states, node, Reached(links, ix, node, visited));
             if best.Some? && best.value < |links| && after[best.value].status.KnownInvalid()
             then BestOutside(links, after, ix, node, best') else best' == best
    ensures BestHeader(links, PartlyMarked(states, node, Reached(links, ix, node, visited)), ix, best') <==>
              HeaderKept(links, states, ix, node, visited, best)
  {
    hide HasVisited;
    var r := Reached(links, ix, node, visited);
    var after := PartlyMarked(states, node, r);
    if best.Some? && after[best.value].status.KnownInvalid() {
      HeaderSearched(links, states, ix, node, r, best');
    } else {
      HeaderStays(links, states, ix, node, r, best);
    }
  }

  /** A best header searched for among the blocks that are not below the node. */
  lemma HeaderSearched(links: Links, states: States, ix: set<NodeId>, node: NodeId, r: set<NodeId>,
                       best: Option<NodeId>)
    requires |links| == |states| && Indexed(links, ix) && node in ix && r <= Below(links, ix, node)
    requires BestOutside(links, PartlyMarked(states, node, r), ix, node, best)
    ensures BestHeader(links, PartlyMarked(states, node, r), ix, best) <==>
              forall d :: d in Below(links, ix, node) - r && !states[d].status.KnownInvalid() ==>
                Outweighed(links, states, ix, node, d)
  {
    hide Descends;
    var after := PartlyMarked(states, node, r);
    assert Descends(links, node, node) by { SelfBelow(links, node); }
    assert forall v :: v in ix && !Descends(links, node, v) ==> after[v] == states[v];
    if BestHeader(links, after, ix, best) {
      forall d | d in Below(links, ix, node) - r && !states[d].status.KnownInvalid()
        ensures Outweighed(links, states, ix, node, d)
      {
        assert after[d] == states[d];
      }
    } else {
      var v :| && v in ix && !after[v].status.KnownInvalid()
               && (best.Some? ==> links[v].workSum > links[best.value].workSum);
      assert Descends(links, node, v);
      assert v in Below(links, ix, node) - r;
      assert !Outweighed(links, states, ix, node, v);
    }
  }

  lemma SelfBelow(links: Links, n: NodeId)
    requires n < |links|
    ensures Descends(links, n, n)
  {}

  /** The tracked invalid block is the old one, the node, or a reached one. */
  ghost predicate TrackedInvalid(node: NodeId, flagged: set<NodeId>, best: Option<NodeId>, best': Option<NodeId>)
  {
    best' == best || (best'.Some? && best'.value in {node} + flagged)
  }

  /** The visited leaves below the node have at most the best one's work. */
  ghost predicate LeavesCovered(links: Links, node: NodeId, visited: set<NodeId>, best: Option<NodeId>)
  {
    forall leaf :: leaf in visited && leaf < |links| && Descends(links, node, leaf) ==> Covered(links, best, leaf)
  }

  /** The best invalid block is right again, reached or not: a block that is not
      reached is not flagged. */
  lemma InvalidCovered(links: Links, states: States, ix: set<NodeId>, node: NodeId, visited: set<NodeId>,
                       best: Option<NodeId>, best': Option<NodeId>)
    requires Tree(links) && NoWrap(links) && |links| == |states| && Indexed(links, ix) && node in ix
    requires BestInvalid(links, states, ix, best)
    requires TrackedInvalid(node, Reached(links, ix, node, visited), best, best')
    requires best.Some? ==> Covered(links, best', best.value)
    requires Covered(links, best', node) && LeavesCovered(links, node, visited, best')
    ensures BestInvalid(links, PartlyMarked(states, node, Reached(links, ix, node, visited)), ix, best')
  {
    var r := Reached(links, ix, node, visited);
    var after := PartlyMarked(states, node, r);
    forall n | n in ix && after[n].status.KnownInvalid()
      ensures Covered(links, best', n)
    {
      if n in r {
        var leaf :| leaf in visited && leaf < |links| && Descends(links, n, leaf);
        DescendsTransitive(links, node, n, leaf);
        WorkGrows(links, n, leaf);
      } else if n != node {
        assert states[n].status.KnownInvalid();
      }
    }
  }

  /** What an index holds besides the tree. */
  datatype Books = Books(states: States, candidates: set<NodeId>, waiting: map<NodeId, seq<NodeId>>,
                         modified: set<NodeId>)

  /** The books when the node is marked and some nodes below it are flagged. */
  ghost function MarkedSoFar(b: Books, node: NodeId, flagged: set<NodeId>): Books
  {
    Books(PartlyMarked(b.states, node, flagged),
          b.candidates - ({node} + flagged),
          b.waiting - ({node} + flagged),
          b.modified + {node} + (set n | n in flagged && n < |b.states| && !b.states[n].status.invalidAncestor))
  }

  /** The books after the step of the flagging walk at one node. */
  ghost function FlagStep(b: Books, n: NodeId): Books
    requires n < |b.states|
  {
    if b.states[n].status.invalidAncestor then b
    else Books(b.states[n := b.states[n].(status := BelowFailed(b.states[n].status))],
               b.candidates - {n}, b.waiting - {n}, b.modified + {n})
  }

  lemma FlagStepMarks(b: Books, ix: set<NodeId>, node: NodeId, flagged: set<NodeId>, n: NodeId)
    requires (forall m :: m in ix ==> m < |b.states|) && n in ix && n != node
    requires FlaggedQuiet(b.states, ix, b.candidates, b.waiting.Keys)
    ensures FlagStep(MarkedSoFar(b, node, flagged), n) == MarkedSoFar(b, node, flagged + {n})
  {
    FlagAgain(b.states, node, flagged, n);
    var now := MarkedSoFar(b, node, flagged);
    if now.states[n].status.invalidAncestor {
      if n in flagged {
        assert flagged + {n} == flagged;
      } else {
        assert b.states[n].status.invalidAncestor;
        assert n !in b.candidates && n !in b.waiting;
        assert b.waiting - ({node} + flagged) == b.waiting - ({node} + (flagged + {n}));
      }
    } else {
      assert now.waiting - {n} == b.waiting - ({node} + (flagged + {n}));
      assert n !in flagged;
    }
  }
}
