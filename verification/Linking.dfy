/** Blocks whose data waits for an ancestor's: which blocks become linked when
    data arrives, and in what order. */
module Linking {
  import opened NodeStores
  import opened BlockTree
  import opened Options
  import opened Sequences

  const U32: nat := 0x1_0000_0000

  type Waiting = map<NodeId, seq<NodeId>>

  /** Each waiting block is listed once, under its own parent. */
  ghost predicate WaitingOk(links: Links, ix: set<NodeId>, waiting: Waiting)
  {
    forall p :: p in waiting ==>
      && p in ix && Distinct(waiting[p])
      && forall c :: c in waiting[p] ==> c in ix && c < |links| && links[c].parent == Some(p)
  }

  /** No block waits for one known to be invalid, and none that waits is below
      one. */
  ghost predicate WaitingQuiet(states: States, waiting: Waiting)
  {
    forall p :: p in waiting ==>
      && p < |states| && !states[p].status.KnownInvalid()
      && forall c :: c in waiting[p] ==> c < |states| && !states[c].status.invalidAncestor
  }

  /** d is the node, or waits for a block that is or waits, in turn, for it. */
  ghost predicate WaitsFor(links: Links, waiting: Waiting, node: NodeId, d: NodeId)
    requires d < |links|
  {
    d == node ||
    match links[d].parent
    case None => false
    case Some(p) => p < d && p in waiting && d in waiting[p] && WaitsFor(links, waiting, node, p)
  }

  lemma {:induction false} WaitsForBelow(links: Links, waiting: Waiting, node: NodeId, d: NodeId)
    requires d < |links| && WaitsFor(links, waiting, node, d)
    ensures node <= d && Descends(links, node, d)
  {
    if d != node {
      WaitsForBelow(links, waiting, node, links[d].parent.value);
    }
  }

  /** Every listed block after the first is listed after the parent it waited
      for, which is one of the first i. */
  ghost predicate ParentsFirst(links: Links, waiting: Waiting, linked: seq<NodeId>, i: nat)
  {
    forall k :: 0 < k < |linked| ==> ParentListed(links, waiting, linked, i, k)
  }

  ghost predicate ParentListed(links: Links, waiting: Waiting, linked: seq<NodeId>, i: nat, k: nat)
    requires k < |linked|
  {
    linked[k] < |links| && exists j :: 0 <= j < k && j < i && WaitedOn(links, waiting, linked[j], linked[k])
  }

  ghost predicate WaitedOn(links: Links, waiting: Waiting, p: NodeId, c: NodeId)
    requires c < |links|
  {
    links[c].parent == Some(p) && p < c && p in waiting && c in waiting[p]
  }

  /** The first i blocks' waiting children are all in the list. */
  ghost predicate ChildrenListed(waiting: Waiting, linked: seq<NodeId>, i: nat)
    requires i <= |linked|
  {
    forall j :: 0 <= j < i && linked[j] in waiting ==> forall c :: c in waiting[linked[j]] ==> c in linked
  }

  lemma {:induction false} ListedWait(links: Links, waiting: Waiting, linked: seq<NodeId>, i: nat, k: nat)
    requires k < |linked| && linked[0] < |links| && ParentsFirst(links, waiting, linked, i)
    ensures linked[k] < |links| && WaitsFor(links, waiting, linked[0], linked[k])
    decreases k
  {
    if k > 0 {
      assert ParentListed(links, waiting, linked, i, k);
      var j :| 0 <= j < k && j < i && WaitedOn(links, waiting, linked[j], linked[k]);
      ListedWait(links, waiting, linked, i, j);
    }
  }

  lemma {:induction false} WaitingListed(links: Links, waiting: Waiting, linked: seq<NodeId>, d: NodeId)
    requires linked != [] && ChildrenListed(waiting, linked, |linked|)
    requires d < |links| && WaitsFor(links, waiting, linked[0], d)
    ensures d in linked
  {
    if d != linked[0] {
      var p := links[d].parent.value;
      WaitingListed(links, waiting, linked, p);
      var j :| 0 <= j < |linked| && linked[j] == p;
    }
  }

  /** A complete list holds exactly the node and what waits for it. */
  lemma LinkedExactly(links: Links, waiting: Waiting, linked: seq<NodeId>)
    requires linked != [] && linked[0] < |links| && ParentsFirst(links, waiting, linked, |linked|)
    requires ChildrenListed(waiting, linked, |linked|)
    ensures forall d :: 0 <= d < |links| ==> (d in linked <==> WaitsFor(links, waiting, linked[0], d))
  {
    forall d | 0 <= d < |links|
      ensures d in linked <==> WaitsFor(links, waiting, linked[0], d)
    {
      if d in linked {
        var k :| 0 <= k < |linked| && linked[k] == d;
        ListedWait(links, waiting, linked, |linked|, k);
      }
      if WaitsFor(links, waiting, linked[0], d) {
        WaitingListed(links, waiting, linked, d);
      }
    }
  }

  lemma {:induction false} DistinctCount(s: seq<NodeId>, ix: set<NodeId>)
    requires Distinct(s) && forall k :: 0 <= k < |s| ==> s[k] in ix
    ensures |s| <= |ix|
  {
    if s != [] {
      var k := |s| - 1;
      DistinctCount(s[..k], ix - {s[k]});
    }
  }

  /** Listing the waiting children of the next block keeps the list in order,
      without duplicates, and one block closer to complete. */
  lemma ListChildren(links: Links, ix: set<NodeId>, waiting: Waiting, linked: seq<NodeId>, i: nat)
    requires Tree(links) && WaitingOk(links, ix, waiting) && i < |linked|
    requires Distinct(linked) && linked[0] < |links| && forall k :: 0 <= k < |linked| ==> linked[k] in ix
    requires ParentsFirst(links, waiting, linked, i) && ChildrenListed(waiting, linked, i)
    ensures var more := if linked[i] in waiting then linked + waiting[linked[i]] else linked;
            && Distinct(more) && (forall k :: 0 <= k < |more| ==> more[k] in ix)
            && ParentsFirst(links, waiting, more, i + 1) && ChildrenListed(waiting, more, i + 1)
  {
    hide WaitsFor, Tree, Distinct, ParentsFirst, ChildrenListed;
    var p := linked[i];
    if p in waiting {
      NewDistinct(links, ix, waiting, linked, i);
      NewParentsFirst(links, ix, waiting, linked, i);
      NewListed(waiting, linked, i);
      assert forall k :: 0 <= k < |waiting[p]| ==> waiting[p][k] in waiting[p];
    } else {
      MoreParents(links, waiting, linked, i);
      assert ChildrenListed(waiting, linked, i + 1) by { NoneListed(waiting, linked, i); }
    }
  }

  lemma NewListed(waiting: Waiting, linked: seq<NodeId>, i: nat)
    requires i < |linked| && linked[i] in waiting && ChildrenListed(waiting, linked, i)
    ensures ChildrenListed(waiting, linked + waiting[linked[i]], i + 1)
  {
    var more := linked + waiting[linked[i]];
    forall j | 0 <= j < i + 1 && more[j] in waiting
      ensures forall c :: c in waiting[more[j]] ==> c in more
    {
      assert more[j] == linked[j];
    }
  }

  lemma NoneListed(waiting: Waiting, linked: seq<NodeId>, i: nat)
    requires i < |linked| && linked[i] !in waiting && ChildrenListed(waiting, linked, i)
    ensures ChildrenListed(waiting, linked, i + 1)
  {}

  lemma MoreParents(links: Links, waiting: Waiting, linked: seq<NodeId>, i: nat)
    requires ParentsFirst(links, waiting, linked, i)
    ensures ParentsFirst(links, waiting, linked, i + 1)
  {
    var next := i + 1;
    forall k | 0 < k < |linked|
      ensures ParentListed(links, waiting, linked, next, k)
    {
      assert ParentListed(links, waiting, linked, i, k);
      var j :| 0 <= j < k && j < i && WaitedOn(links, waiting, linked[j], linked[k]);
    }
  }

  lemma NewParentsFirst(links: Links, ix: set<NodeId>, waiting: Waiting, linked: seq<NodeId>, i: nat)
    requires Tree(links) && WaitingOk(links, ix, waiting) && i < |linked| && linked[i] in waiting
    requires ParentsFirst(links, waiting, linked, i)
    ensures ParentsFirst(links, waiting, linked + waiting[linked[i]], i + 1)
  {
    hide Tree, Distinct;
    var p := linked[i];
    var more := linked + waiting[p];
    var next := i + 1;
    forall k | 0 < k < |more|
      ensures ParentListed(links, waiting, more, next, k)
    {
      if k < |linked| {
        assert ParentListed(links, waiting, linked, i, k);
        var j :| 0 <= j < k && j < i && WaitedOn(links, waiting, linked[j], linked[k]);
        assert WaitedOn(links, waiting, more[j], more[k]);
      } else {
        var c := waiting[p][k - |linked|];
        assert c in waiting[p];
        ChildAbove(links, c);
        assert WaitedOn(links, waiting, more[i], more[k]);
      }
    }
  }

  lemma ChildAbove(links: Links, c: NodeId)
    requires Tree(links) && c < |links| && links[c].parent.Some?
    ensures links[c].parent.value < c
  {
    assert WellLinked(links, c);
  }

  lemma NewDistinct(links: Links, ix: set<NodeId>, waiting: Waiting, linked: seq<NodeId>, i: nat)
    requires Tree(links) && WaitingOk(links, ix, waiting) && i < |linked| && linked[i] in waiting
    requires Distinct(linked) && linked[0] < |links| && ParentsFirst(links, waiting, linked, i)
    ensures Distinct(linked + waiting[linked[i]])
  {
    hide Tree;
    var p := linked[i];
    var more := linked + waiting[p];
    forall k, m | 0 <= k < |linked| <= m < |more|
      ensures more[k] != more[m]
    {
      var c := waiting[p][m - |linked|];
      assert c in waiting[p] && more[m] == c && links[c].parent == Some(p);
      if k == 0 {
        ListedWait(links, waiting, linked, i, i);
        WaitsForBelow(links, waiting, linked[0], p);
        ChildAbove(links, c);
      } else {
        assert ParentListed(links, waiting, linked, i, k);
        var j :| 0 <= j < k && j < i && WaitedOn(links, waiting, linked[j], linked[k]);
      }
    }
  }

  // ------------------------------------------------------------------
  // What linking must do.

  /** The list holds exactly the node and all that waits for it, each once,
      parents before children. */
  ghost predicate LinkedList(links: Links, waiting: Waiting, node: NodeId, linked: seq<NodeId>)
  {
    && linked != [] && linked[0] == node
    && Distinct(linked)
    && ParentsFirst(links, waiting, linked, |linked|)
    && forall d :: 0 <= d < |links| ==> (d in linked <==> WaitsFor(links, waiting, node, d))
  }

  /** Each listed block is fully linked and carries the next received-order id,
      counted modulo 2^32; every other block is as it was. */
  ghost predicate LinkedStates(was: States, linked: seq<NodeId>, start: nat, now: States)
  {
    && |now| == |was|
    && (forall k :: 0 <= k < |linked| ==>
          linked[k] < |was| &&
          now[linked[k]] == was[linked[k]].(isFullyLinked := true, receivedOrderId := (start + k) % U32))
    && forall n :: 0 <= n < |was| && n !in linked ==> now[n] == was[n]
  }

  lemma LinkOne(was: States, linked: seq<NodeId>, i: nat, start: nat, now: States)
    requires i < |linked| && Distinct(linked) && linked[i] < |was| && LinkedStates(was, linked[..i], start, now)
    ensures LinkedStates(was, linked[..i + 1], start,
                         now[linked[i] := now[linked[i]].(isFullyLinked := true, receivedOrderId := (start + i) % U32)])
  {
    var n := linked[i];
    assert n !in linked[..i];
    var next := now[n := now[n].(isFullyLinked := true, receivedOrderId := (start + i) % U32)];
    assert linked[..i + 1] == linked[..i] + [n];
    forall k | 0 <= k < i + 1
      ensures linked[k] < |was|
      ensures next[linked[k]] == was[linked[k]].(isFullyLinked := true, receivedOrderId := (start + k) % U32)
    {
      if k < i {
        assert linked[..i][k] == linked[k];
      }
    }
  }

  /** While the counter does not wrap, later blocks get larger ids. */
  lemma OrderIdsIncrease(was: States, linked: seq<NodeId>, start: nat, now: States, j: nat, k: nat)
    requires LinkedStates(was, linked, start, now) && j < k < |linked| && start + |linked| <= U32
    ensures linked[j] < |now| && linked[k] < |now|
    ensures now[linked[j]].receivedOrderId < now[linked[k]].receivedOrderId
  {}

  /** What stays waiting still waits under its own parent. */
  lemma RestWaits(links: Links, ix: set<NodeId>, waiting: Waiting, linked: set<NodeId>)
    requires WaitingOk(links, ix, waiting)
    ensures WaitingOk(links, ix, waiting - linked)
  {}

  /** A block appended to its parent's list, when it is not there yet. */
  lemma WaitMore(links: Links, ix: set<NodeId>, waiting: Waiting, p: NodeId, c: NodeId)
    requires WaitingOk(links, ix, waiting) && p in ix && c in ix && c < |links| && links[c].parent == Some(p)
    requires p in waiting ==> c !in waiting[p]
    ensures WaitingOk(links, ix, waiting[p := (if p in waiting then waiting[p] else []) + [c]])
  {}

  /** The candidates gained: the listed blocks with at least the tip's work. */
  ghost function Gained(links: Links, linked: seq<NodeId>, tipWork: nat): set<NodeId>
  {
    set n | n in linked && n < |links| && links[n].workSum >= tipWork
  }

  lemma {:induction false} LinkedNotFlagged(links: Links, states: States, waiting: Waiting, node: NodeId, d: NodeId)
    requires |links| == |states| && WaitingQuiet(states, waiting) && d < |links| && WaitsFor(links, waiting, node, d)
    requires node < |links| && !states[node].status.invalidAncestor
    ensures !states[d].status.invalidAncestor
  {}

  /** Linking changes no status, and makes candidates only of blocks that are
      not flagged. */
  lemma LinkedKeepsFlags(links: Links, ix: set<NodeId>, was: States, now: States, waiting: Waiting,
                         candidates: set<NodeId>, node: NodeId, linked: seq<NodeId>, start: nat, tipWork: nat)
    requires |links| == |was| && Indexed(links, ix) && node in ix && !was[node].status.invalidAncestor
    requires forall k :: 0 <= k < |linked| ==> linked[k] in ix
    requires LinkedList(links, waiting, node, linked) && LinkedStates(was, linked, start, now)
    requires FlaggedQuiet(was, ix, candidates, waiting.Keys) && WaitingQuiet(was, waiting)
    requires candidates <= ix
    ensures |now| == |links|
    ensures FlaggedQuiet(now, ix, candidates + Gained(links, linked, tipWork), (waiting - Members(linked)).Keys)
    ensures WaitingQuiet(now, waiting - Members(linked))
    ensures candidates + Gained(links, linked, tipWork) <= ix
  {
    hide WaitsFor, ParentsFirst, Distinct;
    forall n | 0 <= n < |was|
      ensures now[n].status == was[n].status
    {
      if n in linked {
        var k :| 0 <= k < |linked| && linked[k] == n;
      }
    }
    forall n | n in linked
      ensures n in ix && n < |was| && !was[n].status.invalidAncestor
    {
      var k :| 0 <= k < |linked| && linked[k] == n;
      LinkedNotFlagged(links, was, waiting, node, n);
    }
  }

  // ------------------------------------------------------------------
  // The outcome of accepting a block's data.

  /** What linking changes. */
  datatype LinkBooks = LinkBooks(states: States, candidates: set<NodeId>, waiting: Waiting, nextId: nat)

  /** The block and all that waited for it are linked: parents first, ids in
      order, no linked block left as one waited for, and exactly those with the
      tip's work or more gained as candidates. */
  ghost predicate LinkOutcome(links: Links, was: LinkBooks, node: NodeId, tipWork: nat, linked: seq<NodeId>,
                              now: LinkBooks)
  {
    && LinkedList(links, was.waiting, node, linked)
    && LinkedStates(was.states, linked, was.nextId, now.states)
    && now.nextId == (was.nextId + |linked|) % U32
    && now.waiting == was.waiting - Members(linked)
    && now.candidates == was.candidates + Gained(links, linked, tipWork)
  }

  /** The block joins its parent's waiting children, unless the parent is known
      to be invalid. */
  ghost function WaitOutcome(was: LinkBooks, parent: NodeId, node: NodeId): LinkBooks
    requires parent < |was.states|
  {
    if was.states[parent].status.KnownInvalid() then was
    else was.(waiting := was.waiting[parent := (if parent in was.waiting then was.waiting[parent] else []) + [node]])
  }

  /** The part of the index's invariant that every operation keeps, of statuses,
      candidates and waiting blocks: flagged blocks are quiet, and each waiting
      block is listed once, under a parent that is not known to be invalid. */
  ghost predicate BooksQuiet(links: Links, ix: set<NodeId>, b: LinkBooks)
    requires |links| == |b.states| && forall n :: n in ix ==> n < |links|
  {
    && FlaggedQuiet(b.states, ix, b.candidates, b.waiting.Keys)
    && b.candidates <= ix
    && WaitingOk(links, ix, b.waiting)
    && WaitingQuiet(b.states, b.waiting)
  }

  lemma LinkOutcomeOk(links: Links, ix: set<NodeId>, was: LinkBooks, node: NodeId, tipWork: nat, linked: seq<NodeId>,
                      now: LinkBooks)
    requires |links| == |was.states| && Indexed(links, ix) && BooksQuiet(links, ix, was) && node in ix
    requires !was.states[node].status.invalidAncestor && LinkOutcome(links, was, node, tipWork, linked, now)
    requires forall k :: 0 <= k < |linked| ==> linked[k] in ix
    ensures |now.states| == |links| && BooksQuiet(links, ix, now)
  {
    hide Indexed, FlaggedQuiet, WaitingOk, WaitingQuiet, LinkedList, LinkedStates, Members, Gained;
    LinkedKeepsFlags(links, ix, was.states, now.states, was.waiting, was.candidates, node, linked, was.nextId, tipWork);
    RestWaits(links, ix, was.waiting, Members(linked));
  }

  /** Flags are closed or not by the statuses alone. */
  lemma SameClosed(links: Links, ix: set<NodeId>, was: States, now: States)
    requires |links| == |was| == |now| && Indexed(links, ix)
    requires forall n :: 0 <= n < |was| ==> now[n].status == was[n].status
    ensures FlagsClosed(links, now, ix) <==> FlagsClosed(links, was, ix)
  {}

  lemma SameStatuses(was: States, linked: seq<NodeId>, start: nat, now: States)
    requires LinkedStates(was, linked, start, now)
    ensures |now| == |was| && forall n :: 0 <= n < |was| ==> now[n].status == was[n].status
  {
    forall n | 0 <= n < |was|
      ensures now[n].status == was[n].status
    {
      if n in linked {
        var k :| 0 <= k < |linked| && linked[k] == n;
      }
    }
  }

  /** A flagged block is never waited for, so it is linked alone. */
  lemma FlaggedLinkedAlone(links: Links, ix: set<NodeId>, was: LinkBooks, node: NodeId, linked: seq<NodeId>)
    requires |links| == |was.states| && Indexed(links, ix) && BooksQuiet(links, ix, was) && node in ix
    requires was.states[node].status.invalidAncestor && LinkedList(links, was.waiting, node, linked)
    ensures forall d :: 0 <= d < |links| ==> (d in linked <==> d == node)
    ensures node in linked
  {
    hide BooksQuiet, Indexed, WaitingOk, WaitingQuiet;
    NotWaitedFor(links, ix, was, node);
    forall d | 0 <= d < |links|
      ensures d in linked <==> d == node
    {
      if WaitsFor(links, was.waiting, node, d) && d != node {
        WaiterKey(links, was.waiting, node, d);
      }
    }
    assert 0 <= node < |links|;
  }

  lemma NotWaitedFor(links: Links, ix: set<NodeId>, was: LinkBooks, node: NodeId)
    requires |links| == |was.states| && Indexed(links, ix) && BooksQuiet(links, ix, was) && node in ix
    requires was.states[node].status.invalidAncestor
    ensures node < |links| && node !in was.waiting
  {}

  lemma {:induction false} WaiterKey(links: Links, waiting: Waiting, node: NodeId, d: NodeId)
    requires d < |links| && WaitsFor(links, waiting, node, d) && d != node
    ensures node in waiting
  {
    if links[d].parent.value != node {
      WaiterKey(links, waiting, node, links[d].parent.value);
    }
  }

  /** Linking keeps the books in order exactly when the block is not flagged, or
      is too light to become a candidate. */
  lemma LinkOutcomeExactly(links: Links, ix: set<NodeId>, was: LinkBooks, node: NodeId, tipWork: nat,
                           linked: seq<NodeId>, now: LinkBooks)
    requires |links| == |was.states| && Indexed(links, ix) && BooksQuiet(links, ix, was) && node in ix
    requires LinkOutcome(links, was, node, tipWork, linked, now)
    requires forall k :: 0 <= k < |linked| ==> linked[k] in ix
    ensures |now.states| == |links| && (FlagsClosed(links, now.states, ix) <==> FlagsClosed(links, was.states, ix))
    ensures BooksQuiet(links, ix, now) <==> !was.states[node].status.invalidAncestor || links[node].workSum < tipWork
  {
    hide Indexed, FlagsClosed, WaitingOk, WaitingQuiet, LinkedList, LinkedStates, Members;
    SameStatuses(was.states, linked, was.nextId, now.states);
    SameClosed(links, ix, was.states, now.states);
    IndexBound(links, ix, node);
    if !was.states[node].status.invalidAncestor {
      LinkOutcomeOk(links, ix, was, node, tipWork, linked, now);
    } else {
      FlaggedLinkedAlone(links, ix, was, node, linked);
      if links[node].workSum < tipWork {
        assert now.candidates == was.candidates;
        RestWaits(links, ix, was.waiting, Members(linked));
        SameFlags(links, ix, was.states, now.states, was.candidates, was.waiting, Members(linked));
      } else {
        assert node in now.candidates;
      }
    }
  }

  lemma SameFlags(links: Links, ix: set<NodeId>, was: States, now: States, candidates: set<NodeId>, waiting: Waiting,
                  gone: set<NodeId>)
    requires |links| == |was| == |now| && Indexed(links, ix)
    requires forall n :: 0 <= n < |was| ==> now[n].status == was[n].status
    requires FlaggedQuiet(was, ix, candidates, waiting.Keys) && WaitingQuiet(was, waiting)
    ensures FlaggedQuiet(now, ix, candidates, (waiting - gone).Keys) && WaitingQuiet(now, waiting - gone)
  {}

  /** A list of waiting children with one more is quiet exactly when the one is
      not flagged. */
  lemma WaitQuietExactly(states: States, waiting: Waiting, p: NodeId, c: NodeId)
    requires WaitingQuiet(states, waiting) && p < |states| && c < |states| && !states[p].status.KnownInvalid()
    ensures WaitingQuiet(states, waiting[p := (if p in waiting then waiting[p] else []) + [c]]) <==>
              !states[c].status.invalidAncestor
  {
    var more := waiting[p := (if p in waiting then waiting[p] else []) + [c]];
    assert more[p][|more[p]| - 1] == c;
    assert c in more[p];
  }

  lemma WaitFlags(states: States, ix: set<NodeId>, candidates: set<NodeId>, waitedFor: set<NodeId>, p: NodeId)
    requires (forall n :: n in ix ==> n < |states|) && FlaggedQuiet(states, ix, candidates, waitedFor)
    requires p in ix && !states[p].status.KnownInvalid()
    ensures FlaggedQuiet(states, ix, candidates, waitedFor + {p})
  {}

  /** Waiting keeps them in order exactly when the block is not flagged, or does
      not wait because its parent is known to be invalid. */
  lemma WaitOutcomeOk(links: Links, ix: set<NodeId>, was: LinkBooks, parent: NodeId, node: NodeId)
    requires |links| == |was.states| && Indexed(links, ix) && BooksQuiet(links, ix, was) && node in ix
    requires links[node].parent == Some(parent)
    requires parent in was.waiting ==> node !in was.waiting[parent]
    ensures parent in ix
    ensures BooksQuiet(links, ix, WaitOutcome(was, parent, node)) <==>
              !was.states[node].status.invalidAncestor || was.states[parent].status.KnownInvalid()
  {
    hide Indexed, FlaggedQuiet, WaitingOk, WaitingQuiet;
    IndexBound(links, ix, node);
    if !was.states[parent].status.KnownInvalid() {
      WaitMore(links, ix, was.waiting, parent, node);
      WaitQuietExactly(was.states, was.waiting, parent, node);
      WaitFlags(was.states, ix, was.candidates, was.waiting.Keys, parent);
      assert WaitOutcome(was, parent, node).waiting.Keys == was.waiting.Keys + {parent};
    }
  }

  // ------------------------------------------------------------------
  // Linked blocks have their ancestors' data.

  ghost predicate WaitersHaveData(states: States, waiting: Waiting)
  {
    forall p :: p in waiting ==> forall c :: c in waiting[p] ==> c < |states| && states[c].status.dataStored
  }

  /** The parent of a linked block is linked and has its data, and every waiting
      block has its data. */
  ghost predicate LinkageOk(links: Links, ix: set<NodeId>, states: States, waiting: Waiting)
    requires |links| == |states| && Indexed(links, ix)
  {
    && (forall n :: n in ix && states[n].isFullyLinked && links[n].parent.Some? ==>
          states[links[n].parent.value].isFullyLinked && states[links[n].parent.value].status.dataStored)
    && WaitersHaveData(states, waiting)
  }

  /** Every proper ancestor of a linked block is linked and has its data. */
  lemma {:induction false} LinkedAncestors(links: Links, ix: set<NodeId>, states: States, waiting: Waiting,
                                          a: NodeId, d: NodeId)
    requires |links| == |states| && Indexed(links, ix) && LinkageOk(links, ix, states, waiting)
    requires d in ix && states[d].isFullyLinked && Descends(links, a, d) && a != d
    ensures a < |states| && states[a].isFullyLinked && states[a].status.dataStored
    decreases d
  {
    var p := links[d].parent.value;
    if p != a {
      LinkedAncestors(links, ix, states, waiting, a, p);
    }
  }

  /** A block that is linked was the first of the list or waited, with its data,
      for one that is linked too. */
  lemma LinkedParent(links: Links, waiting: Waiting, node: NodeId, linked: seq<NodeId>, n: NodeId)
    requires LinkedList(links, waiting, node, linked) && n in linked && n < |links| && n != node
    ensures links[n].parent.Some? && links[n].parent.value in linked
    ensures links[n].parent.value in waiting && n in waiting[links[n].parent.value]
  {
    hide Distinct, ParentsFirst;
    assert WaitsFor(links, waiting, node, n);
  }

  lemma LinkedData(links: Links, was: LinkBooks, node: NodeId, linked: seq<NodeId>, n: NodeId, ix: set<NodeId>)
    requires |links| == |was.states| && Indexed(links, ix) && LinkageOk(links, ix, was.states, was.waiting)
    requires LinkedList(links, was.waiting, node, linked) && n in linked && n in ix && node in ix
    requires was.states[node].status.dataStored
    ensures was.states[n].status.dataStored
  {
    hide LinkedList;
    if n != node {
      LinkedParent(links, was.waiting, node, linked, n);
    }
  }

  lemma LinkedNow(was: States, linked: seq<NodeId>, start: nat, now: States)
    requires LinkedStates(was, linked, start, now)
    ensures |now| == |was|
    ensures forall n :: 0 <= n < |was| ==>
              now[n].status == was[n].status && (now[n].isFullyLinked <==> was[n].isFullyLinked || n in linked)
  {
    forall n | 0 <= n < |was|
      ensures now[n].status == was[n].status && (now[n].isFullyLinked <==> was[n].isFullyLinked || n in linked)
    {
      if n in linked {
        var k :| 0 <= k < |linked| && linked[k] == n;
      }
    }
  }

  /** Linking a block that has its data, on a linked parent that has its own,
      keeps it so. */
  lemma LinkKeepsLinkage(links: Links, ix: set<NodeId>, was: LinkBooks, node: NodeId, tipWork: nat, linked: seq<NodeId>,
                         now: LinkBooks)
    requires |links| == |was.states| && Indexed(links, ix) && LinkageOk(links, ix, was.states, was.waiting)
    requires node in ix && was.states[node].status.dataStored && links[node].parent.Some?
    requires was.states[links[node].parent.value].isFullyLinked
    requires was.states[links[node].parent.value].status.dataStored
    requires LinkOutcome(links, was, node, tipWork, linked, now)
    requires forall k :: 0 <= k < |linked| ==> linked[k] in ix
    ensures |now.states| == |links| && LinkageOk(links, ix, now.states, now.waiting)
    ensures forall n :: n in linked ==> n < |links| && now.states[n].isFullyLinked && now.states[n].status.dataStored
  {
    hide LinkedList, LinkedStates, Gained;
    LinkedNow(was.states, linked, was.nextId, now.states);
    forall n | n in ix && now.states[n].isFullyLinked && links[n].parent.Some?
      ensures now.states[links[n].parent.value].isFullyLinked && now.states[links[n].parent.value].status.dataStored
    {
      if n in linked && n != node {
        LinkedParent(links, was.waiting, node, linked, n);
        LinkedData(links, was, node, linked, links[n].parent.value, ix);
      }
    }
    assert WaitersHaveData(now.states, now.waiting) by {
      FewerWaiters(was.states, now.states, was.waiting, now.waiting);
    }
    forall n | n in linked
      ensures n < |links| && now.states[n].isFullyLinked && now.states[n].status.dataStored
    {
      LinkedData(links, was, node, linked, n, ix);
    }
  }

  lemma FewerWaiters(was: States, now: States, waiting: Waiting, fewer: Waiting)
    requires WaitersHaveData(was, waiting) && |now| == |was|
    requires forall n :: 0 <= n < |was| && was[n].status.dataStored ==> now[n].status.dataStored
    requires forall p :: p in fewer ==> p in waiting && fewer[p] == waiting[p]
    ensures WaitersHaveData(now, fewer)
  {}

  lemma WaitKeepsLinkage(links: Links, ix: set<NodeId>, was: LinkBooks, parent: NodeId, node: NodeId)
    requires |links| == |was.states| && Indexed(links, ix) && LinkageOk(links, ix, was.states, was.waiting)
    requires parent < |links| && node in ix && was.states[node].status.dataStored
    ensures var now := WaitOutcome(was, parent, node); LinkageOk(links, ix, now.states, now.waiting)
  {}

  // ------------------------------------------------------------------
  // Candidates known to be invalid.

  ghost predicate CandidatesValid(states: States, candidates: set<NodeId>)
  {
    forall n :: n in candidates ==> n < |states| && !states[n].status.KnownInvalid()
  }

  /** A block known to be invalid that is the node, or waits in turn for it, and
      is heavy enough to become a candidate once that is linked. */
  ghost predicate InvalidWaiter(links: Links, was: LinkBooks, node: NodeId, tipWork: nat, d: NodeId)
  {
    && d < |links| == |was.states| && WaitsFor(links, was.waiting, node, d)
    && links[d].workSum >= tipWork && was.states[d].status.KnownInvalid()
  }

  /** Below a node that is not flagged such a block was itself marked failed. */
  lemma InvalidWaiterFailed(links: Links, was: LinkBooks, node: NodeId, tipWork: nat, d: NodeId)
    requires |links| == |was.states| && node < |links| && WaitingQuiet(was.states, was.waiting)
    requires !was.states[node].status.invalidAncestor && InvalidWaiter(links, was, node, tipWork, d)
    ensures was.states[d].status.validateFailed
  {
    LinkedNotFlagged(links, was.states, was.waiting, node, d);
  }

  /** Linking makes a candidate of a block known to be invalid exactly when one
      was waiting with enough work. */
  lemma CandidatesStayValid(links: Links, was: LinkBooks, node: NodeId, tipWork: nat, linked: seq<NodeId>,
                            now: LinkBooks)
    requires |links| == |was.states| && LinkOutcome(links, was, node, tipWork, linked, now)
    requires CandidatesValid(was.states, was.candidates)
    ensures CandidatesValid(now.states, now.candidates) <==>
              forall d: NodeId :: !InvalidWaiter(links, was, node, tipWork, d)
  {
    hide LinkedStates, WaitsFor, Distinct, ParentsFirst;
    SameStatuses(was.states, linked, was.nextId, now.states);
    forall d: NodeId | d < |links|
      ensures d in Gained(links, linked, tipWork) <==>
                WaitsFor(links, was.waiting, node, d) && links[d].workSum >= tipWork
    {}
    forall d: NodeId | CandidatesValid(now.states, now.candidates)
      ensures !InvalidWaiter(links, was, node, tipWork, d)
    {
      assert d in Gained(links, linked, tipWork) ==> d in now.candidates;
    }
    if !CandidatesValid(now.states, now.candidates) {
      var n :| n in now.candidates && !(n < |now.states| && !now.states[n].status.KnownInvalid());
      assert n in Gained(links, linked, tipWork);
      assert InvalidWaiter(links, was, node, tipWork, n);
    }
  }

  lemma IndexBound(links: Links, ix: set<NodeId>, node: NodeId)
    requires Indexed(links, ix) && node in ix
    ensures node < |links| && (links[node].parent.Some? ==> links[node].parent.value in ix)
    ensures forall n :: n in ix ==> n < |links|
  {}

  /** Linking changes no status, so the best headers stay. */
  lemma SameHeaders(links: Links, was: States, now: States, ix: set<NodeId>, linked: seq<NodeId>, start: nat,
                    header: Option<NodeId>, invalid: Option<NodeId>)
    requires |links| == |was| && (forall n :: n in ix ==> n < |links|) && LinkedStates(was, linked, start, now)
    requires BestHeader(links, was, ix, header) && BestInvalid(links, was, ix, invalid)
    ensures |now| == |links| && BestHeader(links, now, ix, header) && BestInvalid(links, now, ix, invalid)
  {
    forall n | 0 <= n < |was|
      ensures now[n].status == was[n].status
    {
      if n in linked {
        var k :| 0 <= k < |linked| && linked[k] == n;
      }
    }
  }
}
