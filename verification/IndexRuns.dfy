/** Runs of the block index in which a property one might expect of it fails: a
    failed block is chosen as the best candidate, a leaf is not visited, and a
    child of a failed block is not flagged. */
module IndexRuns {
  import opened NodeStores
  import opened Work
  import opened BlockTree
  import opened ChainTips
  import opened Linking
  import opened BlockIndexes
  import opened Options
  import opened Sequences

  /** Every part of the invariant holds. */
  ghost predicate InOrder(index: BlockIndex, store: NodeStore)
    reads index, store
  {
    index.IndexOk(store) && index.TipsOk(store) && index.FlagsOk(store) && index.HeadersOk(store)
  }

  lemma OrderedParts(index: BlockIndex, store: NodeStore)
    requires InOrder(index, store)
    ensures index.IndexOk(store) && index.TipsHeld(store) && index.QuietOk(store) && index.HeadersIn()
    ensures Tree(store.links) && |store.links| == |store.states| && Indexed(store.links, index.Ids())
    ensures forall n :: n in index.Ids() ==> n < |store.links|
    ensures CacheCovers(store.links, Leaves(store.links, index.Ids()), index.cachedTips, index.cachedTipsStart)
    ensures index.HeadersOk(store) && BestHeader(store.links, store.states, index.Ids(), index.bestHeader)
  {
    hide BlockIndex.TipsHeld, BlockIndex.QuietOk, BlockIndex.HeadersIn, Tree, BestHeader, CacheCovers;
  }

  // ------------------------------------------------------------------
  // A block that fails while it waits.

  lemma {:induction false} OnlyWaiter(links: Links, waiting: Waiting, first: NodeId, second: NodeId, d: NodeId)
    requires first in waiting && waiting[first] == [second] && second !in waiting
    requires d < |links| && WaitsFor(links, waiting, first, d)
    ensures d == first || d == second
  {
    if d != first {
      OnlyWaiter(links, waiting, first, second, links[d].parent.value);
    }
  }

  /** A node that is not indexed is in no list of waiting children. */
  lemma NotListed(index: BlockIndex, store: NodeStore, n: NodeId)
    requires index.IndexOk(store) && index.QuietOk(store) && n >= |store.links|
    ensures n !in index.Ids() && n !in index.unlinkedChildrenOf
    ensures forall p :: p in index.unlinkedChildrenOf ==> n !in index.unlinkedChildrenOf[p]
  {
    hide FlaggedQuiet, Tree;
  }

  lemma IndexParts(index: BlockIndex, store: NodeStore)
    requires index.IndexOk(store)
    ensures Tree(store.links) && |store.links| == |store.states| && Indexed(store.links, index.Ids())
    ensures forall n :: n in index.Ids() ==> n < |store.links|
  {
    hide Tree;
  }

  lemma MarkedLater(links: Links, b: Books, ix: set<NodeId>, node: NodeId, visited: set<NodeId>, n: NodeId)
    requires |links| == |b.states| && Indexed(links, ix) && node in ix && n < node
    ensures var reached := Reached(links, ix, node, visited);
            var after := MarkedSoFar(b, node, reached);
            && n !in reached && after.states[n] == b.states[n]
            && (n in b.waiting ==> n in after.waiting)
            && (forall p :: p in after.waiting ==> p in b.waiting && after.waiting[p] == b.waiting[p])
            && node !in after.waiting
            && after.states[node].status.validateFailed
            && after.candidates <= b.candidates
  {
    if Descends(links, node, n) {
      DescendsUp(links, n, node);
    }
  }

  /** Two headers in a row on a block that can be validated. */
  ghost predicate TwoOn(index: BlockIndex, store: NodeStore, tip: NodeId, first: NodeId, second: NodeId)
    requires index.IndexOk(store)
    reads index, store
  {
    && {tip, first, second} <= index.Ids() && tip < first < second < |store.links|
    && store.links[first].parent == Some(tip) && store.links[second].parent == Some(first)
    && index.CanValidate(store, tip)
    && !store.states[first].isFullyLinked && !store.states[first].status.KnownInvalid()
    && forall p :: p in index.unlinkedChildrenOf ==> first !in index.unlinkedChildrenOf[p]
  }

  method AddTwo(index: BlockIndex, store: NodeStore, tip: NodeId, bits: Bits, hashes: (Hash, Hash))
    returns (first: NodeId, second: NodeId)
    requires index.IndexOk(store) && index.TipsHeld(store) && index.QuietOk(store) && index.HeadersIn()
    requires tip in index.Ids() && index.CanValidate(store, tip) && !store.states[tip].status.KnownInvalid()
    requires hashes.0 !in index.byHash && hashes.1 !in index.byHash && hashes.0 != hashes.1
    modifies store, index`byHash, index`totalTips, index`cachedTips, index`chainTips, index`bestHeader, index`modified
    ensures index.IndexOk(store) && index.TipsHeld(store) && index.QuietOk(store) && index.HeadersIn()
    ensures TwoOn(index, store, tip, first, second) && old(store.links) <= store.links
    ensures store.links[first].bits == bits && store.links[second].bits == bits
    ensures first !in index.unlinkedChildrenOf && first == |old(store.links)| == |old(store.states)|
    ensures second == first + 1 && |store.links| == second + 1
    ensures store.states == old(store.states) + [NodeState(NONE, false, 0), NodeState(NONE, false, 0)]
  {
    hide BlockIndex.IndexOk, BlockIndex.TipsHeld, BlockIndex.QuietOk, BlockIndex.HeadersIn, BlockIndex.Ids;
    hide BlockIndex.TipsOk, BlockIndex.FlagsOk, BlockIndex.HeadersOk;
    IndexParts(index, store);
    NotListed(index, store, |store.links|);
    first := index.AddHeader(store, bits, hashes.0, tip);
    second := index.AddHeader(store, bits, hashes.1, first);
  }

  /** The second block's data arrives and it waits. */
  method WaitForFirst(index: BlockIndex, store: NodeStore, tip: NodeId, first: NodeId, second: NodeId)
    requires index.IndexOk(store) && index.TipsHeld(store) && index.QuietOk(store)
    requires TwoOn(index, store, tip, first, second) && index.nextReceivedOrderId < U32
    requires first !in index.unlinkedChildrenOf && store.states[second].status == NONE
    modifies store`states, index`candidates, index`unlinkedChildrenOf, index`modified, index`nextReceivedOrderId
    ensures index.IndexOk(store) && index.TipsHeld(store) && index.QuietOk(store)
    ensures TwoOn(index, store, tip, first, second)
    ensures first in index.unlinkedChildrenOf && index.unlinkedChildrenOf[first] == [second]
    ensures index.nextReceivedOrderId < U32 && index.candidates == old(index.candidates)
  {
    hide BlockIndex.IndexOk, BlockIndex.QuietOk, BlockIndex.FlagsOk, BlockIndex.HeadersOk, BlockIndex.CandidatesOk;
    hide TipsAre, CacheHolds, Leaves, FlagsClosed, LinkOutcome, InvalidWaiter, DataBelow, BlockIndex.LinkedOk;
    IndexParts(index, store);
    index.SetDataStored(store, second);
    var none := index.AcceptBlockData(store, second, tip);
  }

  /** Then it is marked failed. It stays in its parent's list of waiting children. */
  method FailWaiting(index: BlockIndex, store: NodeStore, tip: NodeId, first: NodeId, second: NodeId)
    requires index.IndexOk(store) && index.TipsHeld(store) && index.QuietOk(store) && index.HeadersIn()
    requires TwoOn(index, store, tip, first, second) && first in index.unlinkedChildrenOf
    modifies store`states, index`candidates, index`unlinkedChildrenOf, index`modified, index`bestInvalid
    modifies index`bestHeader
    ensures index.IndexOk(store) && index.QuietOk(store)
    ensures TwoOn(index, store, tip, first, second) && store.states[second].status.validateFailed
    ensures first in index.unlinkedChildrenOf && index.unlinkedChildrenOf[first] == old(index.unlinkedChildrenOf)[first]
    ensures second !in index.unlinkedChildrenOf && index.candidates <= old(index.candidates)
  {
    hide BlockIndex.IndexOk, BlockIndex.QuietOk, BlockIndex.FlagsOk, BlockIndex.HeadersOk, BlockIndex.CandidatesOk;
    hide BlockIndex.TipsHeld, BlockIndex.TipsOk, BlockIndex.HeadersIn, VisitedAbove, Leaves;
    hide Marked, MarkedSoFar, Below, Reached, AllReached, HeaderKept;
    ghost var links, ix, b := store.links, index.Ids(), index.View(store);
    IndexParts(index, store);
    ghost var visited := index.VisitedFrom(store, second);
    MarkedLater(links, b, ix, second, visited, first);
    MarkedLater(links, b, ix, second, visited, tip);
    index.MarkBlockFailedValidation(store, second);
  }

  /** Then the first block's data arrives, and the failed block is linked with
      it. When it has the tip's work or more it becomes a candidate, and the best
      one unless some other has as much. */
  method FailedWhileWaiting(index: BlockIndex, store: NodeStore, tip: NodeId, bits: Bits, hashes: (Hash, Hash))
    returns (failed: NodeId, best: Option<NodeId>)
    requires index.IndexOk(store) && index.TipsHeld(store) && index.QuietOk(store) && index.HeadersIn()
    requires tip in index.Ids() && index.CanValidate(store, tip) && !store.states[tip].status.KnownInvalid()
    requires hashes.0 !in index.byHash && hashes.1 !in index.byHash && hashes.0 != hashes.1
    requires index.nextReceivedOrderId < U32
    modifies store, index
    ensures index.IndexOk(store) && index.QuietOk(store) && failed in index.Ids()
    ensures failed == |old(store.links)| + 1 && old(store.links) <= store.links && |store.links| == failed + 1
    ensures TwoOnBits(store.links, tip, failed, bits) && store.states[failed].status.validateFailed
    ensures store.links[failed].workSum >= store.links[tip].workSum ==> failed in index.candidates
    ensures index.candidates <= old(index.candidates) + {failed - 1, failed}
    ensures best.None? <==> index.candidates == {}
    ensures best.Some? ==>
              && best.value in index.candidates && best.value < |store.links|
              && forall n :: n in index.candidates ==>
                   n < |store.links| && store.links[n].workSum <= store.links[best.value].workSum
  {
    hide BlockIndex.IndexOk, BlockIndex.TipsHeld, BlockIndex.HeadersIn, BlockIndex.CandidatesOk, BlockIndex.QuietOk;
    hide BlockIndex.FlagsOk, BlockIndex.HeadersOk, BlockIndex.LinkedOk, BlockIndex.TipsOk, FlagsClosed, DataBelow;
    hide WaitOutcome;
    hide LinkOutcome, InvalidWaiter, WaitsFor, Tree, Indexed, BetterCandidate;
    IndexParts(index, store);
    var first, second := AddTwo(index, store, tip, bits, hashes);
    WaitForFirst(index, store, tip, first, second);
    FailWaiting(index, store, tip, first, second);
    IndexParts(index, store);
    index.SetDataStored(store, first);
    ghost var was := index.LinkView(store);
    ghost var work := store.links[tip].workSum;
    var linked := index.AcceptBlockData(store, first, tip);
    LinkedFailed(store.links, was, first, second, work, linked, index.LinkView(store));
    failed := second;
    CandidatesIndexed(index, store);
    best := index.FindBestChainCandidate(store);
    if best.Some? {
      forall n | n in index.candidates
        ensures n < |store.links| && store.links[n].workSum <= store.links[best.value].workSum
      {
        if n != best.value {
          NotBetterWork(store.links, store.states, best.value, n);
        }
      }
    }
  }

  ghost predicate TwoOnBits(links: Links, tip: NodeId, last: NodeId, bits: Bits)
  {
    && 0 < last < |links| && tip < last - 1
    && links[last].parent == Some(last - 1) && links[last - 1].parent == Some(tip)
    && links[last].bits == bits && links[last - 1].bits == bits
  }

  lemma LinkedFailed(links: Links, was: LinkBooks, first: NodeId, second: NodeId, work: nat, linked: seq<NodeId>,
                     now: LinkBooks)
    requires first < second < |links| == |was.states| && links[second].parent == Some(first)
    requires first in was.waiting && was.waiting[first] == [second] && second !in was.waiting
    requires LinkOutcome(links, was, first, work, linked, now)
    ensures links[second].workSum >= work ==> second in now.candidates
    ensures now.candidates <= was.candidates + {first, second}
    ensures |now.states| == |links| && now.states[second].status == was.states[second].status
  {
    hide LinkedStates, Distinct, ParentsFirst;
    SameStatuses(was.states, linked, was.nextId, now.states);
    assert second in was.waiting[first];
    assert WaitsFor(links, was.waiting, first, second);
    forall d | d in linked && d < |links|
      ensures d == first || d == second
    {
      OnlyWaiter(links, was.waiting, first, second, d);
    }
  }

  lemma CandidatesIndexed(index: BlockIndex, store: NodeStore)
    requires index.IndexOk(store) && index.QuietOk(store)
    ensures store.Ok() && Indexed(store.links, index.Ids()) && index.candidates <= index.Ids()
  {
    hide Tree, Indexed, FlaggedQuiet, WaitingOk, WaitingQuiet;
  }

  /** The hash that is a small number. */
  function Numbered(k: nat): Hash
    requires k < 256
  {
    seq(32, i => if i == 0 then k else 0)
  }

  lemma NumberedDistinct(j: nat, k: nat)
    requires j < 256 && k < 256 && j != k
    ensures Numbered(j) != Numbered(k)
  {
    assert Numbered(j)[0] == j && Numbered(k)[0] == k;
  }

  const EASY: Bits := 0x037f_ffff

  lemma EasyWork()
    ensures 0 < CalcWork(EASY) && 32 * CalcWork(EASY) < TWO_256
  {
    assert Mantissa(EASY) == 0x7f_ffff && Exponent(EASY) == 3 && !SignBit(EASY);
    assert DiffBitsToUint256(EASY) == Diff(0x7f_ffff, false, false);
    assert Quotient(TWO_256 - 0x80_0000, 0x80_0000) == TWO_256 / 0x80_0000 - 1;
  }

  /** The index of a new chain: the genesis block, linked and validated. */
  method Genesis(bits: Bits, hash: Hash) returns (store: NodeStore, index: BlockIndex)
    ensures fresh(store) && fresh(index)
    ensures InOrder(index, store)
    ensures |store.links| == |store.states| == 1 && index.byHash == map[hash := 0] && index.Ids() == {0}
    ensures store.links[0].parent == None && store.links[0].bits == bits && store.links[0].height == 0
    ensures store.links[0].hash == hash
    ensures index.CanValidate(store, 0) && !store.states[0].status.KnownInvalid()
    ensures index.candidates == {} && index.nextReceivedOrderId == 1 && index.cachedTipsStart == 0
  {
    hide BlockIndex.IndexOk, BlockIndex.TipsHeld, BlockIndex.QuietOk, BlockIndex.HeadersIn, Tree, WellLinked;
    hide CacheCovers, Leaves, FlagsClosed, BestHeader, BestInvalid;
    store := new NodeStore();
    var genesis := store.InitNode(bits, 0, hash, None);
    store.states := [NodeState(Status(true, true, false, false), true, 0)];
    index := new BlockIndex(store);
    index.AddNode(store, genesis);
  }

  /** Such a run from a new chain: the best candidate is a block that failed. */
  method FailedCandidate() returns (store: NodeStore, index: BlockIndex, best: Option<NodeId>)
    ensures index.IndexOk(store) && index.QuietOk(store)
    ensures best.Some? && best.value in index.candidates && best.value < |store.states|
    ensures store.states[best.value].status.validateFailed
  {
    hide InOrder, BlockIndex.IndexOk, BlockIndex.TipsHeld, BlockIndex.QuietOk, BlockIndex.HeadersIn, Indexed, Numbered;
    hide Tree;
    store, index := Genesis(EASY, Numbered(0));
    OrderedParts(index, store);
    NumberedDistinct(0, 1);
    NumberedDistinct(0, 2);
    NumberedDistinct(1, 2);
    var failed;
    failed, best := FailedWhileWaiting(index, store, 0, EASY, (Numbered(1), Numbered(2)));
    IndexParts(index, store);
    EasyGrows(store.links);
  }

  lemma EasyGrows(links: Links)
    requires Tree(links) && |links| == 3 && links[0].parent == None && links[1].parent == Some(0)
    requires links[2].parent == Some(1) && links[0].bits == links[1].bits == links[2].bits == EASY
    ensures links[0].workSum < links[1].workSum < links[2].workSum
  {
    hide Walk, CalcWork;
    EasyWork();
    assert WellLinked(links, 0) && WellLinked(links, 1) && WellLinked(links, 2);
  }

  // ------------------------------------------------------------------
  // A leaf that is not visited.

  /** A prune at one best height drops a leaf; after a prune at a lower one,
      whose start is at or below the leaf, the cache is asked for heights it
      no longer covers, and the leaf is missing. */
  method LoweredPrune(index: BlockIndex, store: NodeStore, high: NodeId, low: NodeId, leaf: NodeId, filter: NodeId)
    returns (out: seq<NodeId>)
    requires index.IndexOk(store) && index.TipsHeld(store)
    requires high < |store.links| && low < |store.links| && leaf in Leaves(store.links, index.Ids())
    requires PruneHeight(store.links[high].height) > store.links[leaf].height
    requires store.links[leaf].height >= PruneHeight(store.links[low].height) > 0
    requires filter < |store.links|
    requires PruneHeight(store.links[low].height) - 1 <= store.links[filter].height < store.links[leaf].height
    modifies index`cachedTips, index`cachedTipsStart
    ensures index.IndexOk(store) && index.TipsHeld(store)
    ensures leaf in LeavesAbove(store.links, Leaves(store.links, index.Ids()), store.links[filter].height)
    ensures leaf !in out
  {
    hide TipsAre, CacheHolds, CacheCovers, NoneDropped, Indexed, Tree, Leaves, LeavesAbove, VisitedAbove, Retained;
    ghost var links, leaves, cached := store.links, Leaves(store.links, index.Ids()), index.cachedTips;
    LoweredPruneMisses(links, leaves, cached, links[high].height, links[low].height, leaf, links[filter].height);
    index.PruneCachedTips(store, high);
    index.PruneCachedTips(store, low);
    out := index.ForEachChainTipAfterHeight(store, filter);
  }

  /** Marking a block below which that leaf is: the leaf is not flagged. */
  method LoweredMark(index: BlockIndex, store: NodeStore, high: NodeId, low: NodeId, leaf: NodeId, node: NodeId)
    returns (ghost visited: set<NodeId>)
    requires index.IndexOk(store) && index.TipsHeld(store) && index.QuietOk(store) && index.HeadersIn()
    requires high < |store.links| && low < |store.links| && node in index.Ids()
    requires leaf in Leaves(store.links, index.Ids()) && Descends(store.links, node, leaf)
    requires PruneHeight(store.links[high].height) > store.links[leaf].height
    requires store.links[leaf].height >= PruneHeight(store.links[low].height) > 0
    requires PruneHeight(store.links[low].height) - 1 <= store.links[node].height < store.links[leaf].height
    requires !store.states[leaf].status.invalidAncestor
    modifies index, store
    ensures index.IndexOk(store) && index.Ids() == old(index.Ids()) && store.links == old(store.links)
    ensures |store.states| == |store.links| && store.states[node].status.validateFailed
    ensures store.states[leaf] == old(store.states)[leaf] && !index.FlagsOk(store)
    ensures visited ==
            TwicePruned(store.links, index.Ids(), old(index.cachedTips), store.links[high].height,
                        store.links[low].height, node)
    ensures leaf !in Reached(store.links, index.Ids(), node, visited)
    ensures NoWrap(store.links) && old(index.HeadersOk(store)) ==>
              (BestHeader(store.links, store.states, index.Ids(), index.bestHeader) <==>
               HeaderKept(store.links, old(store.states), index.Ids(), node, visited, old(index.bestHeader)))
  {
    hide BlockIndex.TipsHeld, BlockIndex.QuietOk, BlockIndex.HeadersIn, BlockIndex.HeadersOk, BlockIndex.FlagsOk;
    hide BlockIndex.IndexOk, TipsAre, NoneDropped, Indexed, Leaves, VisitedAbove, Retained, Reached, Below;
    hide AllReached, HeaderKept, Marked, BestHeader, BestInvalid, MarkedSoFar, BlockIndex.LinkedOk, BlockIndex.TipsOk;
    hide BlockIndex.CandidatesOk, MarkedFields, BlockIndex.View;
    ghost var links, ix := store.links, index.Ids();
    IndexParts(index, store);
    ghost var leaves, cached := Leaves(links, ix), index.cachedTips;
    HeldCache(index, store);
    LoweredPruneMisses(links, leaves, cached, links[high].height, links[low].height, leaf, links[node].height);
    index.PruneCachedTips(store, high);
    index.PruneCachedTips(store, low);
    visited := index.VisitedFrom(store, node);
    LeafUnreached(links, store.states, ix, node, visited, leaf, index.cachedTips, index.cachedTipsStart);
    ghost var was := store.states;
    index.MarkBlockFailedValidation(store, node);
    FieldsAt(was, store.states, node, Reached(links, ix, node, visited), leaf);
  }

  /** What an iteration from a block visits after two prunes. */
  ghost function TwicePruned(links: Links, ix: set<NodeId>, cached: map<Hash, NodeId>, high: int, low: int,
                             node: NodeId)
    : set<NodeId>
    requires (forall n :: n in ix ==> n < |links|) && node < |links|
    requires CacheHolds(links, Leaves(links, ix), cached)
  {
    RetainedHolds(links, Leaves(links, ix), cached, PruneHeight(high));
    var twice := Retained(links, Retained(links, cached, PruneHeight(high)), PruneHeight(low));
    VisitedAbove(links, Leaves(links, ix), twice, PruneHeight(low), links[node].height)
  }

  lemma HeldCache(index: BlockIndex, store: NodeStore)
    requires index.IndexOk(store) && index.TipsHeld(store)
    ensures CacheHolds(store.links, Leaves(store.links, index.Ids()), index.cachedTips)
  {
    hide TipsAre, CacheHolds, Leaves, Tree;
  }

  /** No indexed block is below a leaf but the leaf. */
  lemma {:induction false} LeafAlone(links: Links, ix: set<NodeId>, leaf: NodeId, d: NodeId)
    requires Indexed(links, ix) && Leaf(links, ix, leaf) && d in ix && Descends(links, leaf, d)
    ensures d == leaf
    decreases d
  {
    if d != leaf {
      LeafAlone(links, ix, leaf, links[d].parent.value);
    }
  }

  /** A leaf that is not visited is not reached, and keeps the flags open. */
  lemma LeafUnreached(links: Links, states: States, ix: set<NodeId>, node: NodeId, visited: set<NodeId>, leaf: NodeId,
                      cached: map<Hash, NodeId>, start: int)
    requires |links| == |states| && Indexed(links, ix) && node in ix && leaf in Leaves(links, ix) && leaf != node
    requires Descends(links, node, leaf) && !states[leaf].status.invalidAncestor && leaf !in visited
    requires visited == VisitedAbove(links, Leaves(links, ix), cached, start, links[node].height)
    ensures leaf !in Reached(links, ix, node, visited) && !AllReached(links, states, ix, node, visited)
  {
    hide Descends, Leaf, VisitedAbove;
    VisitedBounds(links, ix, cached, start, node);
    if HasVisited(links, visited, leaf) {
      var l :| l in visited && l < |links| && Descends(links, leaf, l);
      LeafAlone(links, ix, leaf, l);
    }
    assert MustFlag(links, states, ix, node, leaf);
  }

  // ------------------------------------------------------------------
  // A chain with a fork.

  /** A header on a valid block of an index in order. */
  method AddOn(index: BlockIndex, store: NodeStore, hash: Hash, parent: NodeId)
    requires InOrder(index, store) && parent in index.Ids() && hash !in index.byHash
    requires !store.states[parent].status.KnownInvalid()
    modifies index, store
    ensures InOrder(index, store) && index.Ids() == old(index.Ids()) + {|old(store.links)|}
    ensures |store.links| == |old(store.links)| + 1 && old(store.links) <= store.links
    ensures parent < |old(store.links)| && store.links[|old(store.links)|].parent == Some(parent)
    ensures store.links[|old(store.links)|].height == store.links[parent].height + 1
    ensures store.links[|old(store.links)|].bits == EASY
    ensures index.byHash == old(index.byHash)[hash := |old(store.links)|]
    ensures index.cachedTipsStart == old(index.cachedTipsStart)
    ensures store.states == old(store.states) + [NodeState(NONE, false, 0)]
  {
    hide BlockIndex.IndexOk, BlockIndex.TipsHeld, BlockIndex.QuietOk, BlockIndex.HeadersIn, BlockIndex.Ids;
    hide CacheCovers, Leaves, FlagsClosed, BestHeader, BestInvalid;
    var n := index.AddHeader(store, EASY, hash, parent);
    HeightAbove(index, store, n);
  }

  lemma HeightAbove(index: BlockIndex, store: NodeStore, n: NodeId)
    requires index.IndexOk(store) && n < |store.links| && store.links[n].parent.Some?
    ensures store.links[n].parent.value < n
    ensures store.links[n].height == store.links[store.links[n].parent.value].height + 1
  {
    hide Walk, CalcWork;
    assert WellLinked(store.links, n);
  }

  /** Blocks in a row, each on the one before. */
  ghost predicate LineLinks(links: Links, top: nat)
  {
    && top < |links|
    && forall k :: 0 <= k <= top ==>
         && links[k].height == k && links[k].bits == EASY
         && links[k].parent == (if k == 0 then None else Some(k - 1))
  }

  /** A chain of valid blocks, numbered by height, and nothing else. */
  ghost predicate Line(index: BlockIndex, store: NodeStore, top: nat)
    reads index, store
  {
    && top < 256 && InOrder(index, store) && LineLinks(store.links, top)
    && |store.links| == |store.states| == top + 1 && index.cachedTipsStart == 0
    && (forall k :: 0 <= k <= top ==> k in index.Ids() && !store.states[k].status.KnownInvalid())
    && forall h :: h in index.byHash ==> exists k :: 0 <= k <= top && h == Numbered(k)
  }

  lemma NextNumber(index: BlockIndex, store: NodeStore, top: nat)
    requires Line(index, store, top) && top < 255
    ensures Numbered(top + 1) !in index.byHash
  {
    hide InOrder, LineLinks;
    if Numbered(top + 1) in index.byHash {
      var k :| 0 <= k <= top && Numbered(top + 1) == Numbered(k);
      NumberedDistinct(k, top + 1);
    }
  }

  method Lengthen(index: BlockIndex, store: NodeStore, top: nat)
    requires Line(index, store, top) && top < 255
    modifies index, store
    ensures Line(index, store, top + 1)
  {
    hide InOrder, Numbered, BlockIndex.Ids;
    NextNumber(index, store, top);
    AddOn(index, store, Numbered(top + 1), top);
    forall h | h in index.byHash
      ensures exists k :: 0 <= k <= top + 1 && h == Numbered(k)
    {
      if h != Numbered(top + 1) {
        var k :| 0 <= k <= top && h == Numbered(k);
      }
    }
  }

  method LineOf(top: nat) returns (store: NodeStore, index: BlockIndex)
    requires top < 256
    ensures fresh(store) && fresh(index) && Line(index, store, top)
  {
    hide InOrder;
    store, index := Genesis(EASY, Numbered(0));
    var i := 0;
    while i < top
      invariant i <= top && fresh(store) && fresh(index) && Line(index, store, i)
    {
      Lengthen(index, store, i);
      i := i + 1;
    }
  }

  /** Thirty blocks on the genesis block, and a fork block at height ten. */
  ghost predicate Forked(links: Links)
  {
    && |links| == 32 && LineLinks(links, 30)
    && links[31].height == 10 && links[31].bits == EASY && links[31].parent == Some(9)
  }

  method ForkedChain() returns (store: NodeStore, index: BlockIndex)
    ensures fresh(store) && fresh(index) && InOrder(index, store) && Forked(store.links) && |store.states| == 32
    ensures forall k :: 0 <= k < 32 ==> k in index.Ids() && !store.states[k].status.KnownInvalid()
    ensures forall n :: n in index.Ids() ==> n < 32
    ensures {30, 31} <= Leaves(store.links, index.Ids()) && index.cachedTipsStart == 0
  {
    hide InOrder, Numbered, BlockIndex.Ids, LineLinks, Forked, Tree, Indexed, CacheCovers, BestHeader, Leaves;
    store, index := LineOf(30);
    NextNumber(index, store, 30);
    OrderedParts(index, store);
    ghost var links := store.links;
    AddOn(index, store, Numbered(31), 9);
    OrderedParts(index, store);
    LineForks(links, store.links);
    ForkLeaves(store.links, index.Ids());
  }

  lemma LineForks(links: Links, more: Links)
    requires LineLinks(links, 30) && |links| == 31 && links <= more && |more| == 32
    requires more[31].parent == Some(9) && more[31].height == more[9].height + 1 && more[31].bits == EASY
    ensures Forked(more)
  {
    assert forall k :: 0 <= k < 31 ==> more[k] == links[k];
  }

  /** The last block of the chain and the fork block have nothing on them. */
  lemma ForkLeaves(links: Links, ix: set<NodeId>)
    requires Forked(links) && (forall n :: n in ix ==> n < |links|) && {30, 31} <= ix
    ensures {30, 31} <= Leaves(links, ix)
  {
    forall m | m in ix
      ensures links[m].parent != Some(30) && links[m].parent != Some(31)
    {
      if m <= 30 {
        assert links[m].parent == (if m == 0 then None else Some(m - 1));
      }
    }
  }

  /** Such a run from a new chain: the fork block is a leaf above height eight
      that the iteration from there does not visit. */
  method MissedLeaf() returns (store: NodeStore, index: BlockIndex, out: seq<NodeId>)
    ensures index.IndexOk(store) && Forked(store.links)
    ensures 31 in LeavesAbove(store.links, Leaves(store.links, index.Ids()), store.links[8].height) && 31 !in out
  {
    hide InOrder, BlockIndex.IndexOk, BlockIndex.TipsHeld, Leaves, LeavesAbove, Forked, Tree, Indexed, CacheCovers;
    hide BestHeader;
    store, index := ForkedChain();
    OrderedParts(index, store);
    ForkHeights(store.links);
    out := LoweredPrune(index, store, 30, 20, 31, 8);
  }

  // Work and descent on the forked chain.

  lemma {:induction false} LineBelow(links: Links, a: nat, d: nat)
    requires LineLinks(links, 30) && a <= d <= 30
    ensures Descends(links, a, d)
    decreases d
  {
    if a < d {
      LineBelow(links, a, d - 1);
    }
  }

  lemma ForkBelow(links: Links, d: NodeId)
    requires Forked(links) && 9 <= d < 32
    ensures Descends(links, 9, d)
  {
    LineBelow(links, 9, if d <= 30 then d else 9);
  }

  /** The work of the k-th block: one more than its height, times one block's. */
  lemma {:induction false} LineWork(links: Links, k: nat)
    requires Tree(links) && LineLinks(links, 30) && k <= 30
    ensures links[k].workSum == PathWork(links, k) == (k + 1) * CalcWork(EASY)
  {
    hide CalcWork, ExactWork, Walk, Tree;
    var w := CalcWork(EASY);
    EasyWork();
    CalcWorkExact(EASY);
    assert WellLinked(links, k) by { LinkedAt(links, k); }
    if k > 0 {
      LineWork(links, k - 1);
      OneMore(k, w);
    }
  }

  lemma LinkedAt(links: Links, k: NodeId)
    requires Tree(links) && k < |links|
    ensures WellLinked(links, k)
  {}

  lemma OneMore(k: nat, w: nat)
    requires k <= 31 && 32 * w < TWO_256
    ensures w + k * w == (k + 1) * w && (w + k * w) % TWO_256 == (k + 1) * w
  {
    AtMost(k + 1, 32, w);
  }

  lemma AtMost(a: nat, b: nat, w: nat)
    requires a <= b
    ensures a * w <= b * w
  {}

  lemma ForkWork(links: Links)
    requires Tree(links) && Forked(links)
    ensures links[31].workSum == PathWork(links, 31) == 11 * CalcWork(EASY)
    ensures NoWrap(links)
  {
    hide CalcWork, ExactWork, Walk;
    EasyWork();
    CalcWorkExact(EASY);
    LineWork(links, 9);
    assert WellLinked(links, 31);
    forall k | 0 <= k < |links|
      ensures PathWork(links, k) < TWO_256
    {
      if k <= 30 {
        LineWork(links, k);
        AtMost(k + 1, 32, CalcWork(EASY));
      }
    }
  }

  /** The last block of the chain has the most work. */
  lemma ForkBest(links: Links, states: States, ix: set<NodeId>, best: Option<NodeId>)
    requires Tree(links) && Forked(links) && |states| == 32 && 30 in ix && (forall n :: n in ix ==> n < 32)
    requires BestHeader(links, states, ix, best) && !states[30].status.KnownInvalid()
    ensures best == Some(30)
  {
    hide CalcWork, PathWork, Tree;
    EasyWork();
    LineWork(links, 30);
    ForkWork(links);
    var b := best.value;
    if b < 30 {
      LineWork(links, b);
      AtMost(b + 1, 30, CalcWork(EASY));
    }
  }

  /** No block outside the failed one's subtree has the fork block's work. */
  lemma ForkNotOutweighed(links: Links, states: States, ix: set<NodeId>)
    requires Tree(links) && Forked(links) && |states| == 32 && forall n :: n in ix ==> n < 32
    ensures !Outweighed(links, states, ix, 9, 31)
  {
    hide CalcWork, PathWork, Tree, Descends;
    EasyWork();
    ForkWork(links);
    forall v | v in ix && !Descends(links, 9, v)
      ensures links[v].workSum < links[31].workSum
    {
      if v >= 9 {
        ForkBelow(links, v);
      } else {
        LineWork(links, v);
        AtMost(v + 1, 9, CalcWork(EASY));
      }
    }
  }

  /** The last block of the chain stays in the cache through both prunes. */
  lemma TopVisited(links: Links, ix: set<NodeId>, cached: map<Hash, NodeId>)
    requires Forked(links) && (forall n :: n in ix ==> n < |links|) && 30 in Leaves(links, ix)
    requires CacheCovers(links, Leaves(links, ix), cached, 0)
    ensures 30 in TwicePruned(links, ix, cached, 30, 20, 9)
  {
    hide Leaves;
    RetainedHolds(links, Leaves(links, ix), cached, PruneHeight(30));
    assert links[30].height == 30 && links[9].height == 9;
    var first := Retained(links, cached, PruneHeight(30));
    var second := Retained(links, first, PruneHeight(20));
    assert links[30].hash in first && first[links[30].hash] == 30;
    assert links[30].hash in second && second[links[30].hash] == 30;
  }

  lemma ForkNotKept(links: Links, states: States, ix: set<NodeId>, visited: set<NodeId>)
    requires Tree(links) && Forked(links) && |states| == 32 && (forall n :: n in ix ==> n < 32) && {30, 31} <= ix
    requires 30 in visited && 31 !in Reached(links, ix, 9, visited) && !states[31].status.KnownInvalid()
    ensures !HeaderKept(links, states, ix, 9, visited, Some(30))
  {
    hide Outweighed, Tree;
    ForkBelow(links, 30);
    ForkBelow(links, 31);
    ForkNotOutweighed(links, states, ix);
    assert HasVisited(links, visited, 30);
    assert 31 in Below(links, ix, 9) - Reached(links, ix, 9, visited);
  }

  /** Such a run from a new chain. The block at height nine is marked failed: its
      child on the fork is not flagged, and what is tracked as the best header is
      not the best, the fork block being valid. */
  method UnflaggedChild() returns (store: NodeStore, index: BlockIndex)
    ensures index.IndexOk(store) && Forked(store.links) && |store.states| == 32
    ensures store.states[9].status.validateFailed && store.links[31].parent == Some(9)
    ensures 31 in index.Ids() && !store.states[31].status.KnownInvalid()
    ensures !index.FlagsOk(store) && !BestHeader(store.links, store.states, index.Ids(), index.bestHeader)
  {
    hide InOrder, BlockIndex.IndexOk, BlockIndex.TipsHeld, BlockIndex.QuietOk, BlockIndex.HeadersIn, Forked, NoWrap;
    hide BlockIndex.FlagsOk, BlockIndex.HeadersOk, Tree, Indexed, CacheCovers, CacheHolds, BestHeader, Leaves, Descends;
    hide Reached, HeaderKept, TwicePruned;
    store, index := ForkedChain();
    OrderedParts(index, store);
    ghost var links, ix, states := store.links, index.Ids(), store.states;
    ForkHeights(links);
    ForkBelow(links, 31);
    ForkWork(links);
    ForkBest(links, states, ix, index.bestHeader);
    TopVisited(links, ix, index.cachedTips);
    ghost var visited := LoweredMark(index, store, 30, 20, 31, 9);
    ForkNotKept(links, states, ix, visited);
  }

  lemma ForkHeights(links: Links)
    requires Forked(links)
    ensures |links| == 32 && links[8].height == 8 && links[9].height == 9 && links[20].height == 20
    ensures links[30].height == 30
    ensures links[31].height == 10 && links[31].parent == Some(9)
  {}
}
