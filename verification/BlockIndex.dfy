/** The in-memory block index: chain tips and their cache, the best header, and
    the marking of failed blocks, changed in place over a shared node arena. */
module BlockIndexes {
  import opened NodeStores
  import opened Work
  import opened BlockTree
  import opened ChainTips
  import opened Linking
  import opened Options
  import opened Sequences

  // ------------------------------------------------------------------
  // How the redundant structures follow the tree when a node is added.

  lemma ValuesInsert(m: map<Hash, NodeId>, h: Hash, n: NodeId)
    requires h !in m
    ensures m[h := n].Values == m.Values + {n}
  {
    var more := m[h := n];
    forall v | v in m.Values
      ensures v in more.Values
    {
      var k :| k in m && m[k] == v;
      assert more[k] == v;
    }
    assert more[h] == n;
  }

  /** The leaves after a node is added: it becomes one, its parent stops. */
  ghost function AddedLeaves(links: Links, leaves: set<NodeId>, node: NodeId): set<NodeId>
    requires node < |links|
  {
    (match links[node].parent case None => leaves case Some(p) => leaves - {p}) + {node}
  }

  ghost function AddedCache(links: Links, cached: map<Hash, NodeId>, node: NodeId): map<Hash, NodeId>
    requires node < |links| && (links[node].parent.Some? ==> links[node].parent.value < |links|)
  {
    var more := cached[links[node].hash := node];
    match links[node].parent case None => more case Some(p) => more - {links[p].hash}
  }

  lemma AddedCacheHolds(links: Links, ix: set<NodeId>, cached: map<Hash, NodeId>, node: NodeId)
    requires Tree(links) && Indexed(links, ix + {node}) && node !in ix && Indexed(links, ix)
    requires CacheHolds(links, Leaves(links, ix), cached)
    ensures CacheHolds(links, AddedLeaves(links, Leaves(links, ix), node), AddedCache(links, cached, node))
  {
    hide Leaf;
    assert WellLinked(links, node);
    var leaves := Leaves(links, ix);
    var after := AddedCache(links, cached, node);
    forall h | h in after
      ensures after[h] in AddedLeaves(links, leaves, node) && links[after[h]].hash == h
    {
      if h != links[node].hash {
        assert h in cached && cached[h] in leaves;
      }
    }
  }

  lemma AddedCacheCovers(links: Links, ix: set<NodeId>, cached: map<Hash, NodeId>, start: int, node: NodeId)
    requires Tree(links) && Indexed(links, ix + {node}) && node !in ix && Indexed(links, ix)
    requires CacheCovers(links, Leaves(links, ix), cached, start)
    ensures CacheCovers(links, AddedLeaves(links, Leaves(links, ix), node), AddedCache(links, cached, node), start)
  {
    hide Leaf, CacheHolds;
    assert WellLinked(links, node);
    var leaves := Leaves(links, ix);
    var after := AddedCache(links, cached, node);
    AddedCacheHolds(links, ix, cached, node);
    forall n | n in AddedLeaves(links, leaves, node) && links[n].height >= start
      ensures links[n].hash in after && after[links[n].hash] == n
    {
      if n != node {
        assert links[n].hash in cached && cached[links[n].hash] == n;
        assert n in ix + {node} && node in ix + {node};
        if links[node].parent.Some? {
          assert links[node].parent.value in ix;
        }
      }
    }
  }

  lemma AddedHeader(links: Links, states: States, ix: set<NodeId>, node: NodeId, best: Option<NodeId>,
                    best': Option<NodeId>)
    requires |links| == |states| && (forall n :: n in ix ==> n < |links|) && node < |links|
    requires BestHeader(links, states, ix, best)
    requires states[node].status.KnownInvalid() ==> best' == best
    requires !states[node].status.KnownInvalid() ==>
               best' == if best.None? || BetterCandidate(links, states, node, best.value) then Some(node) else best
    ensures BestHeader(links, states, ix + {node}, best')
  {
    hide BetterCandidate;
    if !states[node].status.KnownInvalid() && best.Some? {
      NotBetterWork(links, states, node, best.value);
    }
  }

  class BlockIndex {
    var byHash: map<Hash, NodeId>
    var chainTips: TipMap
    var totalTips: nat
    var bestHeader: Option<NodeId>
    var bestInvalid: Option<NodeId>
    var modified: set<NodeId>
    var candidates: set<NodeId>
    var unlinkedChildrenOf: map<NodeId, seq<NodeId>>
    var nextReceivedOrderId: nat
    var cachedTips: map<Hash, NodeId>
    var cachedTipsStart: int

    ghost function Ids(): set<NodeId>
      reads this`byHash
    {
      byHash.Values
    }

    /** The index and the arena belong together. */
    ghost predicate IndexOk(store: NodeStore)
      reads this`byHash, store
    {
      && store.Ok()
      && Indexed(store.links, Ids())
      && forall h :: h in byHash ==> byHash[h] < |store.links| && store.links[byHash[h]].hash == h
    }

    /** The tracked tips are exactly the leaves, `totalTips` their number, and
        the cache covers the recent ones. */
    ghost predicate TipsOk(store: NodeStore)
      requires IndexOk(store)
      reads `byHash, `chainTips, `totalTips, `cachedTips, `cachedTipsStart, store
    {
      TipsHeld(store) && CacheCovers(store.links, Leaves(store.links, Ids()), cachedTips, cachedTipsStart)
    }

    /** The same, but the cache may lack some of the recent ones. */
    ghost predicate TipsHeld(store: NodeStore)
      requires IndexOk(store)
      reads `byHash, `chainTips, `totalTips, `cachedTips, `cachedTipsStart, store
    {
      var leaves := Leaves(store.links, Ids());
      && TipsAre(store.links, chainTips, leaves)
      && totalTips == |leaves|
      && CacheHolds(store.links, leaves, cachedTips)
      && cachedTipsStart >= 0
    }

    /** Flagged blocks are quiet, and blocks wait only for blocks not known to be
        invalid. */
    ghost predicate QuietOk(store: NodeStore)
      requires IndexOk(store)
      reads `byHash, `candidates, `unlinkedChildrenOf, store
    {
      BooksQuiet(store.links, Ids(), LinkBooks(store.states, candidates, unlinkedChildrenOf, 0))
    }

    /** And every child of a block known to be invalid is flagged. */
    ghost predicate FlagsOk(store: NodeStore)
      requires IndexOk(store)
      reads `byHash, `candidates, `unlinkedChildrenOf, store
    {
      QuietOk(store) && FlagsClosed(store.links, store.states, Ids())
    }

    /** Linked blocks have their ancestors' data. */
    ghost predicate LinkedOk(store: NodeStore)
      requires IndexOk(store)
      reads `byHash, `unlinkedChildrenOf, store
    {
      LinkageOk(store.links, Ids(), store.states, unlinkedChildrenOf)
    }

    /** The tracked headers are indexed. */
    ghost predicate HeadersIn()
      reads `byHash, `bestHeader, `bestInvalid
    {
      && (bestHeader.Some? ==> bestHeader.value in Ids())
      && (bestInvalid.Some? ==> bestInvalid.value in Ids())
    }

    /** And they are the best. */
    ghost predicate HeadersOk(store: NodeStore)
      requires IndexOk(store)
      reads `byHash, `bestHeader, `bestInvalid, store
    {
      && HeadersIn()
      && BestHeader(store.links, store.states, Ids(), bestHeader)
      && BestInvalid(store.links, store.states, Ids(), bestInvalid)
    }

    constructor (store: NodeStore)
      requires store.Ok()
      ensures IndexOk(store) && TipsOk(store) && FlagsOk(store) && HeadersOk(store) && LinkedOk(store)
      ensures byHash == map[] && Ids() == {} && nextReceivedOrderId == 1 && cachedTipsStart == 0
      ensures candidates == {} && unlinkedChildrenOf == map[]
    {
      byHash := map[];
      chainTips := map[];
      totalTips := 0;
      bestHeader := None;
      bestInvalid := None;
      modified := {};
      candidates := {};
      unlinkedChildrenOf := map[];
      nextReceivedOrderId := 1;
      cachedTips := map[];
      cachedTipsStart := 0;
      new;
      assert Ids() == {};
      assert Leaves(store.links, Ids()) == {};
    }

    method AddChainTip(tip: NodeId, height: int, hash: Hash)
      modifies `totalTips, `cachedTips, `chainTips
      ensures chainTips == AddTip(old(chainTips), tip, height)
      ensures totalTips == old(totalTips) + 1
      ensures cachedTips == old(cachedTips)[hash := tip]
    {
      totalTips := totalTips + 1;
      cachedTips := cachedTips[hash := tip];
      if height !in chainTips {
        chainTips := chainTips[height := ChainTipEntry(None, [])];
      }
      var entry := chainTips[height];
      if entry.tip.None? && entry.others == [] {
        chainTips := chainTips[height := entry.(tip := Some(tip))];
        return;
      }
      chainTips := chainTips[height := entry.(others := entry.others + [tip])];
    }

    method RemoveChainTip(tip: NodeId, height: int, hash: Hash)
      requires FindsTip(chainTips, tip, height) ==> totalTips > 0
      modifies `totalTips, `cachedTips, `chainTips
      ensures chainTips == RemoveTip(old(chainTips), tip, height)
      ensures totalTips == old(totalTips) - (if FindsTip(old(chainTips), tip, height) then 1 else 0)
      ensures cachedTips == old(cachedTips) - {hash}
    {
      cachedTips := cachedTips - {hash};
      if height !in chainTips {
        return;
      }
      var entry := chainTips[height];
      if entry.tip == Some(tip) {
        totalTips := totalTips - 1;
        if entry.others == [] {
          chainTips := chainTips - {height};
          return;
        }
        chainTips := chainTips[height := ChainTipEntry(Some(entry.others[0]), entry.others[1..])];
        return;
      }
      var i := PositionOf(entry.others, tip);
      if i.Some? {
        totalTips := totalTips - 1;
        chainTips := chainTips[height := entry.(others := Without(entry.others, i.value))];
      }
    }

    /** The tip bookkeeping of `add_node_unmarked`. */
    method MoveTips(store: NodeStore, node: NodeId, ghost ix: set<NodeId>)
      requires store.Ok() && node < |store.links| && node !in ix
      requires Indexed(store.links, ix) && Indexed(store.links, ix + {node})
      requires TipsAre(store.links, chainTips, Leaves(store.links, ix)) && totalTips == |Leaves(store.links, ix)|
      requires CacheHolds(store.links, Leaves(store.links, ix), cachedTips)
      modifies `totalTips, `cachedTips, `chainTips
      ensures TipsAre(store.links, chainTips, Leaves(store.links, ix + {node}))
      ensures totalTips == |Leaves(store.links, ix + {node})|
      ensures CacheHolds(store.links, Leaves(store.links, ix + {node}), cachedTips)
      ensures CacheCovers(store.links, Leaves(store.links, ix), old(cachedTips), cachedTipsStart) ==>
                CacheCovers(store.links, Leaves(store.links, ix + {node}), cachedTips, cachedTipsStart)
    {
      hide TipsAre, CacheHolds, CacheCovers, FindsTip, AddTip, RemoveTip, Tree, Leaf, Leaves, Indexed;
      var n := store.links[node];
      IndexedFacts(store.links, ix);
      IndexedFacts(store.links, ix + {node});
      ghost var links, leaves := store.links, Leaves(store.links, ix);
      LeavesIndexed(links, ix);
      ParentIndexed(links, ix, node);
      LeavesAfterAdd(links, ix, node);
      AddedCacheHolds(links, ix, cachedTips, node);
      if CacheCovers(links, leaves, cachedTips, cachedTipsStart) {
        AddedCacheCovers(links, ix, cachedTips, cachedTipsStart, node);
      }
      AddTipKeeps(links, chainTips, leaves, node);
      CountChange(leaves, node);
      AddChainTip(node, n.height, n.hash);
      if n.parent.Some? {
        var p := n.parent.value;
        RemoveTipKeeps(links, chainTips, leaves + {node}, p);
        CountChange(leaves + {node}, p);
        assert leaves + {node} - {p} == AddedLeaves(links, leaves, node);
        RemoveChainTip(p, store.links[p].height, store.links[p].hash);
      }
    }

    /** `add_node_unmarked`: a node whose parent is indexed joins the index under
        a new hash. Its own flags decide what becomes of the others'. */
    method AddNodeUnmarked(store: NodeStore, node: NodeId)
      requires IndexOk(store) && TipsHeld(store) && QuietOk(store) && HeadersIn()
      requires CanAdd(store.links, store.states, Ids(), node)
      modifies `byHash, `totalTips, `cachedTips, `chainTips, `bestHeader
      ensures IndexOk(store) && TipsHeld(store) && HeadersIn() && (old(TipsOk(store)) ==> TipsOk(store))
      ensures QuietOk(store) <==> AddsQuiet(store.states, node)
      ensures FlagsClosed(store.links, store.states, Ids()) <==>
                old(FlagsOk(store)) && AddsClosed(store.links, store.states, node)
      ensures LinkedOk(store) <==> old(LinkedOk(store)) && AddsLinked(store.links, store.states, node)
      ensures old(BestHeader(store.links, store.states, Ids(), bestHeader)) ==>
                BestHeader(store.links, store.states, Ids(), bestHeader)
      ensures Ids() == old(Ids()) + {node} && byHash == old(byHash)[store.links[node].hash := node]
    {
      hide Indexed, TipsAre, CacheHolds, CacheCovers, FlagsClosed, BooksQuiet, BestHeader, BetterCandidate;
      hide Leaves, Tree, CanAdd, LinkageOk, AddsLinked;
      ghost var links, states, ix := store.links, store.states, Ids();
      CanAddIndexed(links, states, ix, node);
      CanAddFlags(links, ix, LinkBooks(states, candidates, unlinkedChildrenOf, 0), node);
      CanAddLinked(links, ix, states, unlinkedChildrenOf, node);
      NewHash(links, ix, byHash, node);
      var n := store.links[node];
      byHash := byHash[n.hash := node];
      ValuesInsert(old(byHash), n.hash, node);
      MoveTips(store, node, ix);
      UpdateBestHeader(store, node, ix);
    }

    /** The header bookkeeping of `add_node_unmarked`. */
    method UpdateBestHeader(store: NodeStore, node: NodeId, ghost ix: set<NodeId>)
      requires store.Ok() && node < |store.links| && forall n :: n in ix ==> n < |store.links|
      requires bestHeader.Some? ==> bestHeader.value in ix
      modifies `bestHeader
      ensures bestHeader.Some? ==> bestHeader.value in ix + {node}
      ensures BestHeader(store.links, store.states, ix, old(bestHeader)) ==>
                BestHeader(store.links, store.states, ix + {node}, bestHeader)
    {
      hide BestHeader, BetterCandidate;
      ghost var best := bestHeader;
      if !store.states[node].status.KnownInvalid() {
        if bestHeader.None? || BetterCandidate(store.links, store.states, node, bestHeader.value) {
          bestHeader := Some(node);
        }
      }
      if BestHeader(store.links, store.states, ix, best) {
        AddedHeader(store.links, store.states, ix, node, best, bestHeader);
      }
    }

    /** `add_node`. */
    method AddNode(store: NodeStore, node: NodeId)
      requires IndexOk(store) && TipsHeld(store) && QuietOk(store) && HeadersIn()
      requires CanAdd(store.links, store.states, Ids(), node)
      modifies `byHash, `totalTips, `cachedTips, `chainTips, `bestHeader, `modified
      ensures IndexOk(store) && TipsHeld(store) && HeadersIn() && (old(TipsOk(store)) ==> TipsOk(store))
      ensures QuietOk(store) <==> AddsQuiet(store.states, node)
      ensures FlagsClosed(store.links, store.states, Ids()) <==>
                old(FlagsOk(store)) && AddsClosed(store.links, store.states, node)
      ensures LinkedOk(store) <==> old(LinkedOk(store)) && AddsLinked(store.links, store.states, node)
      ensures old(BestHeader(store.links, store.states, Ids(), bestHeader)) ==>
                BestHeader(store.links, store.states, Ids(), bestHeader)
      ensures old(HeadersOk(store)) && !store.states[node].status.KnownInvalid() ==> HeadersOk(store)
      ensures Ids() == old(Ids()) + {node} && byHash == old(byHash)[store.links[node].hash := node]
      ensures modified == old(modified) + {node}
    {
      hide TipsHeld, TipsOk, QuietOk, FlagsClosed, BestHeader, CanAdd, Indexed, LinkedOk;
      AddNodeUnmarked(store, node);
      modified := modified + {node};
    }

    /** `for_each_chain_tip`, collecting what it visits: every leaf, once. */
    method ForEachChainTip(store: NodeStore) returns (out: seq<NodeId>)
      requires IndexOk(store) && TipsHeld(store)
      ensures Visits(out, Leaves(store.links, Ids()))
    {
      hide TipsAre, Visits, CacheHolds, Leaf;
      ghost var leaves := Leaves(store.links, Ids());
      forall n | n in leaves
        ensures store.links[n].height > -1
      {
        HeightNonNegative(store.links, n);
      }
      assert LeavesAbove(store.links, leaves, -1) == leaves;
      out := VisitMap(store.links, chainTips, -1, leaves);
    }

    /** `for_each_chain_tip_after_height`, collecting what it visits. While the
        cache covers the recent leaves, it and the full map give the same ones. */
    method ForEachChainTipAfterHeight(store: NodeStore, filter: NodeId) returns (out: seq<NodeId>)
      requires IndexOk(store) && TipsHeld(store) && filter < |store.links|
      ensures Visits(out, VisitedAbove(store.links, Leaves(store.links, Ids()), cachedTips, cachedTipsStart,
                                       store.links[filter].height))
      ensures TipsOk(store) ==>
                Visits(out, LeavesAbove(store.links, Leaves(store.links, Ids()), store.links[filter].height))
    {
      hide TipsAre, Visits, Leaf, CacheHolds, CacheCovers, CachedAbove, LeavesAbove;
      ghost var leaves := Leaves(store.links, Ids());
      var filterHeight := store.links[filter].height;
      if TipsOk(store) {
        VisitedIsAll(store.links, leaves, cachedTips, cachedTipsStart, filterHeight);
      }
      if filterHeight >= cachedTipsStart - 1 {
        out := VisitCache(store.links, cachedTips, filterHeight, leaves);
        return;
      }
      out := VisitMap(store.links, chainTips, filterHeight, leaves);
    }

    /** `prune_cached_tips`. The cache goes on covering the recent leaves exactly
        when no leaf from the new start to the old one had been dropped, so
        always when the best height does not fall. */
    method PruneCachedTips(store: NodeStore, best: NodeId)
      requires IndexOk(store) && TipsHeld(store) && best < |store.links|
      modifies `cachedTips, `cachedTipsStart
      ensures TipsHeld(store) && forall h :: h in old(cachedTips) ==> old(cachedTips)[h] < |store.links|
      ensures var cut := store.links[best].height - 12;
              if cut <= 0 then cachedTips == old(cachedTips) && cachedTipsStart == old(cachedTipsStart)
              else cachedTips == Retained(store.links, old(cachedTips), cut) && cachedTipsStart == cut
      ensures var cut := store.links[best].height - 12;
              old(TipsOk(store)) ==>
                (TipsOk(store) <==>
                 cut <= 0 ||
                 NoneDropped(store.links, Leaves(store.links, Ids()), old(cachedTips), cut, old(cachedTipsStart)))
      ensures old(TipsOk(store)) && store.links[best].height - 12 >= old(cachedTipsStart) ==> TipsOk(store)
    {
      hide TipsAre, CacheHolds, CacheCovers, NoneDropped, DistinctHashes, Indexed;
      var height := store.links[best].height - 12;
      ghost var leaves := Leaves(store.links, Ids());
      LeavesDistinct(store.links, Ids());
      CachedInRange(store.links, leaves, cachedTips);
      RetainedHolds(store.links, leaves, cachedTips, height);
      if TipsOk(store) {
        PruneCovers(store.links, leaves, cachedTips, cachedTipsStart, height);
      }
      if height <= 0 {
        return;
      }
      cachedTips := Retained(store.links, cachedTips, height);
      cachedTipsStart := height;
    }

    /** What marking a block changes. */
    ghost function View(store: NodeStore): Books
      reads `candidates, `unlinkedChildrenOf, `modified, store`states
    {
      Books(store.states, candidates, unlinkedChildrenOf, modified)
    }

    method SetFlagged(store: NodeStore, n: NodeId)
      requires store.Ok() && n < |store.links|
      modifies store`states, `candidates, `unlinkedChildrenOf, `modified
      ensures store.Ok() && View(store) == FlagStep(old(View(store)), n)
    {
      if !store.states[n].status.invalidAncestor {
        modified := modified + {n};
        store.states := store.states[n := store.states[n].(status := BelowFailed(store.states[n].status))];
        candidates := candidates - {n};
        unlinkedChildrenOf := unlinkedChildrenOf - {n};
      }
    }

    /** The inner walk of `mark_block_failed_validation`: from a tip up to the
        failed block, every node on the way is flagged. */
    method FlagPath(store: NodeStore, node: NodeId, tip: NodeId, ghost b: Books, ghost done: set<NodeId>)
      requires store.Ok() && Indexed(store.links, Ids()) && node in Ids() && tip in Ids()
      requires Descends(store.links, node, tip)
      requires |b.states| == |store.links| && FlaggedQuiet(b.states, Ids(), b.candidates, b.waiting.Keys)
      requires View(store) == MarkedSoFar(b, node, done)
      modifies store`states, `candidates, `unlinkedChildrenOf, `modified
      ensures store.Ok() && View(store) == MarkedSoFar(b, node, done + Path(store.links, Ids(), node, tip))
    {
      hide Indexed, Tree, MarkedSoFar, FlagStep, FlaggedQuiet, View;
      ghost var links, ix := store.links, Ids();
      IndexedFacts(links, ix);
      var n: NodeId := tip;
      ghost var flagged := done;
      while n != node
        invariant store.Ok() && store.links == links && n in ix && n < |links|
        invariant Descends(links, node, n) && Descends(links, n, tip)
        invariant View(store) == MarkedSoFar(b, node, flagged)
        invariant done <= flagged <= done + Path(links, ix, node, tip)
        invariant forall d :: d in Path(links, ix, node, tip) ==> d in flagged || Descends(links, d, n)
        decreases n
      {
        FlagStepMarks(b, ix, node, flagged, n);
        SetFlagged(store, n);
        flagged := flagged + {n};
        ghost var p := links[n].parent.value;
        StepUp(links, ix, node, tip, n);
        n := store.links[n].parent.value;
      }
      PathEnds(links, ix, node, tip);
      assert flagged == done + Path(links, ix, node, tip);
    }

    /** The walk over the tips below the failed block: in the end exactly its
        proper descendants with a visited tip at or below them are flagged, and
        the best invalid block has at least the work of every such tip. */
    method FlagDescendants(store: NodeStore, node: NodeId, tips: seq<NodeId>, ghost b: Books,
                           ghost visited: set<NodeId>)
      requires store.Ok() && Indexed(store.links, Ids()) && node in Ids()
      requires |b.states| == |store.links| && FlaggedQuiet(b.states, Ids(), b.candidates, b.waiting.Keys)
      requires View(store) == MarkedSoFar(b, node, {})
      requires Visits(tips, visited) && visited <= Ids() && node !in visited
      requires Covered(store.links, bestInvalid, node)
      modifies store`states, `candidates, `unlinkedChildrenOf, `modified, `bestInvalid
      ensures store.Ok() && View(store) == MarkedSoFar(b, node, Reached(store.links, Ids(), node, visited))
      ensures Covered(store.links, bestInvalid, node)
      ensures Covered(store.links, bestInvalid, old(bestInvalid).value)
      ensures TrackedInvalid(node, Reached(store.links, Ids(), node, visited), old(bestInvalid), bestInvalid)
      ensures LeavesCovered(store.links, node, visited, bestInvalid)
    {
      hide Indexed, Tree, MarkedSoFar, FlaggedQuiet, View, Below, Descends, Reached, Path, Visits, HasVisited;
      ghost var links, ix := store.links, Ids();
      ghost var seen: set<NodeId> := {};
      IndexedFacts(links, ix);
      VisitedInRange(tips, visited);
      ReachedNone(links, ix, node);
      for i := 0 to |tips|
        invariant store.Ok() && store.links == links && seen <= visited
        invariant forall n :: n in seen <==> n in tips[..i]
        invariant View(store) == MarkedSoFar(b, node, Reached(links, ix, node, seen))
        invariant Covered(links, bestInvalid, node) && Covered(links, bestInvalid, old(bestInvalid).value)
        invariant TrackedInvalid(node, Reached(links, ix, node, seen), old(bestInvalid), bestInvalid)
        invariant LeavesCovered(links, node, seen, bestInvalid)
      {
        var tip := tips[i];
        assert tips[..i + 1] == tips[..i] + [tip];
        ReachedMore(links, ix, node, seen, tip);
        var below := store.IsAncestorOf(node, tip);
        if below {
          MaybeUpdateBestInvalid(store, tip);
          TipReached(links, ix, node, tip);
          FlagPath(store, node, tip, b, Reached(links, ix, node, seen));
        } else {
          assert Reached(links, ix, node, seen) + {} == Reached(links, ix, node, seen);
        }
        seen := seen + {tip};
      }
      assert tips[..|tips|] == tips;
      AllSeen(tips, visited, seen);
    }

    /** `maybe_update_best_header_for_tip`: afterwards no valid block on the way
        from the tip to the root has more work than the best header. */
    method MaybeUpdateBestHeaderForTip(store: NodeStore, tip: NodeId)
      requires store.Ok() && Indexed(store.links, Ids()) && tip in Ids()
      requires bestHeader.Some? ==> bestHeader.value in Ids() && !store.states[bestHeader.value].status.KnownInvalid()
      modifies `bestHeader
      ensures bestHeader.Some? ==> bestHeader.value in Ids() && !store.states[bestHeader.value].status.KnownInvalid()
      ensures old(bestHeader).Some? ==> Covered(store.links, bestHeader, old(bestHeader).value)
      ensures bestHeader == old(bestHeader) || (bestHeader.Some? && Descends(store.links, bestHeader.value, tip))
      ensures NoWrap(store.links) ==> AncestorsCovered(store.links, store.states, Ids(), bestHeader, tip)
    {
      hide Indexed, Tree, NoWrap, BetterCandidate;
      ghost var links, ix := store.links, Ids();
      IndexedFacts(links, ix);
      var n: Option<NodeId> := Some(tip);
      while n.Some?
        invariant bestHeader == old(bestHeader)
        invariant n.Some? ==> n.value in ix && Descends(links, n.value, tip)
        invariant forall v :: v in ix && Descends(links, v, tip) && !store.states[v].status.KnownInvalid() ==>
                    n.Some? && Descends(links, v, n.value)
        decreases n.Some?, if n.Some? then n.value else 0
      {
        var cur := n.value;
        if NoWrap(links) {
          AncestorsLighter(links, ix, cur);
        }
        if bestHeader.Some? {
          NotBetterWork(links, store.states, cur, bestHeader.value);
        }
        if bestHeader.Some? && !BetterCandidate(store.links, store.states, cur, bestHeader.value) {
          return;
        }
        if !store.states[cur].status.KnownInvalid() {
          bestHeader := Some(cur);
          return;
        }
        ParentOnPath(links, ix, cur, tip);
        n := store.links[cur].parent;
      }
    }

    /** The search for a new best header: the first valid block above the failed
        one, then every tip that is not below it. */
    method FindBestHeader(store: NodeStore, node: NodeId)
      requires IndexOk(store) && TipsHeld(store) && node in Ids() && store.states[node].status.KnownInvalid()
      modifies `bestHeader
      ensures bestHeader.Some? ==> bestHeader.value in Ids()
      ensures NoWrap(store.links) ==> BestOutside(store.links, store.states, Ids(), node, bestHeader)
    {
      hide Indexed, Tree, NoWrap, BestOutside, TipsHeld, Visits, Covered, AncestorsCovered, TipsCovered, Descends;
      hide Leaf, Leaves;
      ghost var links, states, ix := store.links, store.states, Ids();
      IndexedFacts(links, ix);
      bestHeader := FirstValidAbove(store, node);
      var tips := ForEachChainTip(store);
      AllVisited(links, ix, tips);
      NoTipsCovered(links, states, ix, node, bestHeader, tips);
      for i := 0 to |tips|
        invariant bestHeader.Some? ==> bestHeader.value in ix && !states[bestHeader.value].status.KnownInvalid()
        invariant bestHeader.Some? ==> !Descends(links, node, bestHeader.value)
        invariant NoWrap(links) ==> AncestorsCovered(links, states, ix, bestHeader, node)
        invariant NoWrap(links) ==> TipsCovered(links, states, ix, node, bestHeader, tips[..i])
      {
        var below := store.IsAncestorOf(node, tips[i]);
        ghost var was := bestHeader;
        if !below {
          MaybeUpdateBestHeaderForTip(store, tips[i]);
          if bestHeader.Some? && Descends(links, bestHeader.value, tips[i]) {
            NotBelow(links, node, bestHeader.value, tips[i]);
          }
        }
        if NoWrap(links) {
          if !below {
            StillCovered(links, states, ix, was, bestHeader, node);
          }
          CoverTip(links, states, ix, node, was, bestHeader, tips, i);
        }
      }
      assert tips[..|tips|] == tips;
      if NoWrap(links) {
        AllTipsCovered(links, states, ix, node, bestHeader, tips);
        HeaderFound(links, states, ix, node, bestHeader);
      }
    }

    method FirstValidAbove(store: NodeStore, node: NodeId) returns (n: Option<NodeId>)
      requires store.Ok() && Indexed(store.links, Ids()) && node in Ids() && store.states[node].status.KnownInvalid()
      ensures n.Some? ==> n.value in Ids() && !store.states[n.value].status.KnownInvalid()
      ensures n.Some? ==> !Descends(store.links, node, n.value)
      ensures NoWrap(store.links) ==> AncestorsCovered(store.links, store.states, Ids(), n, node)
    {
      hide Indexed, Tree, NoWrap;
      ghost var links, ix := store.links, Ids();
      IndexedFacts(links, ix);
      ParentOnPath(links, ix, node, node);
      n := store.links[node].parent;
      while n.Some? && store.states[n.value].status.KnownInvalid()
        invariant n.Some? ==> n.value in ix && Descends(links, n.value, node) && n.value < node
        invariant forall v :: v in ix && Descends(links, v, node) && !store.states[v].status.KnownInvalid() ==>
                    n.Some? && Descends(links, v, n.value)
        decreases n.Some?, if n.Some? then n.value else 0
      {
        ParentOnPath(links, ix, n.value, node);
        n := store.links[n.value].parent;
      }
      if n.Some? {
        if Descends(links, node, n.value) {
          DescendsUp(links, n.value, node);
        }
        if NoWrap(links) {
          AncestorsLighter(links, ix, n.value);
        }
      }
    }

    /** The first lines of `mark_block_failed_validation`. */
    method MarkNode(store: NodeStore, node: NodeId)
      requires store.Ok() && node < |store.links| && (bestInvalid.Some? ==> bestInvalid.value < |store.links|)
      modifies store`states, `candidates, `unlinkedChildrenOf, `modified, `bestInvalid
      ensures store.Ok() && View(store) == MarkedSoFar(old(View(store)), node, {})
      ensures Covered(store.links, bestInvalid, node)
      ensures old(bestInvalid).Some? ==> Covered(store.links, bestInvalid, old(bestInvalid).value)
      ensures bestInvalid == old(bestInvalid) || bestInvalid == Some(node)
    {
      ghost var b := View(store);
      modified := modified + {node};
      store.states := store.states[node := store.states[node].(status := Failed(store.states[node].status))];
      candidates := candidates - {node};
      MaybeUpdateBestInvalid(store, node);
      unlinkedChildrenOf := unlinkedChildrenOf - {node};
      assert store.states == PartlyMarked(b.states, node, {});
      assert {node} + {} == {node};
    }

    /** The leaves that an iteration from a block visits. */
    ghost function VisitedFrom(store: NodeStore, node: NodeId): set<NodeId>
      requires IndexOk(store) && node < |store.links|
      reads `byHash, `cachedTips, `cachedTipsStart, store
    {
      VisitedAbove(store.links, Leaves(store.links, Ids()), cachedTips, cachedTipsStart, store.links[node].height)
    }

    /** The walk of `mark_block_failed_validation`. */
    method MarkTree(store: NodeStore, node: NodeId)
      requires IndexOk(store) && TipsHeld(store) && QuietOk(store) && HeadersIn() && node in Ids()
      modifies store`states, `candidates, `unlinkedChildrenOf, `modified, `bestInvalid
      ensures IndexOk(store) && bestInvalid.Some? && bestInvalid.value in Ids()
      ensures var reached := Reached(store.links, Ids(), node, VisitedFrom(store, node));
              && View(store) == MarkedSoFar(old(View(store)), node, reached)
              && (NoWrap(store.links) && BestInvalid(store.links, old(store.states), Ids(), old(bestInvalid)) ==>
                    BestInvalid(store.links, PartlyMarked(old(store.states), node, reached), Ids(), bestInvalid))
    {
      hide Indexed, Tree, NoWrap, TipsAre, CacheHolds, BestInvalid, BooksQuiet, VisitedAbove, FlaggedQuiet;
      hide Reached, Leaves, Visits, PartlyMarked, TrackedInvalid, LeavesCovered;
      ghost var links, ix, b, invalid := store.links, Ids(), View(store), bestInvalid;
      ghost var visited := VisitedFrom(store, node);
      IndexedFacts(links, ix);
      QuietPart(links, ix, LinkBooks(b.states, b.candidates, b.waiting, 0));
      VisitedBounds(links, ix, cachedTips, cachedTipsStart, node);
      MarkNode(store, node);
      ghost var mid := bestInvalid;
      var tips := ForEachChainTipAfterHeight(store, node);
      FlagDescendants(store, node, tips, b, visited);
      TrackedThrough(links, ix, node, visited, invalid, mid, bestInvalid);
      if NoWrap(links) && BestInvalid(links, b.states, ix, invalid) {
        InvalidCovered(links, b.states, ix, node, visited, invalid, bestInvalid);
      }
    }

    /** The part of `mark_block_failed_validation` before the best header. */
    method MarkBelow(store: NodeStore, node: NodeId)
      requires IndexOk(store) && TipsHeld(store) && QuietOk(store) && HeadersIn() && node in Ids()
      modifies store`states, `candidates, `unlinkedChildrenOf, `modified, `bestInvalid
      ensures IndexOk(store) && TipsHeld(store) && QuietOk(store) && HeadersIn()
      ensures old(TipsOk(store)) ==> TipsOk(store)
      ensures View(store) ==
              MarkedSoFar(old(View(store)), node, Reached(store.links, Ids(), node, VisitedFrom(store, node)))
      ensures store.states ==
              PartlyMarked(old(store.states), node, Reached(store.links, Ids(), node, VisitedFrom(store, node)))
      ensures store.states[node].status.KnownInvalid()
      ensures FlagsOk(store) <==>
                AllReached(store.links, old(store.states), Ids(), node, VisitedFrom(store, node))
      ensures store.states == Marked(store.links, old(store.states), Ids(), node) <==>
                forall d :: d in Below(store.links, Ids(), node) && !old(store.states)[d].status.invalidAncestor ==>
                  d in Reached(store.links, Ids(), node, VisitedFrom(store, node))
      ensures NoWrap(store.links) && BestInvalid(store.links, old(store.states), Ids(), old(bestInvalid)) ==>
                BestInvalid(store.links, store.states, Ids(), bestInvalid)
      ensures old(CandidatesOk(store)) ==> CandidatesOk(store)
      ensures old(LinkedOk(store)) ==> LinkedOk(store)
      ensures var reached := Reached(store.links, Ids(), node, VisitedFrom(store, node));
              && MarkedFields(old(store.states), store.states, node, reached)
              && candidates == old(candidates) - ({node} + reached)
              && unlinkedChildrenOf == old(unlinkedChildrenOf) - ({node} + reached)
              && modified == old(modified) + {node} +
                   (set n | n in reached && n < |old(store.states)| && !old(store.states)[n].status.invalidAncestor)
    {
      hide Indexed, Tree, NoWrap, TipsAre, CacheHolds, CacheCovers, BestInvalid, FlagsClosed, BooksQuiet;
      hide Marked, Below, Reached, Leaves, PartlyMarked, CandidatesValid, VisitedAbove, AllReached, LinkageOk;
      hide MarkedFields;
      ghost var links, ix, b, visited := store.links, Ids(), View(store), VisitedFrom(store, node);
      MarkTree(store, node);
      MarkedBooks(links, b, ix, node, visited);
      NodeUnreached(links, ix, node, visited);
      PartlyMarkedFields(b.states, node, Reached(links, ix, node, visited));
      if LinkageOk(links, ix, b.states, b.waiting) {
        MarkedLinked(links, ix, b, node, Reached(links, ix, node, visited));
      }
      if CandidatesValid(b.states, b.candidates) {
        MarkedCandidatesValid(links, b, ix, node, Reached(links, ix, node, visited));
      }
    }

    /** The best header's part of `mark_block_failed_validation`. */
    method RefreshBestHeader(store: NodeStore, node: NodeId, ghost was: States, ghost visited: set<NodeId>)
      requires IndexOk(store) && TipsHeld(store) && node in Ids() && |was| == |store.links|
      requires bestHeader.Some? ==> bestHeader.value in Ids()
      requires store.states == PartlyMarked(was, node, Reached(store.links, Ids(), node, visited))
      requires store.states[node].status.KnownInvalid()
      modifies `bestHeader
      ensures bestHeader.Some? ==> bestHeader.value in Ids()
      ensures NoWrap(store.links) && BestHeader(store.links, was, Ids(), old(bestHeader)) ==>
                (BestHeader(store.links, store.states, Ids(), bestHeader) <==>
                 HeaderKept(store.links, was, Ids(), node, visited, old(bestHeader)))
    {
      hide Indexed, Tree, NoWrap, TipsHeld, BestHeader, Reached, PartlyMarked, BestOutside, HeaderKept;
      ghost var links, ix, header := store.links, Ids(), bestHeader;
      IndexedFacts(links, ix);
      if bestHeader.Some? && store.states[bestHeader.value].status.KnownInvalid() {
        FindBestHeader(store, node);
      }
      if NoWrap(links) && BestHeader(links, was, ix, header) {
        HeaderExactly(links, was, ix, node, visited, header, bestHeader);
      }
    }

    /** `mark_block_failed_validation`: the block is marked failed; exactly its
        proper descendants with a visited leaf at or below them are flagged; it
        and they leave the candidate set and the waiting map; every other status
        stays. The flags are closed, and the tracked headers right again, exactly
        when the leaves visited suffice, as they do from a complete cache. */
    method MarkBlockFailedValidation(store: NodeStore, node: NodeId)
      requires IndexOk(store) && TipsHeld(store) && QuietOk(store) && HeadersIn() && node in Ids()
      modifies store`states, `candidates, `unlinkedChildrenOf, `modified, `bestInvalid, `bestHeader
      ensures IndexOk(store) && TipsHeld(store) && QuietOk(store) && HeadersIn()
      ensures old(TipsOk(store)) ==> TipsOk(store)
      ensures View(store) ==
              MarkedSoFar(old(View(store)), node, Reached(store.links, Ids(), node, VisitedFrom(store, node)))
      ensures store.states == Marked(store.links, old(store.states), Ids(), node) <==>
                forall d :: d in Below(store.links, Ids(), node) && !old(store.states)[d].status.invalidAncestor ==>
                  d in Reached(store.links, Ids(), node, VisitedFrom(store, node))
      ensures FlagsOk(store) <==>
                AllReached(store.links, old(store.states), Ids(), node, VisitedFrom(store, node))
      ensures NoWrap(store.links) && old(HeadersOk(store)) ==>
                && BestInvalid(store.links, store.states, Ids(), bestInvalid)
                && (BestHeader(store.links, store.states, Ids(), bestHeader) <==>
                    HeaderKept(store.links, old(store.states), Ids(), node, VisitedFrom(store, node), old(bestHeader)))
      ensures old(TipsOk(store)) ==>
                Reached(store.links, Ids(), node, VisitedFrom(store, node)) == Below(store.links, Ids(), node)
      ensures old(TipsOk(store)) && old(FlagsOk(store)) ==> FlagsOk(store)
      ensures old(TipsOk(store)) && old(HeadersOk(store)) && NoWrap(store.links) ==> HeadersOk(store)
      ensures old(CandidatesOk(store)) ==> CandidatesOk(store)
      ensures old(LinkedOk(store)) ==> LinkedOk(store)
      ensures var reached := Reached(store.links, Ids(), node, VisitedFrom(store, node));
              && MarkedFields(old(store.states), store.states, node, reached)
              && candidates == old(candidates) - ({node} + reached)
              && unlinkedChildrenOf == old(unlinkedChildrenOf) - ({node} + reached)
              && modified == old(modified) + {node} +
                   (set n | n in reached && n < |old(store.states)| && !old(store.states)[n].status.invalidAncestor)
    {
      hide Indexed, Tree, NoWrap, TipsHeld, CacheCovers, BestHeader, BestInvalid, FlagsClosed, QuietOk, BooksQuiet;
      hide Marked, Below, Reached, Leaves, PartlyMarked, CandidatesOk, VisitedAbove, AllReached, HeaderKept;
      hide MarkedSoFar, MarkedFields, LinkedOk;
      ghost var links, ix, was, visited := store.links, Ids(), store.states, VisitedFrom(store, node);
      ghost var header := bestHeader;
      if CacheCovers(links, Leaves(links, ix), cachedTips, cachedTipsStart) {
        CompleteReaches(links, was, ix, node, cachedTips, cachedTipsStart, header);
      }
      MarkBelow(store, node);
      RefreshBestHeader(store, node, was, visited);
    }

    ghost function LinkView(store: NodeStore): LinkBooks
      reads `candidates, `unlinkedChildrenOf, `nextReceivedOrderId, store`states
    {
      LinkBooks(store.states, candidates, unlinkedChildrenOf, nextReceivedOrderId)
    }

    /** One step of `link_block_data`: the block is linked, may become a
        candidate, and hands over the children that waited for it. */
    method LinkNode(store: NodeStore, n: NodeId, tipWork: nat) returns (children: seq<NodeId>)
      requires store.Ok() && n < |store.links|
      modifies store`states, `candidates, `unlinkedChildrenOf, `nextReceivedOrderId
      ensures store.states == old(store.states)[
                n := old(store.states)[n].(isFullyLinked := true, receivedOrderId := old(nextReceivedOrderId))]
      ensures nextReceivedOrderId == (old(nextReceivedOrderId) + 1) % U32
      ensures candidates == old(candidates) + (if store.links[n].workSum >= tipWork then {n} else {})
      ensures unlinkedChildrenOf == old(unlinkedChildrenOf) - {n}
      ensures children == if n in old(unlinkedChildrenOf) then old(unlinkedChildrenOf)[n] else []
    {
      var state := store.states[n];
      store.states := store.states[n := state.(isFullyLinked := true, receivedOrderId := nextReceivedOrderId)];
      nextReceivedOrderId := (nextReceivedOrderId + 1) % U32;
      if store.links[n].workSum >= tipWork {
        candidates := candidates + {n};
      }
      children := [];
      if n in unlinkedChildrenOf {
        children := unlinkedChildrenOf[n];
        unlinkedChildrenOf := unlinkedChildrenOf - {n};
      }
    }

    /** `link_block_data`: the breadth-first walk over waiting children. */
    method LinkBlockData(store: NodeStore, node: NodeId, tip: NodeId) returns (linked: seq<NodeId>)
      requires store.Ok() && Indexed(store.links, Ids()) && WaitingOk(store.links, Ids(), unlinkedChildrenOf)
      requires node in Ids() && tip < |store.links| && nextReceivedOrderId < U32
      modifies store`states, `candidates, `unlinkedChildrenOf, `nextReceivedOrderId
      ensures store.Ok() && WaitingOk(store.links, Ids(), unlinkedChildrenOf)
      ensures forall k :: 0 <= k < |linked| ==> linked[k] in Ids()
      ensures LinkOutcome(store.links, old(LinkView(store)), node, store.links[tip].workSum, linked, LinkView(store))
    {
      hide Indexed, Tree, WaitingOk, Distinct, ParentsFirst, ChildrenListed, LinkedStates, WaitsFor, Members, Gained;
      ghost var links, ix, waiting := store.links, Ids(), unlinkedChildrenOf;
      ghost var was, start := store.states, nextReceivedOrderId;
      var tipWork := store.links[tip].workSum;
      IndexedFacts(links, ix);
      linked := [node];
      var i := 0;
      LinkStart(links, waiting, was, start, node);
      while i < |linked|
        invariant i <= |linked| && linked != [] && linked[0] == node && store.Ok() && store.links == links
        invariant Distinct(linked) && forall k :: 0 <= k < |linked| ==> linked[k] in ix
        invariant ParentsFirst(links, waiting, linked, i) && ChildrenListed(waiting, linked, i)
        invariant LinkedStates(was, linked[..i], start, store.states)
        invariant nextReceivedOrderId == (start + i) % U32
        invariant unlinkedChildrenOf == waiting - Members(linked[..i])
        invariant candidates == old(candidates) + Gained(links, linked[..i], tipWork)
        decreases |ix| - i
      {
        assert linked + [] == linked;
        DistinctCount(linked, ix);
        var n := linked[i];
        LinkOne(was, linked, i, start, store.states);
        MembersGrow(links, linked, i, tipWork);
        ListChildren(links, ix, waiting, linked, i);
        StillWaiting(waiting, linked, i);
        NextId(start, i);
        ghost var sofar := linked[..i + 1];
        var unlinked := LinkNode(store, n, tipWork);
        linked := linked + unlinked;
        assert linked[..i + 1] == sofar;
        i := i + 1;
      }
      assert linked[..|linked|] == linked;
      LinkedExactly(links, waiting, linked);
      RestWaits(links, ix, waiting, Members(linked));
    }

    /** `can_validate`. */
    predicate CanValidate(store: NodeStore, node: NodeId)
      requires node < |store.states|
      reads store
    {
      store.states[node].isFullyLinked && store.states[node].status.dataStored
    }

    /** `set_status_flags` with the flag for stored data. */
    method SetDataStored(store: NodeStore, node: NodeId)
      requires IndexOk(store) && node in Ids()
      modifies store`states, `modified
      ensures IndexOk(store) && |store.states| == |old(store.states)| && node < |store.states|
      ensures var was := old(store.states)[node];
              store.states == old(store.states)[node := was.(status := was.status.(dataStored := true))]
      ensures (old(QuietOk(store)) ==> QuietOk(store)) && (old(FlagsOk(store)) ==> FlagsOk(store))
      ensures old(HeadersOk(store)) ==> HeadersOk(store)
      ensures old(LinkedOk(store)) ==> LinkedOk(store)
      ensures modified == old(modified) + {node}
    {
      hide Indexed, Tree, BooksQuiet, FlagsClosed, BestHeader, BestInvalid, LinkageOk;
      IndexedFacts(store.links, Ids());
      DataKeeps(store.links, store.states, Ids(), node, candidates, unlinkedChildrenOf, bestHeader, bestInvalid);
      modified := modified + {node};
      var state := store.states[node];
      store.states := store.states[node := state.(status := state.status.(dataStored := true))];
    }

    /** No candidate is known to be invalid. */
    ghost predicate CandidatesOk(store: NodeStore)
      reads `candidates, store
    {
      CandidatesValid(store.states, candidates)
    }

    /** `accept_block_data`: when the parent can be validated, the block and all
        that waits for it are linked; otherwise the block waits under its parent,
        unless that is known to be invalid. A block known to be invalid becomes
        a candidate exactly when one that waited is heavy enough. */
    method AcceptBlockData(store: NodeStore, node: NodeId, tip: NodeId) returns (linked: seq<NodeId>)
      requires IndexOk(store) && QuietOk(store)
      requires node in Ids() && tip < |store.links| && nextReceivedOrderId < U32
      requires store.links[node].parent.Some?
      requires store.links[node].parent.value in unlinkedChildrenOf ==>
                 node !in unlinkedChildrenOf[store.links[node].parent.value]
      modifies store`states, `candidates, `unlinkedChildrenOf, `nextReceivedOrderId
      ensures IndexOk(store) && (old(HeadersOk(store)) ==> HeadersOk(store))
      ensures store.links[node].parent.value < |store.links| == |old(store.states)|
      ensures var parent := old(store.states)[store.links[node].parent.value];
              if parent.isFullyLinked && parent.status.dataStored
              then
                LinkOutcome(store.links, old(LinkView(store)), node, store.links[tip].workSum, linked, LinkView(store))
              else
                var p, was := store.links[node].parent.value, old(unlinkedChildrenOf);
                && linked == [] && store.states == old(store.states) && candidates == old(candidates)
                && nextReceivedOrderId == old(nextReceivedOrderId)
                && unlinkedChildrenOf ==
                   if parent.status.KnownInvalid() then was
                   else was[p := (if p in was then was[p] else []) + [node]]
      ensures FlagsClosed(store.links, store.states, Ids()) <==> old(FlagsOk(store))
      ensures var parent := old(store.states)[store.links[node].parent.value];
              QuietOk(store) <==>
                || !old(store.states)[node].status.invalidAncestor
                || (if parent.isFullyLinked && parent.status.dataStored
                    then store.links[node].workSum < store.links[tip].workSum
                    else parent.status.KnownInvalid())
      ensures var parent := old(store.states)[store.links[node].parent.value];
              old(CandidatesOk(store)) ==>
                (CandidatesOk(store) <==>
                 (parent.isFullyLinked && parent.status.dataStored ==>
                    forall d: NodeId ::
                      !InvalidWaiter(store.links, old(LinkView(store)), node, store.links[tip].workSum, d)))
      ensures old(LinkedOk(store)) && old(store.states)[node].status.dataStored ==>
                LinkedOk(store) && DataBelow(store.links, store.states, linked)
    {
      hide Tree, Indexed, BooksQuiet, FlagsClosed, LinkOutcome, BestHeader, BestInvalid, CandidatesValid, InvalidWaiter;
      hide LinkageOk, DataBelow;
      ghost var links, ix, was := store.links, Ids(), LinkView(store);
      IndexedFacts(links, ix);
      BooksWaiting(links, ix, was.(nextId := 0));
      var parent := store.links[node].parent.value;
      WaitOutcomeOk(links, ix, was.(nextId := 0), parent, node);
      if CanValidate(store, parent) {
        linked := LinkBlockData(store, node, tip);
        ghost var now := LinkView(store);
        LinkedBooks(links, ix, was, node, links[tip].workSum, linked, now);
        if BestHeader(links, was.states, ix, bestHeader) && BestInvalid(links, was.states, ix, bestInvalid) {
          LinkedHeaders(links, ix, was, node, links[tip].workSum, linked, now, bestHeader, bestInvalid);
        }
        if CandidatesValid(was.states, was.candidates) {
          CandidatesStayValid(links, was, node, links[tip].workSum, linked, now);
        }
        if LinkageOk(links, ix, was.states, was.waiting) && was.states[node].status.dataStored {
          LinkKeepsLinkage(links, ix, was, node, links[tip].workSum, linked, now);
          AllDataBelow(links, ix, now.states, now.waiting, linked);
        }
        return;
      }
      linked := [];
      NoneLinked(links, was.states);
      if LinkageOk(links, ix, was.states, was.waiting) && was.states[node].status.dataStored {
        WaitKeepsLinkage(links, ix, was, parent, node);
      }
      if !store.states[parent].status.KnownInvalid() {
        var children := if parent in unlinkedChildrenOf then unlinkedChildrenOf[parent] else [];
        unlinkedChildrenOf := unlinkedChildrenOf[parent := children + [node]];
      }
    }

    /** `remove_best_chain_candidates_from`. */
    method RemoveBestChainCandidatesFrom(store: NodeStore, node: NodeId)
      requires store.Ok() && node < |store.links| && forall n :: n in candidates ==> n < |store.links|
      modifies `candidates
      ensures candidates == set n | n in old(candidates) && n < |store.links| && !Descends(store.links, node, n)
    {
      hide Descends;
      var left := candidates;
      var kept: set<NodeId> := {};
      ghost var was := candidates;
      while left != {}
        invariant left <= was
        invariant kept == set n | n in was - left && n < |store.links| && !Descends(store.links, node, n)
        decreases left
      {
        var n :| n in left;
        var below := store.IsAncestorOf(node, n);
        if !below {
          kept := kept + {n};
        }
        left := left - {n};
      }
      candidates := kept;
    }

    /** `find_best_chain_candidate`: the one candidate better than all others,
        whatever order the set is walked in. */
    method FindBestChainCandidate(store: NodeStore) returns (best: Option<NodeId>)
      requires store.Ok() && Indexed(store.links, Ids()) && candidates <= Ids()
      ensures best.None? <==> candidates == {}
      ensures best.Some? ==> best.value in candidates && best.value < |store.links|
      ensures best.Some? ==> forall n :: n in candidates && n != best.value ==>
                n < |store.links| && BetterCandidate(store.links, store.states, best.value, n)
      ensures best.Some? && CandidatesOk(store) ==> !store.states[best.value].status.KnownInvalid()
      ensures best.Some? ==> forall n :: n in candidates ==>
                n < |store.links| && FirstChoice(store.links, store.states, best.value, n)
    {
      hide BetterCandidate, FirstChoice, Tree;
      best := None;
      var left := candidates;
      while left != {}
        invariant left <= candidates
        invariant best.None? <==> left == candidates
        invariant best.Some? ==> best.value in candidates - left && best.value < |store.links|
        invariant best.Some? ==> forall n :: n in candidates - left && n != best.value ==>
                    n < |store.links| && BetterCandidate(store.links, store.states, best.value, n)
        decreases left
      {
        var node :| node in left;
        if best.Some? {
          var b := best.value;
          BetterTotal(store.links, store.states, node, b);
          if BetterCandidate(store.links, store.states, node, b) {
            forall n | n in candidates - left && n != b
              ensures BetterCandidate(store.links, store.states, node, n)
            {
              BetterTransitive(store.links, store.states, node, b, n);
            }
            best := Some(node);
          }
        } else {
          best := Some(node);
        }
        left := left - {node};
      }
      if best.Some? {
        forall n | n in candidates
          ensures n < |store.links| && FirstChoice(store.links, store.states, best.value, n)
        {
          BestChosen(store.links, store.states, best.value, n);
        }
      }
    }

    /** A new header under an indexed, valid parent: the node is made and added,
        as header processing does it. */
    method AddHeader(store: NodeStore, bits: Bits, hash: Hash, parent: NodeId) returns (node: NodeId)
      requires IndexOk(store) && TipsHeld(store) && QuietOk(store) && HeadersIn()
      requires parent in Ids() && !store.states[parent].status.KnownInvalid() && hash !in byHash
      modifies store, `byHash, `totalTips, `cachedTips, `chainTips, `bestHeader, `modified
      ensures IndexOk(store) && TipsHeld(store) && QuietOk(store) && HeadersIn()
      ensures old(TipsOk(store)) ==> TipsOk(store)
      ensures old(FlagsOk(store)) ==> FlagsOk(store)
      ensures old(HeadersOk(store)) ==> HeadersOk(store)
      ensures old(LinkedOk(store)) ==> LinkedOk(store)
      ensures node == |old(store.links)| && Ids() == old(Ids()) + {node} && byHash == old(byHash)[hash := node]
      ensures |store.links| == node + 1 && store.links[..node] == old(store.links)
      ensures store.links[node].parent == Some(parent) && store.links[node].hash == hash
      ensures store.links[node].bits == bits
      ensures store.states == old(store.states) + [NodeState(NONE, false, 0)]
    {
      hide Tree, TipsAre, CacheHolds, CacheCovers, BooksQuiet, FlagsClosed, BestHeader, BestInvalid, Leaves, CanAdd;
      hide Indexed, WellLinked, LinkageOk;
      ghost var links, states, ix := store.links, store.states, Ids();
      IndexedFacts(links, ix);
      node := store.InitNode(bits, store.links[parent].height + 1, hash, Some(parent));
      ghost var n := store.links[node];
      assert store.links == links + [n] by { assert store.links == store.links[..node] + [n]; }
      Extended(links, n, states, NodeState(NONE, false, 0), ix, chainTips, cachedTips, cachedTipsStart, candidates,
               unlinkedChildrenOf, bestHeader, bestInvalid);
      assert CanAdd(store.links, store.states, Ids(), node) by { NewNodeCanAdd(links, n, states, ix, byHash, parent); }
      AddNode(store, node);
    }

    /** `add_node_from_db`: a stored node, in any status, joins the index; with
        its data and not linked it waits under its parent, and one known to be
        invalid competes for the best invalid block. */
    method AddNodeFromDb(store: NodeStore, node: NodeId)
      requires IndexOk(store) && TipsHeld(store) && QuietOk(store) && HeadersIn()
      requires CanAdd(store.links, store.states, Ids(), node)
      modifies `byHash, `totalTips, `cachedTips, `chainTips, `bestHeader, `bestInvalid, `unlinkedChildrenOf
      ensures IndexOk(store) && TipsHeld(store) && HeadersIn() && (old(TipsOk(store)) ==> TipsOk(store))
      ensures QuietOk(store) <==> LoadsQuiet(store.links, store.states, node)
      ensures FlagsClosed(store.links, store.states, Ids()) <==>
                old(FlagsOk(store)) && AddsClosed(store.links, store.states, node)
      ensures old(HeadersOk(store)) ==> HeadersOk(store)
      ensures LinkedOk(store) <==> old(LinkedOk(store)) && AddsLinked(store.links, store.states, node)
      ensures Ids() == old(Ids()) + {node}
      ensures var n, t := store.links[node], store.states[node];
              n.parent.Some? ==> n.parent.value < |store.states|
      ensures var n, t := store.links[node], store.states[node];
              unlinkedChildrenOf ==
              if && n.parent.Some? && !store.states[n.parent.value].status.KnownInvalid()
                 && !t.isFullyLinked && t.status.dataStored
              then
                var p, was := n.parent.value, old(unlinkedChildrenOf);
                was[p := (if p in was then was[p] else []) + [node]]
              else old(unlinkedChildrenOf)
    {
      hide TipsAre, CacheHolds, CacheCovers, BooksQuiet, FlagsClosed, BestHeader, BestInvalid, CanAdd, Indexed, Tree;
      hide Leaves, LinkageOk, AddsLinked, AddsQuiet, AddsClosed, LoadsQuiet, LoadedWaiting;
      ghost var ix, was := Ids(), LinkBooks(store.states, candidates, unlinkedChildrenOf, 0);
      IndexedFacts(store.links, ix);
      CanAddIndexed(store.links, store.states, ix, node);
      AddNodeUnmarked(store, node);
      LoadedBooks(store.links, ix, was, node);
      LoadedLinked(store.links, Ids(), store.states, unlinkedChildrenOf, node);
      FileLoaded(store, node, ix);
    }

    /** What `add_node_from_db` does beyond adding the node. */
    method FileLoaded(store: NodeStore, node: NodeId, ghost ix: set<NodeId>)
      requires store.Ok() && node < |store.links| && forall n :: n in ix ==> n < |store.links|
      requires store.links[node].parent.Some? ==> store.links[node].parent.value < |store.links|
      requires bestInvalid.Some? ==> bestInvalid.value in ix
      modifies `unlinkedChildrenOf, `bestInvalid
      ensures bestInvalid.Some? ==> bestInvalid.value in ix + {node}
      ensures BestInvalid(store.links, store.states, ix, old(bestInvalid)) ==>
                BestInvalid(store.links, store.states, ix + {node}, bestInvalid)
      ensures unlinkedChildrenOf == LoadedWaiting(store.links, store.states, old(unlinkedChildrenOf), node)
      ensures var n, t := store.links[node], store.states[node];
              unlinkedChildrenOf ==
              if && n.parent.Some? && !store.states[n.parent.value].status.KnownInvalid()
                 && !t.isFullyLinked && t.status.dataStored
              then
                var p, was := n.parent.value, old(unlinkedChildrenOf);
                was[p := (if p in was then was[p] else []) + [node]]
              else old(unlinkedChildrenOf)
    {
      hide BestInvalid, Tree;
      WaitUnlessLinked(store, node);
      TrackInvalid(store, node, ix);
    }

    /** The best invalid block's part of `add_node_from_db`. */
    method TrackInvalid(store: NodeStore, node: NodeId, ghost ix: set<NodeId>)
      requires store.Ok() && node < |store.links| && forall n :: n in ix ==> n < |store.links|
      requires bestInvalid.Some? ==> bestInvalid.value in ix
      modifies `bestInvalid
      ensures bestInvalid.Some? ==> bestInvalid.value in ix + {node}
      ensures BestInvalid(store.links, store.states, ix, old(bestInvalid)) ==>
                BestInvalid(store.links, store.states, ix + {node}, bestInvalid)
    {
      hide BestInvalid, Tree;
      ghost var invalid := bestInvalid;
      if store.states[node].status.KnownInvalid() {
        MaybeUpdateBestInvalid(store, node);
      }
      if BestInvalid(store.links, store.states, ix, invalid) {
        InvalidAdded(store.links, store.states, ix, node, invalid, bestInvalid);
      }
    }

    /** The waiting children's part of `add_node_from_db`. */
    method WaitUnlessLinked(store: NodeStore, node: NodeId)
      requires store.Ok() && node < |store.links|
      requires store.links[node].parent.Some? ==> store.links[node].parent.value < |store.links|
      modifies `unlinkedChildrenOf
      ensures unlinkedChildrenOf == LoadedWaiting(store.links, store.states, old(unlinkedChildrenOf), node)
    {
      var n, t := store.links[node], store.states[node];
      if n.parent.None? {
        return;
      }
      var p := n.parent.value;
      if !t.isFullyLinked && t.status.dataStored && !store.states[p].status.KnownInvalid() {
        var children := if p in unlinkedChildrenOf then unlinkedChildrenOf[p] else [];
        unlinkedChildrenOf := unlinkedChildrenOf[p := children + [node]];
      }
    }

    method MaybeUpdateBestInvalid(store: NodeStore, node: NodeId)
      requires store.Ok() && node < |store.links|
      requires bestInvalid.Some? ==> bestInvalid.value < |store.links|
      modifies `bestInvalid
      ensures bestInvalid.Some? && bestInvalid.value < |store.links|
      ensures store.links[node].workSum <= store.links[bestInvalid.value].workSum
      ensures old(bestInvalid).Some? ==>
                store.links[old(bestInvalid).value].workSum <= store.links[bestInvalid.value].workSum
      ensures bestInvalid == old(bestInvalid) || bestInvalid == Some(node)
    {
      hide BetterCandidate;
      var better := bestInvalid.None? || BetterCandidate(store.links, store.states, node, bestInvalid.value);
      if bestInvalid.Some? {
        NotBetterWork(store.links, store.states, node, bestInvalid.value);
      }
      if better {
        bestInvalid := Some(node);
      }
    }
  }

  /** What the callers of `add_node` guarantee: a new node under a new hash, its
      parent indexed. */
  ghost predicate CanAdd(links: Links, states: States, ix: set<NodeId>, node: NodeId)
  {
    && |links| == |states| && node < |links| && node !in ix
    && (links[node].parent.Some? ==> links[node].parent.value in ix)
    && (forall n :: n in ix ==> n < |links| && links[n].hash != links[node].hash)
  }

  /** A flagged node that is added is not validated. */
  ghost predicate AddsQuiet(states: States, node: NodeId)
    requires node < |states|
  {
    states[node].status.invalidAncestor ==> !states[node].status.validated
  }

  /** A node added under a parent known to be invalid is flagged. */
  ghost predicate AddsClosed(links: Links, states: States, node: NodeId)
    requires node < |links| == |states| && (links[node].parent.Some? ==> links[node].parent.value < |links|)
  {
    links[node].parent.Some? && states[links[node].parent.value].status.KnownInvalid() ==>
      states[node].status.invalidAncestor
  }

  /** A loaded node waits: it has its data, is not linked, and its parent is not
      known to be invalid. */
  ghost predicate WaitsLoaded(links: Links, states: States, node: NodeId)
    requires node < |links| == |states| && (links[node].parent.Some? ==> links[node].parent.value < |links|)
  {
    && links[node].parent.Some? && !states[links[node].parent.value].status.KnownInvalid()
    && !states[node].isFullyLinked && states[node].status.dataStored
  }

  /** A flagged node that is loaded is not validated and does not wait. */
  ghost predicate LoadsQuiet(links: Links, states: States, node: NodeId)
    requires node < |links| == |states| && (links[node].parent.Some? ==> links[node].parent.value < |links|)
  {
    states[node].status.invalidAncestor ==> !states[node].status.validated && !WaitsLoaded(links, states, node)
  }

  ghost function LoadedWaiting(links: Links, states: States, waiting: Waiting, node: NodeId): Waiting
    requires node < |links| == |states| && (links[node].parent.Some? ==> links[node].parent.value < |links|)
  {
    if WaitsLoaded(links, states, node) then
      var p := links[node].parent.value;
      waiting[p := (if p in waiting then waiting[p] else []) + [node]]
    else waiting
  }

  lemma CanAddIndexed(links: Links, states: States, ix: set<NodeId>, node: NodeId)
    requires Indexed(links, ix) && CanAdd(links, states, ix, node)
    ensures node < |links| == |states| && node !in ix && Indexed(links, ix + {node})
    ensures links[node].parent.Some? ==> links[node].parent.value in ix && links[node].parent.value < |links|
  {}

  /** What an addition does to the flags: the node's own decide. */
  lemma CanAddFlags(links: Links, ix: set<NodeId>, b: LinkBooks, node: NodeId)
    requires |links| == |b.states| && Indexed(links, ix) && CanAdd(links, b.states, ix, node)
    requires BooksQuiet(links, ix, b)
    ensures Indexed(links, ix + {node}) && (links[node].parent.Some? ==> links[node].parent.value < |links|)
    ensures BooksQuiet(links, ix + {node}, b) <==> AddsQuiet(b.states, node)
    ensures FlagsClosed(links, b.states, ix + {node}) <==>
              FlagsClosed(links, b.states, ix) && AddsClosed(links, b.states, node)
  {
    hide WaitingOk, WaitingQuiet;
    WaitingInLarger(links, ix, b.waiting, node);
    NewNotWaiting(links, ix, b.waiting, node);
    assert node in ix + {node};
  }

  /** A node added as linked has a linked parent that has its data. */
  ghost predicate AddsLinked(links: Links, states: States, node: NodeId)
    requires node < |links| == |states| && (links[node].parent.Some? ==> links[node].parent.value < |links|)
  {
    states[node].isFullyLinked && links[node].parent.Some? ==>
      states[links[node].parent.value].isFullyLinked && states[links[node].parent.value].status.dataStored
  }

  lemma CanAddLinked(links: Links, ix: set<NodeId>, states: States, waiting: Waiting, node: NodeId)
    requires |links| == |states| && Indexed(links, ix) && CanAdd(links, states, ix, node)
    ensures Indexed(links, ix + {node}) && (links[node].parent.Some? ==> links[node].parent.value < |links|)
    ensures LinkageOk(links, ix + {node}, states, waiting) <==>
              LinkageOk(links, ix, states, waiting) && AddsLinked(links, states, node)
  {
    assert node in ix + {node};
  }

  /** A loaded node waits only with its data. */
  lemma LoadedLinked(links: Links, ix: set<NodeId>, states: States, waiting: Waiting, node: NodeId)
    requires |links| == |states| && Indexed(links, ix) && node in ix
    ensures links[node].parent.Some? ==> links[node].parent.value < |links|
    ensures LinkageOk(links, ix, states, LoadedWaiting(links, states, waiting, node)) <==>
              LinkageOk(links, ix, states, waiting)
  {
    var more := LoadedWaiting(links, states, waiting, node);
    if WaitersHaveData(states, more) {
      forall p | p in waiting
        ensures forall c :: c in waiting[p] ==> c < |states| && states[c].status.dataStored
      {
        assert forall c :: c in waiting[p] ==> c in more[p];
      }
    }
  }

  lemma LoadedBooks(links: Links, ix: set<NodeId>, b: LinkBooks, node: NodeId)
    requires |links| == |b.states| && Indexed(links, ix) && CanAdd(links, b.states, ix, node)
    requires BooksQuiet(links, ix, b)
    ensures Indexed(links, ix + {node}) && (links[node].parent.Some? ==> links[node].parent.value < |links|)
    ensures BooksQuiet(links, ix + {node}, b.(waiting := LoadedWaiting(links, b.states, b.waiting, node))) <==>
              LoadsQuiet(links, b.states, node)
  {
    hide Indexed, BooksQuiet;
    CanAddIndexed(links, b.states, ix, node);
    CanAddFlags(links, ix, b, node);
    QuietWaiting(links, ix, b);
    NewNotWaiting(links, ix, b.waiting, node);
    if !AddsQuiet(b.states, node) {
      NotQuiet(links, ix + {node}, b.(waiting := LoadedWaiting(links, b.states, b.waiting, node)), node);
    } else if WaitsLoaded(links, b.states, node) {
      WaitOutcomeOk(links, ix + {node}, b, links[node].parent.value, node);
    }
  }

  lemma NotQuiet(links: Links, ix: set<NodeId>, b: LinkBooks, node: NodeId)
    requires |links| == |b.states| && (forall n :: n in ix ==> n < |links|) && node in ix && !AddsQuiet(b.states, node)
    ensures !BooksQuiet(links, ix, b)
  {}

  lemma QuietWaiting(links: Links, ix: set<NodeId>, b: LinkBooks)
    requires |links| == |b.states| && (forall n :: n in ix ==> n < |links|) && BooksQuiet(links, ix, b)
    ensures WaitingOk(links, ix, b.waiting)
  {}

  lemma QuietPart(links: Links, ix: set<NodeId>, b: LinkBooks)
    requires |links| == |b.states| && (forall n :: n in ix ==> n < |links|) && BooksQuiet(links, ix, b)
    ensures FlaggedQuiet(b.states, ix, b.candidates, b.waiting.Keys)
  {}

  lemma NewHash(links: Links, ix: set<NodeId>, byHash: map<Hash, NodeId>, node: NodeId)
    requires Indexed(links, ix + {node}) && node !in ix && ix == byHash.Values
    requires forall h :: h in byHash ==> byHash[h] < |links| && links[byHash[h]].hash == h
    ensures node < |links| && links[node].hash !in byHash
  {
    assert node in ix + {node};
    assert forall h :: h in byHash ==> byHash[h] in ix + {node};
  }

  lemma IndexedFacts(links: Links, ix: set<NodeId>)
    requires Indexed(links, ix)
    ensures forall n :: n in ix ==> n < |links|
    ensures forall n :: n in ix && links[n].parent.Some? ==> links[n].parent.value in ix
  {}

  lemma StepUp(links: Links, ix: set<NodeId>, node: NodeId, tip: NodeId, n: NodeId)
    requires Tree(links) && Indexed(links, ix) && n in ix && tip in ix && n != node
    requires Descends(links, node, n) && Descends(links, n, tip)
    ensures links[n].parent.Some? && links[n].parent.value < n
    ensures Descends(links, node, links[n].parent.value) && Descends(links, links[n].parent.value, tip)
    ensures forall d :: d in Path(links, ix, node, tip) && Descends(links, d, n) ==>
              d == n || Descends(links, d, links[n].parent.value)
  {
    var p := links[n].parent.value;
    assert Descends(links, p, n);
    DescendsTransitive(links, p, n, tip);
  }

  lemma PathEnds(links: Links, ix: set<NodeId>, node: NodeId, tip: NodeId)
    requires Indexed(links, ix) && node in ix && tip in ix
    ensures forall d :: d in Path(links, ix, node, tip) ==> !Descends(links, d, node)
  {
    forall d | d in Path(links, ix, node, tip)
      ensures !Descends(links, d, node)
    {
      if Descends(links, d, node) {
        DescendsAntisymmetric(links, d, node);
      }
    }
  }

  lemma VisitedInRange(tips: seq<NodeId>, visited: set<NodeId>)
    requires Visits(tips, visited)
    ensures forall i :: 0 <= i < |tips| ==> tips[i] in visited
  {
    forall i | 0 <= i < |tips|
      ensures tips[i] in visited
    {
      assert tips[i] in tips;
    }
  }

  lemma AllSeen(tips: seq<NodeId>, visited: set<NodeId>, seen: set<NodeId>)
    requires Visits(tips, visited) && forall n :: n in seen <==> n in tips
    ensures seen == visited
  {}

  lemma ReachedNone(links: Links, ix: set<NodeId>, node: NodeId)
    requires forall n :: n in ix ==> n < |links|
    ensures Reached(links, ix, node, {}) == {}
  {}

  /** A visited leaf is itself on its path. */
  lemma TipReached(links: Links, ix: set<NodeId>, node: NodeId, tip: NodeId)
    requires (forall n :: n in ix ==> n < |links|) && tip in ix && tip != node && Descends(links, node, tip)
    ensures tip in Path(links, ix, node, tip)
  {}

  lemma NotBelow(links: Links, node: NodeId, best: NodeId, tip: NodeId)
    requires best < |links| && tip < |links| && Descends(links, best, tip) && !Descends(links, node, tip)
    ensures !Descends(links, node, best)
  {
    hide Descends;
    if Descends(links, node, best) {
      DescendsTransitive(links, node, best, tip);
    }
  }

  /** Only indexed leaves above the node are visited from it. */
  lemma VisitedBounds(links: Links, ix: set<NodeId>, cached: map<Hash, NodeId>, start: int, node: NodeId)
    requires (forall n :: n in ix ==> n < |links|) && node in ix
    ensures var visited := VisitedAbove(links, Leaves(links, ix), cached, start, links[node].height);
            visited <= ix && node !in visited
  {}

  lemma TrackedThrough(links: Links, ix: set<NodeId>, node: NodeId, visited: set<NodeId>, best: Option<NodeId>,
                       mid: Option<NodeId>, best': Option<NodeId>)
    requires (forall n :: n in ix ==> n < |links|) && node in ix && (best.Some? ==> best.value in ix)
    requires mid == best || mid == Some(node)
    requires TrackedInvalid(node, Reached(links, ix, node, visited), mid, best')
    ensures TrackedInvalid(node, Reached(links, ix, node, visited), best, best')
    ensures best'.Some? ==> best'.value in ix
  {}

  /** A complete cache reaches every descendant, and so keeps everything. */
  lemma CompleteReaches(links: Links, states: States, ix: set<NodeId>, node: NodeId, cached: map<Hash, NodeId>,
                        start: int, best: Option<NodeId>)
    requires Tree(links) && |links| == |states| && Indexed(links, ix) && node in ix
    requires CacheCovers(links, Leaves(links, ix), cached, start)
    ensures var visited := VisitedAbove(links, Leaves(links, ix), cached, start, links[node].height);
            && Reached(links, ix, node, visited) == Below(links, ix, node)
            && (FlagsClosed(links, states, ix) ==> AllReached(links, states, ix, node, visited))
            && HeaderKept(links, states, ix, node, visited, best)
  {
    hide Reached, Descends;
    var visited := VisitedAbove(links, Leaves(links, ix), cached, start, links[node].height);
    VisitedIsAll(links, Leaves(links, ix), cached, start, links[node].height);
    PathsCover(links, ix, node, visited);
  }

  lemma AncestorsLighter(links: Links, ix: set<NodeId>, cur: NodeId)
    requires Tree(links) && NoWrap(links) && Indexed(links, ix) && cur in ix
    ensures forall v :: v in ix && Descends(links, v, cur) ==> links[v].workSum <= links[cur].workSum
  {
    forall v | v in ix && Descends(links, v, cur)
      ensures links[v].workSum <= links[cur].workSum
    {
      WorkGrows(links, v, cur);
    }
  }

  lemma ParentOnPath(links: Links, ix: set<NodeId>, cur: NodeId, tip: NodeId)
    requires Tree(links) && Indexed(links, ix) && cur in ix && tip in ix && Descends(links, cur, tip)
    ensures links[cur].parent.Some? ==>
              var p := links[cur].parent.value;
              p in ix && p < cur && Descends(links, p, tip) &&
              forall v :: v in ix && Descends(links, v, cur) && v != cur ==> Descends(links, v, p)
    ensures links[cur].parent.None? ==> forall v :: v in ix && Descends(links, v, cur) ==> v == cur
  {
    assert WellLinked(links, cur);
    if links[cur].parent.Some? {
      var p := links[cur].parent.value;
      assert Descends(links, p, cur);
      DescendsTransitive(links, p, cur, tip);
    }
  }

  lemma AllVisited(links: Links, ix: set<NodeId>, tips: seq<NodeId>)
    requires Indexed(links, ix) && Visits(tips, Leaves(links, ix))
    ensures forall i :: 0 <= i < |tips| ==> tips[i] in ix
    ensures forall leaf: NodeId :: Leaf(links, ix, leaf) ==> exists i :: 0 <= i < |tips| && tips[i] == leaf
  {
    forall i | 0 <= i < |tips|
      ensures tips[i] in ix
    {
      assert tips[i] in tips;
    }
    forall leaf: NodeId | Leaf(links, ix, leaf)
      ensures exists i :: 0 <= i < |tips| && tips[i] == leaf
    {
      assert leaf in Leaves(links, ix);
      assert leaf in tips;
    }
  }

  lemma NoTipsCovered(links: Links, states: States, ix: set<NodeId>, node: NodeId, best: Option<NodeId>,
                      tips: seq<NodeId>)
    requires |links| == |states| && forall m :: m in ix ==> m < |links|
    ensures TipsCovered(links, states, ix, node, best, tips[..0])
  {}

  lemma AllTipsCovered(links: Links, states: States, ix: set<NodeId>, node: NodeId, best: Option<NodeId>,
                       tips: seq<NodeId>)
    requires |links| == |states| && Indexed(links, ix) && Visits(tips, Leaves(links, ix))
    requires TipsCovered(links, states, ix, node, best, tips)
    ensures forall leaf: NodeId :: Leaf(links, ix, leaf) && !Descends(links, node, leaf) ==>
              AncestorsCovered(links, states, ix, best, leaf)
  {
    hide AncestorsCovered;
    AllVisited(links, ix, tips);
  }

  lemma LeavesIndexed(links: Links, ix: set<NodeId>)
    requires forall n :: n in ix ==> n < |links|
    ensures Leaves(links, ix) <= ix
  {}

  lemma CountChange(s: set<NodeId>, n: NodeId)
    ensures n !in s ==> |s + {n}| == |s| + 1
    ensures |s - {n}| == |s| - (if n in s then 1 else 0)
  {
    if n !in s {
      assert s - {n} == s;
    }
  }

  lemma LinkStart(links: Links, waiting: Waiting, was: States, start: nat, node: NodeId)
    ensures Distinct([node]) && ParentsFirst(links, waiting, [node], 0) && ChildrenListed(waiting, [node], 0)
    ensures LinkedStates(was, [node][..0], start, was)
    ensures Members([node][..0]) == {}
    ensures forall work :: Gained(links, [node][..0], work) == {}
    ensures waiting - {} == waiting
  {}

  lemma MembersGrow(links: Links, linked: seq<NodeId>, i: nat, work: nat)
    requires i < |linked| && linked[i] < |links|
    ensures Members(linked[..i + 1]) == Members(linked[..i]) + {linked[i]}
    ensures Gained(links, linked[..i + 1], work) ==
            Gained(links, linked[..i], work) + (if links[linked[i]].workSum >= work then {linked[i]} else {})
  {
    assert linked[..i + 1] == linked[..i] + [linked[i]];
  }

  lemma NextId(start: nat, i: nat)
    ensures ((start + i) % U32 + 1) % U32 == (start + (i + 1)) % U32
  {}

  lemma StillWaiting(waiting: Waiting, linked: seq<NodeId>, i: nat)
    requires i < |linked| && Distinct(linked)
    ensures linked[i] in waiting - Members(linked[..i]) <==> linked[i] in waiting
    ensures waiting - Members(linked[..i]) - {linked[i]} == waiting - (Members(linked[..i]) + {linked[i]})
    ensures linked[i] in waiting ==> (waiting - Members(linked[..i]))[linked[i]] == waiting[linked[i]]
  {
    assert linked[i] !in linked[..i];
  }

  /** Every part of the index's invariant survives a node being added to the
      arena: it speaks of indexed nodes only. */
  lemma Extended(links: Links, n: Link, states: States, t: NodeState, ix: set<NodeId>, tips: TipMap,
                 cached: map<Hash, NodeId>, start: int, candidates: set<NodeId>, waiting: Waiting,
                 header: Option<NodeId>, invalid: Option<NodeId>)
    requires |links| == |states| && Indexed(links, ix)
    ensures var links', states' := links + [n], states + [t];
            && Indexed(links', ix)
            && Leaves(links', ix) == Leaves(links, ix)
            && (TipsAre(links, tips, Leaves(links, ix)) ==> TipsAre(links', tips, Leaves(links, ix)))
            && (CacheCovers(links, Leaves(links, ix), cached, start) ==>
                  CacheCovers(links', Leaves(links, ix), cached, start))
            && (CacheHolds(links, Leaves(links, ix), cached) ==> CacheHolds(links', Leaves(links, ix), cached))
            && (BooksQuiet(links, ix, LinkBooks(states, candidates, waiting, 0)) ==>
                  BooksQuiet(links', ix, LinkBooks(states', candidates, waiting, 0)))
            && (FlagsClosed(links, states, ix) ==> FlagsClosed(links', states', ix))
            && (LinkageOk(links, ix, states, waiting) ==> LinkageOk(links', ix, states', waiting))
            && (BestHeader(links, states, ix, header) ==> BestHeader(links', states', ix, header))
            && (BestInvalid(links, states, ix, invalid) ==> BestInvalid(links', states', ix, invalid))
  {
    var links', states' := links + [n], states + [t];
    assert forall m :: m in ix ==> links'[m] == links[m] && states'[m] == states[m];
    assert Leaves(links', ix) == Leaves(links, ix);
    if TipsAre(links, tips, Leaves(links, ix)) {
      TipsExtended(links, n, tips, Leaves(links, ix));
    }
  }

  lemma TipsExtended(links: Links, n: Link, tips: TipMap, leaves: set<NodeId>)
    requires TipsAre(links, tips, leaves)
    ensures TipsAre(links + [n], tips, leaves)
  {
    var links' := links + [n];
    forall m | 0 <= m < |links'|
      ensures HasTip(links', tips, m) <==> m in leaves
    {
      if m < |links| {
        assert HasTip(links, tips, m) <==> m in leaves;
      }
    }
  }

  lemma NewNodeCanAdd(links: Links, n: Link, states: States, ix: set<NodeId>, byHash: map<Hash, NodeId>, parent: NodeId)
    requires |links| == |states| && Indexed(links, ix) && parent in ix
    requires n.parent == Some(parent) && n.hash !in byHash && ix == byHash.Values
    requires forall h :: h in byHash ==> byHash[h] < |links| && links[byHash[h]].hash == h
    ensures CanAdd(links + [n], states + [NodeState(NONE, false, 0)], ix, |links|)
  {
    forall m | m in ix
      ensures links[m].hash != n.hash
    {
      var h :| h in byHash && byHash[h] == m;
    }
  }

  /** Marking a block removes the candidates that removing them from the block
      on would remove. */
  lemma MarkedCandidates(links: Links, b: Books, ix: set<NodeId>, node: NodeId)
    requires Indexed(links, ix) && node in ix && b.candidates <= ix
    ensures MarkedSoFar(b, node, Below(links, ix, node)).candidates ==
            set n | n in b.candidates && n < |links| && !Descends(links, node, n)
  {}

  lemma NewNotWaiting(links: Links, ix: set<NodeId>, waiting: Waiting, node: NodeId)
    requires WaitingOk(links, ix, waiting) && node !in ix
    ensures node !in waiting && forall p :: p in waiting ==> node !in waiting[p]
  {}

  lemma InvalidAdded(links: Links, states: States, ix: set<NodeId>, node: NodeId, best: Option<NodeId>,
                     best': Option<NodeId>)
    requires |links| == |states| && (forall n :: n in ix ==> n < |links|) && node < |links|
    requires BestInvalid(links, states, ix, best) && (best' == best || best' == Some(node))
    requires !states[node].status.KnownInvalid() ==> best' == best
    requires states[node].status.KnownInvalid() ==> Covered(links, best', node)
    requires states[node].status.KnownInvalid() && best.Some? ==> Covered(links, best', best.value)
    ensures BestInvalid(links, states, ix + {node}, best')
  {}

  lemma BooksWaiting(links: Links, ix: set<NodeId>, b: LinkBooks)
    requires |links| == |b.states| && (forall n :: n in ix ==> n < |links|) && BooksQuiet(links, ix, b)
    ensures WaitingOk(links, ix, b.waiting)
  {}

  lemma LinkedBooks(links: Links, ix: set<NodeId>, was: LinkBooks, node: NodeId, tipWork: nat, linked: seq<NodeId>,
                    now: LinkBooks)
    requires |links| == |was.states| && Indexed(links, ix) && BooksQuiet(links, ix, was.(nextId := 0)) && node in ix
    requires LinkOutcome(links, was, node, tipWork, linked, now)
    requires forall k :: 0 <= k < |linked| ==> linked[k] in ix
    ensures |now.states| == |links| && (FlagsClosed(links, now.states, ix) <==> FlagsClosed(links, was.states, ix))
    ensures BooksQuiet(links, ix, now.(nextId := 0)) <==>
              !was.states[node].status.invalidAncestor || links[node].workSum < tipWork
  {
    hide Indexed, FlagsClosed, FlaggedQuiet, WaitingOk, WaitingQuiet, LinkedList, LinkedStates;
    LinkOutcomeExactly(links, ix, was, node, tipWork, linked, now);
  }

  lemma LinkedHeaders(links: Links, ix: set<NodeId>, was: LinkBooks, node: NodeId, tipWork: nat, linked: seq<NodeId>,
                      now: LinkBooks, header: Option<NodeId>, invalid: Option<NodeId>)
    requires |links| == |was.states| && (forall n :: n in ix ==> n < |links|)
    requires LinkOutcome(links, was, node, tipWork, linked, now)
    requires BestHeader(links, was.states, ix, header) && BestInvalid(links, was.states, ix, invalid)
    ensures |now.states| == |links|
    ensures BestHeader(links, now.states, ix, header) && BestInvalid(links, now.states, ix, invalid)
  {
    hide LinkedList, LinkedStates, BestHeader, BestInvalid;
    SameHeaders(links, was.states, now.states, ix, linked, was.nextId, header, invalid);
  }

  function WithData(states: States, n: NodeId): States
    requires n < |states|
  {
    states[n := states[n].(status := states[n].status.(dataStored := true))]
  }

  /** Stored data takes no part in the flags and the best headers. */
  lemma DataKeeps(links: Links, states: States, ix: set<NodeId>, n: NodeId, candidates: set<NodeId>, waiting: Waiting,
                  header: Option<NodeId>, invalid: Option<NodeId>)
    requires |links| == |states| && Indexed(links, ix) && n in ix
    ensures var now := WithData(states, n);
            && (BooksQuiet(links, ix, LinkBooks(states, candidates, waiting, 0)) ==>
                  BooksQuiet(links, ix, LinkBooks(now, candidates, waiting, 0)))
            && (FlagsClosed(links, states, ix) ==> FlagsClosed(links, now, ix))
            && (LinkageOk(links, ix, states, waiting) ==> LinkageOk(links, ix, now, waiting))
            && (BestHeader(links, states, ix, header) ==> BestHeader(links, now, ix, header))
            && (BestInvalid(links, states, ix, invalid) ==> BestInvalid(links, now, ix, invalid))
  {
    hide WaitingOk, Indexed;
    IndexedFacts(links, ix);
  }

  /** The block and every ancestor of it has its data. */
  ghost predicate HasData(links: Links, states: States, d: NodeId)
    requires d < |links|
  {
    forall a: NodeId :: Descends(links, a, d) ==> a < |states| && states[a].status.dataStored
  }

  ghost predicate DataBelow(links: Links, states: States, linked: seq<NodeId>)
  {
    forall n :: n in linked ==> n < |links| && HasData(links, states, n)
  }

  lemma AllDataBelow(links: Links, ix: set<NodeId>, states: States, waiting: Waiting, linked: seq<NodeId>)
    requires |links| == |states| && Indexed(links, ix) && LinkageOk(links, ix, states, waiting)
    requires forall k :: 0 <= k < |linked| ==> linked[k] in ix
    requires forall n :: n in linked ==> n < |links| && states[n].isFullyLinked && states[n].status.dataStored
    ensures DataBelow(links, states, linked)
  {
    hide Indexed, LinkageOk;
    forall n, a: NodeId | n in linked && Descends(links, a, n)
      ensures a < |states| && states[a].status.dataStored
    {
      if a != n {
        LinkedAncestors(links, ix, states, waiting, a, n);
      }
    }
  }

  lemma NoneLinked(links: Links, states: States)
    ensures DataBelow(links, states, [])
  {}

  lemma NodeUnreached(links: Links, ix: set<NodeId>, node: NodeId, visited: set<NodeId>)
    requires forall n :: n in ix ==> n < |links|
    ensures node !in Reached(links, ix, node, visited)
  {}

  /** Marking changes no linkage and no data. */
  lemma MarkedLinked(links: Links, ix: set<NodeId>, b: Books, node: NodeId, flagged: set<NodeId>)
    requires |links| == |b.states| && Indexed(links, ix) && LinkageOk(links, ix, b.states, b.waiting)
    ensures var after := MarkedSoFar(b, node, flagged); LinkageOk(links, ix, after.states, after.waiting)
  {}

  /** Marking takes every block it marks or flags off the candidates. */
  lemma MarkedCandidatesValid(links: Links, b: Books, ix: set<NodeId>, node: NodeId, flagged: set<NodeId>)
    requires CandidatesValid(b.states, b.candidates)
    ensures var after := MarkedSoFar(b, node, flagged); CandidatesValid(after.states, after.candidates)
  {}

  lemma CachedInRange(links: Links, leaves: set<NodeId>, cached: map<Hash, NodeId>)
    requires CacheHolds(links, leaves, cached)
    ensures forall h :: h in cached ==> cached[h] < |links|
  {}

  lemma WaitingInLarger(links: Links, ix: set<NodeId>, waiting: Waiting, node: NodeId)
    requires WaitingOk(links, ix, waiting)
    ensures WaitingOk(links, ix + {node}, waiting)
  {}

  /** What marking with the reached blocks flagged keeps, always and exactly when. */
  lemma MarkedBooks(links: Links, b: Books, ix: set<NodeId>, node: NodeId, visited: set<NodeId>)
    requires Tree(links) && |links| == |b.states| && Indexed(links, ix) && node in ix
    requires BooksQuiet(links, ix, LinkBooks(b.states, b.candidates, b.waiting, 0))
    ensures var reached := Reached(links, ix, node, visited);
            var after := MarkedSoFar(b, node, reached);
            && |after.states| == |links| && after.states == PartlyMarked(b.states, node, reached)
            && BooksQuiet(links, ix, LinkBooks(after.states, after.candidates, after.waiting, 0))
            && after.states[node].status.KnownInvalid()
            && (FlagsClosed(links, after.states, ix) <==> AllReached(links, b.states, ix, node, visited))
            && (after.states == Marked(links, b.states, ix, node) <==>
                  forall d :: d in Below(links, ix, node) && !b.states[d].status.invalidAncestor ==> d in reached)
  {
    hide Reached, AllReached, Marked, Below, WaitingOk, WaitingQuiet, FlagsClosed, Tree;
    MarkedKeeps(links, b.states, ix, node, visited, b.candidates, b.waiting.Keys);
    MarkedWaiting(links, b, ix, node, visited);
    ReachedMarks(links, b.states, ix, node, visited);
  }

  /** The parent of a reached block is the node or is reached. */
  lemma ParentReached(links: Links, ix: set<NodeId>, node: NodeId, visited: set<NodeId>, c: NodeId)
    requires Indexed(links, ix) && node in ix && c in Reached(links, ix, node, visited)
    ensures links[c].parent.Some?
    ensures links[c].parent.value == node || links[c].parent.value in Reached(links, ix, node, visited)
  {
    var leaf :| leaf in visited && leaf < |links| && Descends(links, c, leaf);
    var p := links[c].parent.value;
    assert Descends(links, p, c);
    DescendsTransitive(links, p, c, leaf);
  }

  lemma MarkedWaiting(links: Links, b: Books, ix: set<NodeId>, node: NodeId, visited: set<NodeId>)
    requires |links| == |b.states| && Indexed(links, ix) && node in ix
    requires WaitingOk(links, ix, b.waiting) && WaitingQuiet(b.states, b.waiting)
    ensures var after := MarkedSoFar(b, node, Reached(links, ix, node, visited));
            WaitingOk(links, ix, after.waiting) && WaitingQuiet(after.states, after.waiting)
  {
    hide Indexed, Distinct, Reached;
    IndexedFacts(links, ix);
    var reached := Reached(links, ix, node, visited);
    var after := MarkedSoFar(b, node, reached);
    forall p, c | p in after.waiting && c in after.waiting[p]
      ensures c < |after.states| && !after.states[c].status.invalidAncestor
    {
      assert p in b.waiting && c in b.waiting[p] && links[c].parent == Some(p);
      if c in reached {
        ParentReached(links, ix, node, visited, c);
      }
    }
  }

  lemma LeavesDistinct(links: Links, ix: set<NodeId>)
    requires Indexed(links, ix)
    ensures DistinctHashes(links, Leaves(links, ix))
  {}

  lemma ParentIndexed(links: Links, ix: set<NodeId>, node: NodeId)
    requires Tree(links) && Indexed(links, ix + {node}) && node !in ix
    ensures node < |links|
    ensures links[node].parent.Some? ==> links[node].parent.value in ix && links[node].parent.value < node
  {
    assert node in ix + {node};
    assert WellLinked(links, node);
  }
}
