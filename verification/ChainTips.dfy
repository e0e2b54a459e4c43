/** The tracked chain tips: a map by height and a cache of the recent ones, both
    of which must agree with the leaves of the block tree. */
module ChainTips {
  import opened NodeStores
  import opened Options
  import opened Sequences

  /** The tips at one height: a first one and the others. */
  datatype ChainTipEntry = ChainTipEntry(tip: Option<NodeId>, others: seq<NodeId>)

  type TipMap = map<int, ChainTipEntry>

  function TipsOf(e: ChainTipEntry): seq<NodeId>
  {
    (if e.tip.Some? then [e.tip.value] else []) + e.others
  }

  /** Each entry has a first tip, no tip twice, and tips of its own height. */
  ghost predicate EntriesOk(links: Links, tips: TipMap)
  {
    forall h :: h in tips ==>
      && tips[h].tip.Some?
      && Distinct(TipsOf(tips[h]))
      && forall n :: n in TipsOf(tips[h]) ==> n < |links| && links[n].height == h
  }

  ghost predicate HasTip(links: Links, tips: TipMap, n: NodeId)
    requires n < |links|
  {
    links[n].height in tips && n in TipsOf(tips[links[n].height])
  }

  /** The map holds exactly the given leaves, each once, under its height. */
  ghost predicate TipsAre(links: Links, tips: TipMap, leaves: set<NodeId>)
  {
    && EntriesOk(links, tips)
    && (forall n :: n in leaves ==> n < |links|)
    && forall n :: 0 <= n < |links| ==> (HasTip(links, tips, n) <==> n in leaves)
  }

  /** `add_chain_tip`'s change to the map. */
  function AddTip(tips: TipMap, n: NodeId, height: int): TipMap
  {
    var e := if height in tips then tips[height] else ChainTipEntry(None, []);
    if e.tip.None? && e.others == [] then tips[height := ChainTipEntry(Some(n), [])]
    else tips[height := e.(others := e.others + [n])]
  }

  lemma AddTipKeeps(links: Links, tips: TipMap, leaves: set<NodeId>, n: NodeId)
    requires TipsAre(links, tips, leaves) && n < |links| && n !in leaves
    ensures TipsAre(links, AddTip(tips, n, links[n].height), leaves + {n})
  {
    var h := links[n].height;
    var after := AddTip(tips, n, h);
    if h in tips {
      assert !HasTip(links, tips, n);
      assert TipsOf(after[h]) == TipsOf(tips[h]) + [n];
    } else {
      assert TipsOf(after[h]) == [n];
    }
    forall m | 0 <= m < |links|
      ensures HasTip(links, after, m) <==> m in leaves + {n}
    {
      assert HasTip(links, tips, m) <==> m in leaves;
    }
  }

  /** The first index of an element, None when it is not there. */
  function PositionOf(s: seq<NodeId>, n: NodeId): (r: Option<nat>)
    ensures r.Some? ==> r.value < |s| && s[r.value] == n
    ensures r.None? ==> n !in s
  {
    if s == [] then None
    else if s[0] == n then Some(0)
    else
      var r := PositionOf(s[1..], n);
      if r.Some? then Some(r.value + 1) else None
  }

  function Without(s: seq<NodeId>, i: nat): seq<NodeId>
    requires i < |s|
  {
    s[..i] + s[i + 1..]
  }

  /** `remove_chain_tip`'s change to the map. */
  function RemoveTip(tips: TipMap, n: NodeId, height: int): TipMap
  {
    if height !in tips then tips
    else
      var e := tips[height];
      if e.tip == Some(n) then
        if e.others == [] then tips - {height}
        else tips[height := ChainTipEntry(Some(e.others[0]), e.others[1..])]
      else
        match PositionOf(e.others, n)
        case None => tips
        case Some(i) => tips[height := e.(others := Without(e.others, i))]
  }

  /** Whether `remove_chain_tip` finds the tip and counts it off. */
  predicate FindsTip(tips: TipMap, n: NodeId, height: int)
  {
    height in tips && (tips[height].tip == Some(n) || PositionOf(tips[height].others, n).Some?)
  }

  lemma WithoutElements(s: seq<NodeId>, i: nat)
    requires Distinct(s) && i < |s|
    ensures Distinct(Without(s, i))
    ensures forall m :: m in Without(s, i) <==> m in s && m != s[i]
  {
    var t := Without(s, i);
    assert forall k :: 0 <= k < |t| ==> t[k] == if k < i then s[k] else s[k + 1];
    forall m | m in s && m != s[i]
      ensures m in t
    {
      var k :| 0 <= k < |s| && s[k] == m;
      assert t[if k < i then k else k - 1] == m;
    }
  }

  lemma EntryAfterRemove(links: Links, tips: TipMap, leaves: set<NodeId>, n: NodeId)
    requires TipsAre(links, tips, leaves) && n < |links| && links[n].height in tips
    ensures var h := links[n].height;
            var after := RemoveTip(tips, n, h);
            && (FindsTip(tips, n, h) <==> n in TipsOf(tips[h]))
            && (h !in after ==> forall m :: m in TipsOf(tips[h]) ==> m == n)
            && (h in after ==>
                  && after[h].tip.Some? && Distinct(TipsOf(after[h]))
                  && forall m :: m in TipsOf(after[h]) <==> m in TipsOf(tips[h]) && m != n)
  {
    var h := links[n].height;
    var e := tips[h];
    var all := TipsOf(e);
    assert all[1..] == e.others && all[0] == e.tip.value;
    if e.tip == Some(n) {
      if e.others != [] {
        WithoutElements(all, 0);
        assert TipsOf(ChainTipEntry(Some(e.others[0]), e.others[1..])) == Without(all, 0);
      }
    } else {
      var r := PositionOf(e.others, n);
      if r.Some? {
        WithoutElements(all, r.value + 1);
        assert TipsOf(e.(others := Without(e.others, r.value))) == Without(all, r.value + 1);
        assert all[r.value + 1] == n;
      }
    }
  }

  lemma RemoveTipKeeps(links: Links, tips: TipMap, leaves: set<NodeId>, n: NodeId)
    requires TipsAre(links, tips, leaves) && n < |links|
    ensures TipsAre(links, RemoveTip(tips, n, links[n].height), leaves - {n})
    ensures FindsTip(tips, n, links[n].height) <==> n in leaves
  {
    hide TipsOf, Distinct, RemoveTip, FindsTip;
    var h := links[n].height;
    var after := RemoveTip(tips, n, h);
    assert HasTip(links, tips, n) <==> n in leaves;
    RemoveElsewhere(tips, n, h);
    if h in tips {
      EntryAfterRemove(links, tips, leaves, n);
    }
    forall m | 0 <= m < |links|
      ensures HasTip(links, after, m) <==> m in leaves - {n}
    {
      assert HasTip(links, tips, m) <==> m in leaves;
    }
  }

  lemma RemoveElsewhere(tips: TipMap, n: NodeId, h: int)
    ensures h !in tips ==> RemoveTip(tips, n, h) == tips && !FindsTip(tips, n, h)
    ensures forall k :: k != h ==> (k in tips <==> k in RemoveTip(tips, n, h))
    ensures forall k :: k != h && k in tips ==> RemoveTip(tips, n, h)[k] == tips[k]
  {}

  // ------------------------------------------------------------------
  // The cache of recent tips.

  /** The cache holds leaves, each under its hash. */
  ghost predicate CacheHolds(links: Links, leaves: set<NodeId>, cached: map<Hash, NodeId>)
  {
    && (forall n :: n in leaves ==> n < |links|)
    && forall h :: h in cached ==> cached[h] in leaves && links[cached[h]].hash == h
  }

  /** It holds every leaf from a height on. */
  ghost predicate CacheCovers(links: Links, leaves: set<NodeId>, cached: map<Hash, NodeId>, start: int)
  {
    && CacheHolds(links, leaves, cached)
    && forall n :: n in leaves && links[n].height >= start ==> links[n].hash in cached && cached[links[n].hash] == n
  }

  /** The leaves above a height: what both forms of the iteration must visit. */
  ghost function LeavesAbove(links: Links, leaves: set<NodeId>, height: int): set<NodeId>
    requires forall n :: n in leaves ==> n < |links|
  {
    set n | n in leaves && links[n].height > height
  }

  /** What `prune_cached_tips` keeps of the cache for a best height: nothing
      changes when the cut would be at or below zero. */
  function PruneHeight(bestHeight: int): int
  {
    bestHeight - 12
  }

  /** No leaf from one height up to another is missing from the cache. */
  ghost predicate NoneDropped(links: Links, leaves: set<NodeId>, cached: map<Hash, NodeId>, cut: int, start: int)
    requires forall n :: n in leaves ==> n < |links|
  {
    forall n :: n in leaves && cut <= links[n].height < start ==> links[n].hash in cached
  }

  ghost predicate DistinctHashes(links: Links, nodes: set<NodeId>)
    requires forall n :: n in nodes ==> n < |links|
  {
    forall m, n :: m in nodes && n in nodes && links[m].hash == links[n].hash ==> m == n
  }

  /** What `prune_cached_tips` retains. */
  function Retained(links: Links, cached: map<Hash, NodeId>, cut: int): map<Hash, NodeId>
    requires forall h :: h in cached ==> cached[h] < |links|
  {
    map h | h in cached && links[cached[h]].height >= cut :: cached[h]
  }

  /** After a prune the cache covers the leaves from its new start exactly when
      no leaf between the new start and the old one had been dropped. A prune
      that does not lower the start always passes. */
  lemma PruneCovers(links: Links, leaves: set<NodeId>, cached: map<Hash, NodeId>, start: int, cut: int)
    requires CacheCovers(links, leaves, cached, start) && DistinctHashes(links, leaves)
    ensures forall h :: h in cached ==> cached[h] < |links|
    ensures CacheCovers(links, leaves, Retained(links, cached, cut), cut) <==>
              NoneDropped(links, leaves, cached, cut, start)
    ensures start <= cut ==> NoneDropped(links, leaves, cached, cut, start)
  {
    var kept := Retained(links, cached, cut);
    if NoneDropped(links, leaves, cached, cut, start) {
      forall n | n in leaves && links[n].height >= cut
        ensures links[n].hash in kept && kept[links[n].hash] == n
      {
        assert links[n].hash in cached;
        var m := cached[links[n].hash];
        assert m in leaves && links[m].hash == links[n].hash;
      }
    }
  }

  lemma RetainedHolds(links: Links, leaves: set<NodeId>, cached: map<Hash, NodeId>, cut: int)
    requires CacheHolds(links, leaves, cached)
    ensures CacheHolds(links, leaves, Retained(links, cached, cut))
  {}

  // ------------------------------------------------------------------
  // Visiting tips.

  /** Every element of the set is visited, once, and nothing else. */
  ghost predicate Visits(out: seq<NodeId>, s: set<NodeId>)
  {
    Distinct(out) && forall n :: n in out <==> n in s
  }

  /** The leaves at the given heights. */
  ghost function LeavesAt(links: Links, leaves: set<NodeId>, heights: set<int>): set<NodeId>
    requires forall n :: n in leaves ==> n < |links|
  {
    set n | n in leaves && links[n].height in heights
  }

  /** The leaves above a height that are cached under one of the hashes. */
  ghost function CachedAbove(links: Links, leaves: set<NodeId>, cached: map<Hash, NodeId>, height: int,
                             hashes: set<Hash>): set<NodeId>
    requires forall n :: n in leaves ==> n < |links|
  {
    set n |
      && n in LeavesAbove(links, leaves, height)
      && links[n].hash in hashes && links[n].hash in cached && cached[links[n].hash] == n
  }

  lemma VisitEntry(links: Links, tips: TipMap, leaves: set<NodeId>, done: set<int>, h: int, out: seq<NodeId>)
    requires TipsAre(links, tips, leaves) && h in tips && h !in done
    requires Visits(out, LeavesAt(links, leaves, done))
    ensures Visits(out + TipsOf(tips[h]), LeavesAt(links, leaves, done + {h}))
  {
    var more := TipsOf(tips[h]);
    forall n | n in more
      ensures n < |links| && links[n].height == h && n in leaves && n !in out
    {
      assert HasTip(links, tips, n);
    }
    forall n | n in leaves && links[n].height == h
      ensures n in more
    {
      assert HasTip(links, tips, n);
    }
    var all := out + more;
    forall i, j | 0 <= i < j < |all|
      ensures all[i] != all[j]
    {
      if i < |out| <= j {
        assert all[i] in out && all[j] in more;
      }
    }
  }

  /** The walk over the map: every tip above a height, in some order. */
  method VisitMap(links: Links, tips: TipMap, height: int, ghost leaves: set<NodeId>) returns (out: seq<NodeId>)
    requires TipsAre(links, tips, leaves)
    ensures Visits(out, LeavesAbove(links, leaves, height))
  {
    hide Visits, TipsAre, TipsOf;
    out := [];
    TipsInRange(links, tips, leaves);
    VisitNone(LeavesAt(links, leaves, {}));
    var left := set h | h in tips && h > height;
    ghost var done: set<int> := {};
    while left != {}
      invariant left <= tips.Keys && done !! left
      invariant forall h :: h in tips && h > height <==> h in left + done
      invariant Visits(out, LeavesAt(links, leaves, done))
      decreases left
    {
      var h :| h in left;
      VisitEntry(links, tips, leaves, done, h, out);
      out := out + TipsOf(tips[h]);
      left := left - {h};
      done := done + {h};
    }
    assert LeavesAt(links, leaves, done) == LeavesAbove(links, leaves, height);
  }

  lemma TipsInRange(links: Links, tips: TipMap, leaves: set<NodeId>)
    requires TipsAre(links, tips, leaves)
    ensures forall n :: n in leaves ==> n < |links| && links[n].height in tips
  {
    forall n | n in leaves
      ensures n < |links| && links[n].height in tips
    {
      assert HasTip(links, tips, n);
    }
  }

  lemma VisitNone(s: set<NodeId>)
    requires s == {}
    ensures Visits([], s)
  {}

  lemma VisitCached(links: Links, leaves: set<NodeId>, cached: map<Hash, NodeId>, h: Hash, height: int,
                    done: set<Hash>, out: seq<NodeId>)
    requires CacheHolds(links, leaves, cached) && h in cached && h !in done
    requires Visits(out, CachedAbove(links, leaves, cached, height, done))
    ensures cached[h] < |links|
    ensures Visits(if links[cached[h]].height > height then out + [cached[h]] else out,
                   CachedAbove(links, leaves, cached, height, done + {h}))
  {
    var n := cached[h];
    assert n in leaves && links[n].hash == h;
    assert n !in out;
  }

  /** The walk over the cache: every cached tip above a height. */
  method VisitCache(links: Links, cached: map<Hash, NodeId>, height: int, ghost leaves: set<NodeId>)
    returns (out: seq<NodeId>)
    requires CacheHolds(links, leaves, cached)
    ensures Visits(out, CachedAbove(links, leaves, cached, height, cached.Keys))
  {
    hide Visits;
    out := [];
    var left := cached.Keys;
    ghost var done: set<Hash> := {};
    VisitNone(CachedAbove(links, leaves, cached, height, done));
    while left != {}
      invariant left <= cached.Keys && done !! left && left + done == cached.Keys
      invariant Visits(out, CachedAbove(links, leaves, cached, height, done))
      decreases left
    {
      var h :| h in left;
      VisitCached(links, leaves, cached, h, height, done, out);
      if links[cached[h]].height > height {
        out := out + [cached[h]];
      }
      left := left - {h};
      done := done + {h};
    }
    assert done == cached.Keys;
  }

  /** What the iteration gives: the cached leaves from the cache's start on, all
      leaves from the map below it. */
  ghost function VisitedAbove(links: Links, leaves: set<NodeId>, cached: map<Hash, NodeId>, start: int, height: int)
    : set<NodeId>
    requires forall n :: n in leaves ==> n < |links|
  {
    if height >= start - 1 then CachedAbove(links, leaves, cached, height, cached.Keys)
    else LeavesAbove(links, leaves, height)
  }

  /** A cache that covers the leaves from its start on never shows. */
  lemma VisitedIsAll(links: Links, leaves: set<NodeId>, cached: map<Hash, NodeId>, start: int, height: int)
    requires CacheCovers(links, leaves, cached, start)
    ensures VisitedAbove(links, leaves, cached, start, height) == LeavesAbove(links, leaves, height)
  {}

  /** A leaf dropped by a prune at best height a stays missing after one at a
      lower best height b that starts the cache at or below the leaf. */
  lemma LoweredPruneMisses(links: Links, leaves: set<NodeId>, cached: map<Hash, NodeId>, a: int, b: int, leaf: NodeId,
                           height: int)
    requires CacheHolds(links, leaves, cached) && leaf in leaves
    requires PruneHeight(a) > links[leaf].height >= PruneHeight(b)
    requires PruneHeight(b) - 1 <= height < links[leaf].height
    ensures var first := Retained(links, cached, PruneHeight(a));
            && CacheHolds(links, leaves, first)
            && leaf in LeavesAbove(links, leaves, height)
            && leaf !in VisitedAbove(links, leaves, Retained(links, first, PruneHeight(b)), PruneHeight(b), height)
  {
    RetainedHolds(links, leaves, cached, PruneHeight(a));
  }
}
