/** Choosing an address to connect to: type filters over the bucket statistics,
    the selection chance and how fast repeated draws must succeed. */
module AddrPick {
  import opened AddrBooks
  import opened Options
  import opened Sequences

  datatype Filter = Filter(ipv4: bool, ipv6: bool, torV3: bool)

  predicate Wanted(f: Filter, t: AddrType)
  {
    (f.ipv4 && t == IPv4) || (f.ipv6 && t == IPv6) || (f.torV3 && t == TorV3)
  }

  /** `BucketStats::total`. */
  function Total(s: Stats, f: Filter): nat
  {
    (if f.ipv4 then s.ipv4 else 0) + (if f.ipv6 then s.ipv6 else 0) + (if f.torV3 then s.torV3 else 0)
  }

  /** `BucketStats::matches`. */
  predicate Matches(s: Stats, f: Filter)
  {
    (f.ipv4 && s.ipv4 > 0) || (f.ipv6 && s.ipv6 > 0) || (f.torV3 && s.torV3 > 0)
  }

  ghost function WantedOf(s: set<Key>, f: Filter): set<Key>
  {
    set k | k in s && Wanted(f, k.kind)
  }

  ghost function KindIf(s: set<Key>, wanted: bool, t: AddrType): set<Key>
  {
    if wanted then OfKind(s, t) else {}
  }

  /** The statistics answer for the contents: their total is the number of wanted addresses. */
  lemma TotalCounts(s: set<Key>, f: Filter)
    ensures Total(StatsOf(s), f) == |WantedOf(s, f)|
    ensures Matches(StatsOf(s), f) <==> WantedOf(s, f) != {}
  {
    hide OfKind, WantedOf;
    var four, six, tor := KindIf(s, f.ipv4, IPv4), KindIf(s, f.ipv6, IPv6), KindIf(s, f.torV3, TorV3);
    WantedParts(s, f);
    UnionSize(four, six);
    UnionSize(four + six, tor);
    assert WantedOf(s, f) != {} <==> |WantedOf(s, f)| > 0;
  }

  lemma WantedParts(s: set<Key>, f: Filter)
    ensures var four, six, tor := KindIf(s, f.ipv4, IPv4), KindIf(s, f.ipv6, IPv6), KindIf(s, f.torV3, TorV3);
            WantedOf(s, f) == four + six + tor && four !! six && (four + six) !! tor
  {}

  lemma UnionSize<T>(a: set<T>, b: set<T>)
    requires a !! b
    ensures |a + b| == |a| + |b|
  {}

  /** How many of a list's addresses are wanted. */
  ghost function WantedIn(s: seq<Key>, f: Filter): nat
  {
    if s == [] then 0 else WantedIn(s[..|s| - 1], f) + (if Wanted(f, s[|s| - 1].kind) then 1 else 0)
  }

  lemma {:induction false} WantedInMembers(s: seq<Key>, f: Filter)
    requires Distinct(s)
    ensures WantedIn(s, f) == |WantedOf(Members(s), f)|
  {
    hide Wanted;
    if s == [] {
      assert WantedOf(Members(s), f) == {};
    } else {
      var n := |s| - 1;
      WantedInMembers(s[..n], f);
      assert s == s[..n] + [s[n]];
      MembersAppend(s[..n], s[n]);
      assert s[n] !in Members(s[..n]);
      WantedOfAdd(Members(s[..n]), f, s[n]);
    }
  }

  lemma WantedOfAdd(s: set<Key>, f: Filter, k: Key)
    requires k !in s
    ensures |WantedOf(s + {k}, f)| == |WantedOf(s, f)| + (if Wanted(f, k.kind) then 1 else 0)
  {
    hide Wanted;
    assert WantedOf(s + {k}, f) == WantedOf(s, f) + (if Wanted(f, k.kind) then {k} else {});
  }

  lemma WantedInStep(s: seq<Key>, f: Filter, i: nat)
    requires i < |s|
    ensures WantedIn(s[..i + 1], f) == WantedIn(s[..i], f) + (if Wanted(f, s[i].kind) then 1 else 0)
  {
    assert s[..i + 1][..i] == s[..i];
  }

  // ------------------------------------------------------------------
  // Draws.

  ghost predicate Reachable(m: Books, f: Filter)
  {
    exists k :: k in m.index && Wanted(f, k.kind)
  }

  /** A matching statistic is a bucket with a wanted address, and every wanted address
      known is behind some matching statistic. */
  lemma MatchingBuckets(m: Books, size: nat, f: Filter)
    requires Inv(m, size, {})
    ensures Reachable(m, f) <==>
              (exists b :: 0 <= b < |m.newStats| && Matches(m.newStats[b], f))
              || (exists b :: 0 <= b < |m.triedStats| && Matches(m.triedStats[b], f))
  {
    hide AddressOk, StatsOf, Matches, Wanted, TriedOnce;
    if Reachable(m, f) {
      var k :| k in m.index && Wanted(f, k.kind);
      assert AddressOk(m, {}, k);
      if m.index[k].tried {
        var b := TriedHolder(m, k);
        WantedMember(Members(m.triedBuckets[b]), f, k);
      } else {
        SomeHolder(m, k);
        var b :| 0 <= b < |m.newBuckets| && k in m.newBuckets[b];
        WantedMember(m.newBuckets[b], f, k);
      }
    }
    forall b | 0 <= b < |m.newStats| && Matches(m.newStats[b], f)
      ensures Reachable(m, f)
    {
      var k := SomeWanted(m.newBuckets[b], f);
    }
    forall b | 0 <= b < |m.triedStats| && Matches(m.triedStats[b], f)
      ensures Reachable(m, f)
    {
      var k := SomeWanted(Members(m.triedBuckets[b]), f);
      assert k in m.triedBuckets[b];
    }
  }

  lemma TriedTotals(m: Books, size: nat, b: nat, f: Filter)
    requires Inv(m, size, {}) && b < TRIED_BUCKET_COUNT && Matches(m.triedStats[b], f)
    ensures 0 < Total(m.triedStats[b], f) == WantedIn(m.triedBuckets[b], f)
  {
    hide AddressOk, StatsOf, Matches, Total, WantedOf, WantedIn, Distinct;
    TotalCounts(Members(m.triedBuckets[b]), f);
    WantedInMembers(m.triedBuckets[b], f);
  }

  lemma NewTotals(m: Books, size: nat, b: nat, f: Filter)
    requires Inv(m, size, {}) && b < NEW_BUCKET_COUNT && Matches(m.newStats[b], f)
    ensures 0 < Total(m.newStats[b], f) == |WantedOf(m.newBuckets[b], f)|
  {
    hide AddressOk, StatsOf, Matches, Total, WantedOf;
    TotalCounts(m.newBuckets[b], f);
  }

  lemma NoneKnown(m: Books, size: nat)
    requires Inv(m, size, {}) && m.nNew + m.nTried == 0
    ensures m.index == map[]
  {
    hide AddressOk, StatsOf;
    assert Untried(m.index) == {} && Tried(m.index) == {};
    assert forall k :: k in m.index ==> k in Untried(m.index) || k in Tried(m.index);
  }

  lemma TriedHolder(m: Books, k: Key) returns (b: nat)
    requires k in m.index && AddressOk(m, {}, k) && m.index[k].tried
    ensures b < |m.triedBuckets| && k in Members(m.triedBuckets[b])
  {
    assert InTried(m.triedBuckets, k);
    b :| b < |m.triedBuckets| && k in m.triedBuckets[b];
  }

  lemma WantedMember(s: set<Key>, f: Filter, k: Key)
    requires k in s && Wanted(f, k.kind)
    ensures Matches(StatsOf(s), f)
  {
    hide StatsOf, Matches;
    TotalCounts(s, f);
    assert k in WantedOf(s, f);
  }

  lemma SomeWanted(s: set<Key>, f: Filter) returns (k: Key)
    requires Matches(StatsOf(s), f)
    ensures k in s && Wanted(f, k.kind)
  {
    hide StatsOf, Matches;
    TotalCounts(s, f);
    k :| k in WantedOf(s, f);
  }

  // ------------------------------------------------------------------
  // Chances.

  function Power(b: real, n: nat): real
  {
    if n == 0 then 1.0 else b * Power(b, n - 1)
  }

  const MIN_CHANCE: real := 0.01

  /** `KnownAddress::chance`; `recent` says whether the last attempt was within ten minutes.
      The attempt counter wraps, so it may be negative. */
  function Chance(lastAttempt: Option<int>, recent: bool, attempts: int): (c: real)
    ensures c >= MIN_CHANCE
  {
    if lastAttempt.None? || recent then MIN_CHANCE
    else
      PowerPositive(1.5, if attempts >= 0 then attempts else -attempts);
      var c := if attempts >= 0 then 1.0 / Power(1.5, attempts) else Power(1.5, -attempts);
      if c < MIN_CHANCE then MIN_CHANCE else c
  }

  lemma {:induction false} PowerPositive(b: real, n: nat)
    requires b > 0.0
    ensures Power(b, n) > 0.0
  {
    if n > 0 {
      PowerPositive(b, n - 1);
    }
  }

  /** The chance is the least one for an address never attempted or attempted just now. Else
      it is 1 before any failed attempt, and each further one divides it by 1.5, down to the
      least one. */
  lemma ChanceSteps(lastAttempt: Option<int>, recent: bool, attempts: int)
    ensures lastAttempt.None? || recent ==> Chance(lastAttempt, recent, attempts) == 0.01
    ensures lastAttempt.Some? && !recent ==>
              var now, next := Chance(lastAttempt, recent, attempts), Chance(lastAttempt, recent, attempts + 1);
              && Chance(lastAttempt, recent, 0) == 1.0
              && next == (if now / 1.5 >= 0.01 then now / 1.5 else 0.01)
  {
    if lastAttempt.Some? && !recent {
      if attempts >= 0 {
        PowerPositive(1.5, attempts);
        Reciprocal(Power(1.5, attempts));
      } else {
        PowerPositive(1.5, -attempts - 1);
      }
    }
  }

  lemma Reciprocal(p: real)
    requires p > 0.0
    ensures 1.5 * p != 0.0 && 1.0 / (1.5 * p) == (1.0 / p) / 1.5
  {
    assert (1.0 / p) * p == 1.0;
    assert ((1.0 / p) / 1.5) * (1.5 * p) == (1.0 / p) * p;
  }

  /** More failed attempts never raise it. */
  lemma {:induction false} ChanceFalls(lastAttempt: Option<int>, recent: bool, fewer: int, more: int)
    requires fewer <= more
    ensures Chance(lastAttempt, recent, more) <= Chance(lastAttempt, recent, fewer)
    decreases more - fewer
  {
    hide Chance;
    if fewer < more {
      ChanceFalls(lastAttempt, recent, fewer, more - 1);
      ChanceSteps(lastAttempt, recent, more - 1);
      ChanceSteps(lastAttempt, recent, more);
    }
  }

  lemma {:induction false} PowerAdd(b: real, n: nat, k: nat)
    ensures Power(b, n + k) == Power(b, n) * Power(b, k)
  {
    if n > 0 {
      PowerAdd(b, n - 1, k);
    }
  }

  lemma {:induction false} PowerGrows(n: nat, k: nat)
    requires n <= k
    ensures 1.0 <= Power(1.2, n) <= Power(1.2, k)
    decreases k
  {
    if n < k {
      PowerGrows(n, k - 1);
    } else if n > 0 {
      PowerGrows(n - 1, n - 1);
    }
  }

  lemma Hundredfold()
    ensures Power(1.2, 26) >= 100.0
  {
    assert Power(1.2, 2) == 1.44;
    PowerAdd(1.2, 2, 2);
    PowerAdd(1.2, 4, 4);
    PowerAdd(1.2, 8, 8);
    PowerAdd(1.2, 16, 8);
    PowerAdd(1.2, 24, 2);
  }

  const LARGE: nat := 0x4000_0000

  /** A draw that fails leaves less than a hundredfold factor, so the 27th cannot fail. */
  lemma FailedDraw(draw: nat, round: nat, chance: real)
    requires draw < LARGE && chance >= MIN_CHANCE
    requires draw as real >= Power(1.2, round) * chance * LARGE as real
    ensures round < 26
  {
    if round >= 26 {
      CertainDraw(round, chance);
    }
  }

  lemma CertainDraw(round: nat, chance: real)
    requires round >= 26 && chance >= MIN_CHANCE
    ensures Power(1.2, round) * chance >= 1.0
  {
    hide Power;
    Hundredfold();
    PowerGrows(26, round);
    Product(Power(1.2, round), chance, 100.0, 0.01);
  }

  lemma Product(a: real, b: real, c: real, d: real)
    requires a >= c > 0.0 && b >= d > 0.0
    ensures a * b >= c * d
  {
    assert a * b >= c * b;
    assert c * b >= c * d;
  }

  /** The buckets whose statistics match, in order. */
  method MatchingIndexes(stats: seq<Stats>, f: Filter) returns (idxs: seq<nat>)
    ensures forall j :: 0 <= j < |idxs| ==> idxs[j] < |stats| && Matches(stats[idxs[j]], f)
    ensures forall b :: 0 <= b < |stats| && Matches(stats[b], f) ==> b in idxs
    ensures forall i, j :: 0 <= i < j < |idxs| ==> idxs[i] < idxs[j]
  {
    idxs := [];
    for b := 0 to |stats|
      invariant forall j :: 0 <= j < |idxs| ==> idxs[j] < b && Matches(stats[idxs[j]], f)
      invariant forall c :: 0 <= c < b && Matches(stats[c], f) ==> c in idxs
      invariant forall i, j :: 0 <= i < j < |idxs| ==> idxs[i] < idxs[j]
    {
      if Matches(stats[b], f) {
        idxs := idxs + [b];
      }
    }
  }
}
