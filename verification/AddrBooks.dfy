/** The address manager's redundant books, and what every change must keep true of them. */
module AddrBooks {
  import opened Options
  import opened Sequences

  // The books are an index of known addresses, new and tried buckets, per-bucket type statistics
  // and two counters.

  datatype AddrType = Unknown | IPv4 | IPv6 | TorV3

  /** An address's key, the text that names it; the text determines the type. */
  datatype Key = Key(kind: AddrType, text: string)

  /** A network address: its key, when it was last seen, its service flags. */
  datatype NetAddress = NetAddress(key: Key, timestamp: int, services: set<nat>)

  /** A known address. */
  datatype Entry = Entry(na: NetAddress, src: NetAddress, attempts: int,
                         lastAttempt: Option<int>, lastSuccess: Option<int>, tried: bool, refs: int)

  datatype Stats = Stats(ipv4: nat, ipv6: nat, torV3: nat)

  datatype Books = Books(index: map<Key, Entry>,
                         newBuckets: seq<set<Key>>, triedBuckets: seq<seq<Key>>,
                         newStats: seq<Stats>, triedStats: seq<Stats>,
                         nNew: int, nTried: int)

  /** The manager's random key, which decides the buckets. */
  type Secret = seq<nat>

  const NEW_BUCKET_COUNT: nat := 1024
  const TRIED_BUCKET_COUNT: nat := 64
  const NEW_BUCKET_SIZE: nat := 64
  const NEW_BUCKETS_PER_ADDRESS: nat := 8
  const U16: nat := 0x1_0000

  // ------------------------------------------------------------------
  // Counting.

  ghost function Holders(buckets: seq<set<Key>>, k: Key): set<nat>
  {
    set b: nat | b < |buckets| && k in buckets[b]
  }

  lemma HoldersAdd(buckets: seq<set<Key>>, b: nat, k: Key, j: Key)
    requires b < |buckets|
    ensures Holders(buckets[b := buckets[b] + {k}], j) ==
            if j == k then Holders(buckets, j) + {b} else Holders(buckets, j)
  {}

  lemma HoldersRemove(buckets: seq<set<Key>>, b: nat, k: Key, j: Key)
    requires b < |buckets|
    ensures Holders(buckets[b := buckets[b] - {k}], j) ==
            if j == k then Holders(buckets, j) - {b} else Holders(buckets, j)
  {}

  ghost function OfKind(s: set<Key>, t: AddrType): set<Key>
  {
    set k | k in s && k.kind == t
  }

  /** The statistics a bucket with these members must have. */
  ghost function StatsOf(s: set<Key>): Stats
  {
    Stats(|OfKind(s, IPv4)|, |OfKind(s, IPv6)|, |OfKind(s, TorV3)|)
  }

  ghost function Untried(index: map<Key, Entry>): set<Key>
  {
    set k | k in index && !index[k].tried
  }

  ghost function Tried(index: map<Key, Entry>): set<Key>
  {
    set k | k in index && index[k].tried
  }

  /** `BucketStats::increment`, on wrapping 16-bit counters. */
  function Increment(s: Stats, t: AddrType): Stats
  {
    match t
    case IPv4 => s.(ipv4 := (s.ipv4 + 1) % U16)
    case IPv6 => s.(ipv6 := (s.ipv6 + 1) % U16)
    case TorV3 => s.(torV3 := (s.torV3 + 1) % U16)
    case Unknown => s
  }

  /** `BucketStats::decrement`, on wrapping 16-bit counters. */
  function Decrement(s: Stats, t: AddrType): Stats
  {
    match t
    case IPv4 => s.(ipv4 := (s.ipv4 + (U16 - 1)) % U16)
    case IPv6 => s.(ipv6 := (s.ipv6 + (U16 - 1)) % U16)
    case TorV3 => s.(torV3 := (s.torV3 + (U16 - 1)) % U16)
    case Unknown => s
  }

  lemma KindCount(s: set<Key>, k: Key, t: AddrType)
    requires k !in s
    ensures |OfKind(s + {k}, t)| == |OfKind(s, t)| + (if k.kind == t then 1 else 0)
    ensures |OfKind(s, t)| <= |s|
  {
    if k.kind == t {
      assert OfKind(s + {k}, t) == OfKind(s, t) + {k};
    } else {
      assert OfKind(s + {k}, t) == OfKind(s, t);
    }
    SubsetSize(OfKind(s, t), s);
  }

  lemma SubsetSize<T>(a: set<T>, b: set<T>)
    requires a <= b
    ensures |a| <= |b|
  {
    assert b == a + (b - a);
  }

  /** Below 2^16 - 1 members the counters follow the members exactly. */
  lemma StatsAdd(s: set<Key>, k: Key)
    requires k !in s && |s| + 1 < U16
    ensures StatsOf(s + {k}) == Increment(StatsOf(s), k.kind)
    ensures StatsOf(s) == Decrement(StatsOf(s + {k}), k.kind)
  {
    KindCount(s, k, IPv4);
    KindCount(s, k, IPv6);
    KindCount(s, k, TorV3);
  }

  lemma StatsRemove(s: set<Key>, k: Key)
    requires k in s && |s| < U16
    ensures StatsOf(s - {k}) == Decrement(StatsOf(s), k.kind)
    ensures |s - {k}| == |s| - 1
  {
    assert (s - {k}) + {k} == s;
    StatsAdd(s - {k}, k);
  }

  // ------------------------------------------------------------------
  // The invariant.

  ghost predicate Shape(m: Books, triedSize: nat)
  {
    && |m.newBuckets| == |m.newStats| == NEW_BUCKET_COUNT
    && |m.triedBuckets| == |m.triedStats| == TRIED_BUCKET_COUNT
    && (forall b :: 0 <= b < |m.newBuckets| ==> |m.newBuckets[b]| <= NEW_BUCKET_SIZE + 1)
    && (forall b :: 0 <= b < |m.triedBuckets| ==> |m.triedBuckets[b]| <= triedSize)
    && triedSize < U16
  }

  /** Buckets hold indexed addresses. */
  ghost predicate BucketsIndexed(m: Books)
  {
    && (forall b, k :: 0 <= b < |m.newBuckets| && k in m.newBuckets[b] ==> k in m.index)
    && (forall b, k :: 0 <= b < |m.triedBuckets| && k in m.triedBuckets[b] ==> k in m.index)
  }

  /** No address is in two tried places. */
  ghost predicate TriedOnce(tried: seq<seq<Key>>)
  {
    && (forall b :: 0 <= b < |tried| ==> Distinct(tried[b]))
    && (forall b, c, k :: 0 <= b < |tried| && 0 <= c < |tried| && k in tried[b] && k in tried[c] ==> b == c)
  }

  ghost predicate InTried(tried: seq<seq<Key>>, k: Key)
  {
    exists b :: 0 <= b < |tried| && k in tried[b]
  }

  /** One address: filed under its own key, referenced once per new bucket that
      holds it, and either tried, in a tried bucket and in no new one, or new,
      in 1 to 8 new buckets. A loose address is being moved: it is new, in at
      most 8 new buckets. */
  ghost predicate AddressOk(m: Books, loose: set<Key>, k: Key)
    requires k in m.index
  {
    var e := m.index[k];
    && e.na.key == k
    && e.refs == |Holders(m.newBuckets, k)|
    && (e.tried <==> InTried(m.triedBuckets, k))
    && (e.tried ==> e.refs == 0)
    && e.refs <= NEW_BUCKETS_PER_ADDRESS
    && (!e.tried && k !in loose ==> e.refs >= 1)
    && (k in loose ==> !e.tried)
  }

  ghost predicate CountsOk(m: Books)
  {
    && m.nNew == |Untried(m.index)|
    && m.nTried == |Tried(m.index)|
    && |m.newBuckets| == |m.newStats| && |m.triedBuckets| == |m.triedStats|
    && (forall b :: 0 <= b < |m.newBuckets| ==> m.newStats[b] == StatsOf(m.newBuckets[b]))
    && (forall b :: 0 <= b < |m.triedBuckets| ==> m.triedStats[b] == StatsOf(Members(m.triedBuckets[b])))
  }

  ghost predicate Inv(m: Books, triedSize: nat, loose: set<Key>)
  {
    && Shape(m, triedSize)
    && BucketsIndexed(m)
    && TriedOnce(m.triedBuckets)
    && (forall k :: k in m.index ==> AddressOk(m, loose, k))
    && CountsOk(m)
  }

  lemma Sizes(m: Books, size: nat, loose: set<Key>)
    requires Inv(m, size, loose)
    ensures |m.newBuckets| == |m.newStats| == NEW_BUCKET_COUNT
    ensures |m.triedBuckets| == |m.triedStats| == TRIED_BUCKET_COUNT
  {}

  lemma SizeFits(m: Books, size: nat)
    requires Inv(m, size, {})
    ensures size < U16
  {}

  /** The books of a manager that knows no address. */
  function Empty(): Books
  {
    Books(map[], seq(NEW_BUCKET_COUNT, i => {}), seq(TRIED_BUCKET_COUNT, i => []),
          seq(NEW_BUCKET_COUNT, i => Stats(0, 0, 0)), seq(TRIED_BUCKET_COUNT, i => Stats(0, 0, 0)), 0, 0)
  }

  lemma EmptyInv(triedSize: nat)
    requires triedSize < U16
    ensures Inv(Empty(), triedSize, {})
  {
    assert Untried(map[]) == {} && Tried(map[]) == {};
    assert OfKind({}, IPv4) == {} && OfKind({}, IPv6) == {} && OfKind({}, TorV3) == {};
    assert Members<Key>([]) == {};
  }

  // ------------------------------------------------------------------
  // The elementary changes.

  /** An address's record replaced. */
  function Refiled(m: Books, k: Key, e: Entry): Books
  {
    m.(index := m.index[k := e])
  }

  /** Records may change in all but their place in the books. */
  ghost predicate SameRoles(index: map<Key, Entry>, index': map<Key, Entry>)
  {
    && index.Keys == index'.Keys
    && forall k :: k in index ==>
         && index'[k].na.key == index[k].na.key
         && index'[k].refs == index[k].refs && index'[k].tried == index[k].tried
  }

  lemma SameRolesInv(m: Books, size: nat, loose: set<Key>, index': map<Key, Entry>)
    requires Inv(m, size, loose) && SameRoles(m.index, index')
    ensures Inv(m.(index := index'), size, loose)
  {
    hide TriedOnce, InTried, StatsOf, AddressOk;
    var m' := m.(index := index');
    assert Untried(index') == Untried(m.index) && Tried(index') == Tried(m.index);
    forall j | j in m'.index
      ensures AddressOk(m', loose, j)
    {
      assert AddressOk(m, loose, j);
      SameRoleAddress(m, loose, index', j);
    }
  }

  lemma SameRoleAddress(m: Books, loose: set<Key>, index': map<Key, Entry>, j: Key)
    requires j in m.index && j in index' && AddressOk(m, loose, j)
    requires index'[j].na.key == m.index[j].na.key && index'[j].refs == m.index[j].refs
    requires index'[j].tried == m.index[j].tried
    ensures AddressOk(m.(index := index'), loose, j)
  {}

  lemma RefiledInv(m: Books, size: nat, loose: set<Key>, k: Key, e: Entry)
    requires Inv(m, size, loose) && k in m.index
    requires e.na.key == k && e.refs == m.index[k].refs && e.tried == m.index[k].tried
    ensures Inv(Refiled(m, k, e), size, loose)
  {
    hide Inv;
    assert m.index[k].na.key == k by { FiledByKey(m, size, loose, k); }
    SameRolesInv(m, size, loose, m.index[k := e]);
  }

  lemma FiledByKey(m: Books, size: nat, loose: set<Key>, k: Key)
    requires Inv(m, size, loose) && k in m.index
    ensures m.index[k].na.key == k
  {
    assert AddressOk(m, loose, k);
  }

  /** A newly seen address, in no bucket yet. */
  function Learn(m: Books, e: Entry): Books
  {
    m.(index := m.index[e.na.key := e], nNew := m.nNew + 1)
  }

  lemma LearnInv(m: Books, size: nat, e: Entry)
    requires Inv(m, size, {}) && e.na.key !in m.index && !e.tried && e.refs == 0
    ensures Inv(Learn(m, e), size, {e.na.key})
  {
    hide TriedOnce, InTried, StatsOf, AddressOk;
    var k := e.na.key;
    var m' := Learn(m, e);
    assert Untried(m'.index) == Untried(m.index) + {k};
    assert Tried(m'.index) == Tried(m.index);
    forall j | j in m'.index
      ensures AddressOk(m', {k}, j)
    {
      assert j != k ==> AddressOk(m, {}, j);
      LearnAddress(m, e, j);
    }
  }

  lemma LearnAddress(m: Books, e: Entry, j: Key)
    requires BucketsIndexed(m) && e.na.key !in m.index && !e.tried && e.refs == 0
    requires j != e.na.key ==> j in m.index && AddressOk(m, {}, j)
    ensures AddressOk(Learn(m, e), {e.na.key}, j)
  {
    hide InTried;
    if j == e.na.key {
      assert Holders(m.newBuckets, j) == {};
      NotTried(m, j);
    }
  }

  lemma NotTried(m: Books, k: Key)
    requires BucketsIndexed(m) && k !in m.index
    ensures !InTried(m.triedBuckets, k)
  {}

  /** The address put into one more new bucket. */
  function PutNew(m: Books, b: nat, k: Key): Books
    requires b < |m.newBuckets| == |m.newStats| && k in m.index
  {
    m.(index := m.index[k := m.index[k].(refs := m.index[k].refs + 1)],
       newBuckets := m.newBuckets[b := m.newBuckets[b] + {k}],
       newStats := m.newStats[b := Increment(m.newStats[b], k.kind)])
  }

  lemma PutNewInv(m: Books, size: nat, loose: set<Key>, b: nat, k: Key)
    requires Inv(m, size, loose) && b < NEW_BUCKET_COUNT && k in m.index
    requires !m.index[k].tried && m.index[k].refs < NEW_BUCKETS_PER_ADDRESS
    requires k !in m.newBuckets[b] && |m.newBuckets[b]| <= NEW_BUCKET_SIZE
    ensures Inv(PutNew(m, b, k), size, loose - {k})
  {
    hide TriedOnce, InTried, AddressOk, StatsOf, Untried, Tried, Increment;
    var m' := PutNew(m, b, k);
    StatsAdd(m.newBuckets[b], k);
    SameTried(m.index, k, m'.index[k]);
    assert m'.index == m.index[k := m'.index[k]];
    forall j | j in m'.index
      ensures AddressOk(m', loose - {k}, j)
    {
      assert AddressOk(m, loose, j);
      PutNewAddress(m, loose, b, k, j);
    }
  }

  lemma SameTried(index: map<Key, Entry>, k: Key, e: Entry)
    requires k in index && e.tried == index[k].tried
    ensures Untried(index[k := e]) == Untried(index) && Tried(index[k := e]) == Tried(index)
  {}

  lemma PutNewAddress(m: Books, loose: set<Key>, b: nat, k: Key, j: Key)
    requires b < |m.newBuckets| == |m.newStats| && k in m.index && j in m.index && AddressOk(m, loose, j)
    requires !m.index[k].tried && m.index[k].refs < NEW_BUCKETS_PER_ADDRESS && k !in m.newBuckets[b]
    ensures AddressOk(PutNew(m, b, k), loose - {k}, j)
  {
    hide InTried, Increment;
    HoldersAdd(m.newBuckets, b, k, j);
    assert b !in Holders(m.newBuckets, k);
  }

  /** The address taken out of one new bucket, and forgotten with the last. */
  function RemoveNew(m: Books, b: nat, k: Key): Books
    requires b < |m.newBuckets| == |m.newStats| && k in m.index
  {
    var e := m.index[k].(refs := m.index[k].refs - 1);
    m.(index := if e.refs == 0 then m.index - {k} else m.index[k := e],
       nNew := if e.refs == 0 then m.nNew - 1 else m.nNew,
       newBuckets := m.newBuckets[b := m.newBuckets[b] - {k}],
       newStats := m.newStats[b := Decrement(m.newStats[b], k.kind)])
  }

  lemma RemoveNewInv(m: Books, size: nat, loose: set<Key>, b: nat, k: Key)
    requires Inv(m, size, loose) && b < NEW_BUCKET_COUNT && k in m.newBuckets[b] && k !in loose
    ensures k in m.index && Inv(RemoveNew(m, b, k), size, loose)
    ensures RemoveNew(m, b, k).newBuckets[b] == m.newBuckets[b] - {k}
  {
    hide TriedOnce, InTried, AddressOk, StatsOf, Untried, Tried, Decrement;
    assert k in m.index && AddressOk(m, loose, k);
    HolderFacts(m, loose, b, k);
    var m' := RemoveNew(m, b, k);
    StatsRemove(m.newBuckets[b], k);
    RemoveCounts(m, b, k);
    forall c, j | 0 <= c < |m'.newBuckets| && j in m'.newBuckets[c]
      ensures j in m'.index
    {
      assert j in m.newBuckets[c];
      if j == k {
        StillHeld(m, loose, b, c, k);
      }
    }
    forall c, j | 0 <= c < |m'.triedBuckets| && j in m'.triedBuckets[c]
      ensures j in m'.index
    {
      assert j in m.index && AddressOk(m, loose, j);
      NewNotTried(m, loose, c, k);
    }
    forall j | j in m'.index
      ensures AddressOk(m', loose, j)
    {
      assert AddressOk(m, loose, j);
      RemoveNewAddress(m, loose, b, k, j);
    }
  }

  lemma HolderFacts(m: Books, loose: set<Key>, b: nat, k: Key)
    requires b < |m.newBuckets| && k in m.newBuckets[b] && k in m.index && AddressOk(m, loose, k)
    ensures m.index[k].refs >= 1 && !m.index[k].tried
  {
    assert b in Holders(m.newBuckets, k);
  }

  lemma StillHeld(m: Books, loose: set<Key>, b: nat, c: nat, k: Key)
    requires b < |m.newBuckets| && c < |m.newBuckets| && b != c && k in m.newBuckets[b] && k in m.newBuckets[c]
    requires k in m.index && AddressOk(m, loose, k)
    ensures m.index[k].refs >= 2
  {
    SubsetSize({b, c}, Holders(m.newBuckets, k));
  }

  lemma NewNotTried(m: Books, loose: set<Key>, c: nat, k: Key)
    requires c < |m.triedBuckets| && k in m.index && AddressOk(m, loose, k) && !m.index[k].tried
    ensures k !in m.triedBuckets[c]
  {}

  lemma RemoveNewAddress(m: Books, loose: set<Key>, b: nat, k: Key, j: Key)
    requires b < |m.newBuckets| == |m.newStats| && k in m.index && j in m.index && AddressOk(m, loose, j)
    requires k in m.newBuckets[b] && k !in loose && j in RemoveNew(m, b, k).index
    ensures AddressOk(RemoveNew(m, b, k), loose, j)
  {
    hide InTried, Decrement;
    HoldersRemove(m.newBuckets, b, k, j);
    assert b in Holders(m.newBuckets, k);
  }

  lemma RemoveCounts(m: Books, b: nat, k: Key)
    requires b < |m.newBuckets| == |m.newStats| && k in m.index && !m.index[k].tried
    ensures var m' := RemoveNew(m, b, k);
            && Tried(m'.index) == Tried(m.index)
            && |Untried(m'.index)| == |Untried(m.index)| - (if m.index[k].refs == 1 then 1 else 0)
  {
    var m' := RemoveNew(m, b, k);
    if m.index[k].refs == 1 {
      assert Untried(m'.index) == Untried(m.index) - {k};
    } else {
      assert Untried(m'.index) == Untried(m.index);
    }
  }

  // ------------------------------------------------------------------
  // Promotion to a tried bucket.

  /** The address taken out of the first n new buckets. */
  function ClearNew(m: Books, k: Key, n: nat): (r: Books)
    requires n <= |m.newBuckets| == |m.newStats| && k in m.index
    ensures |r.newBuckets| == |m.newBuckets| && |r.newStats| == |m.newStats| && r.index.Keys == m.index.Keys
    ensures r.triedBuckets == m.triedBuckets && r.triedStats == m.triedStats
    decreases n
  {
    if n == 0 then m
    else
      var c := ClearNew(m, k, n - 1);
      TakeOut(c, n - 1, k)
  }

  /** One step of the loop that takes an address out of the new buckets. */
  function TakeOut(m: Books, b: nat, k: Key): (r: Books)
    requires b < |m.newBuckets| == |m.newStats| && k in m.index
    ensures |r.newBuckets| == |m.newBuckets| && |r.newStats| == |m.newStats| && r.index.Keys == m.index.Keys
    ensures r.triedBuckets == m.triedBuckets && r.triedStats == m.triedStats
  {
    if k !in m.newBuckets[b] then m
    else m.(index := m.index[k := m.index[k].(refs := m.index[k].refs - 1)],
            newBuckets := m.newBuckets[b := m.newBuckets[b] - {k}],
            newStats := m.newStats[b := Decrement(m.newStats[b], k.kind)])
  }

  lemma ClearNewNone(m: Books, k: Key)
    requires |m.newBuckets| == |m.newStats| && k in m.index
    ensures ClearNew(m, k, 0) == m
  {}

  lemma ClearNewStep(m: Books, k: Key, n: nat)
    requires n < |m.newBuckets| == |m.newStats| && k in m.index
    ensures ClearNew(m, k, n + 1) == TakeOut(ClearNew(m, k, n), n, k)
    ensures forall c :: n < c < |m.newBuckets| ==>
              ClearNew(m, k, n + 1).newBuckets[c] == ClearNew(m, k, n).newBuckets[c]
  {
    TakeOutOthers(ClearNew(m, k, n), n, k);
  }

  lemma TakeOutOthers(m: Books, b: nat, k: Key)
    requires b < |m.newBuckets| == |m.newStats| && k in m.index
    ensures forall c :: 0 <= c < |m.newBuckets| && c != b ==> TakeOut(m, b, k).newBuckets[c] == m.newBuckets[c]
  {}

  lemma RemoveByTaking(m: Books, b: nat, k: Key)
    requires b < |m.newBuckets| == |m.newStats| && k in m.index && k in m.newBuckets[b]
    ensures var t := TakeOut(m, b, k);
            RemoveNew(m, b, k) == if t.index[k].refs == 0 then t.(index := t.index - {k}, nNew := t.nNew - 1) else t
  {
    hide Decrement;
    var t := TakeOut(m, b, k);
    assert t.index - {k} == m.index - {k};
  }

  lemma TakeOutInv(m: Books, size: nat, b: nat, k: Key)
    requires Inv(m, size, {k}) && b < NEW_BUCKET_COUNT && k in m.index
    ensures Inv(TakeOut(m, b, k), size, {k})
    ensures TakeOut(m, b, k).newBuckets[b] == m.newBuckets[b] - {k}
    ensures forall c :: 0 <= c < NEW_BUCKET_COUNT && c != b ==> TakeOut(m, b, k).newBuckets[c] == m.newBuckets[c]
  {
    hide TriedOnce, InTried, AddressOk, StatsOf, Untried, Tried, Decrement;
    if k in m.newBuckets[b] {
      var m' := TakeOut(m, b, k);
      StatsRemove(m.newBuckets[b], k);
      SameTried(m.index, k, m'.index[k]);
      assert m'.index == m.index[k := m'.index[k]];
      forall j | j in m'.index
        ensures AddressOk(m', {k}, j)
      {
        assert AddressOk(m, {k}, j);
        TakeOutAddress(m, b, k, j);
      }
    }
  }

  lemma TakeOutAddress(m: Books, b: nat, k: Key, j: Key)
    requires b < |m.newBuckets| == |m.newStats| && k in m.index && j in m.index && AddressOk(m, {k}, j)
    ensures AddressOk(TakeOut(m, b, k), {k}, j)
  {
    hide InTried, Decrement;
    HoldersRemove(m.newBuckets, b, k, j);
    if k in m.newBuckets[b] {
      assert b in Holders(m.newBuckets, k);
    }
  }

  lemma {:induction false} ClearNewInv(m: Books, size: nat, k: Key, n: nat)
    requires Inv(m, size, {k}) && k in m.index && n <= NEW_BUCKET_COUNT
    ensures Inv(ClearNew(m, k, n), size, {k}) && k in ClearNew(m, k, n).index
    ensures forall b :: 0 <= b < n ==> ClearNew(m, k, n).newBuckets[b] == m.newBuckets[b] - {k}
    ensures forall b :: n <= b < NEW_BUCKET_COUNT ==> ClearNew(m, k, n).newBuckets[b] == m.newBuckets[b]
    ensures ClearNew(m, k, n).triedBuckets == m.triedBuckets
    decreases n
  {
    hide BucketsIndexed, TriedOnce, AddressOk, CountsOk, TakeOut;
    if n > 0 {
      ClearNewInv(m, size, k, n - 1);
      var c := ClearNew(m, k, n - 1);
      TakeOutInv(c, size, n - 1, k);
      assert ClearNew(m, k, n) == TakeOut(c, n - 1, k);
    }
  }

  /** An address out of every new bucket has no references. */
  lemma Unreferenced(m: Books, size: nat, loose: set<Key>, k: Key)
    requires Inv(m, size, loose) && k in m.index
    requires forall b :: 0 <= b < |m.newBuckets| ==> k !in m.newBuckets[b]
    ensures m.index[k].refs == 0
  {
    assert AddressOk(m, loose, k);
    assert Holders(m.newBuckets, k) == {};
  }

  /** A loose address put at the end of a tried bucket. */
  function PutTried(m: Books, b: nat, k: Key): Books
    requires b < |m.triedBuckets| == |m.triedStats| && k in m.index
  {
    m.(index := m.index[k := m.index[k].(tried := true)],
       triedBuckets := m.triedBuckets[b := m.triedBuckets[b] + [k]],
       triedStats := m.triedStats[b := Increment(m.triedStats[b], k.kind)],
       nNew := m.nNew - 1, nTried := m.nTried + 1)
  }

  lemma InTriedAppend(tried: seq<seq<Key>>, b: nat, k: Key, j: Key)
    requires b < |tried|
    ensures InTried(tried[b := tried[b] + [k]], j) <==> j == k || InTried(tried, j)
  {
    var more := tried[b := tried[b] + [k]];
    assert k in more[b];
    if InTried(tried, j) {
      var c :| 0 <= c < |tried| && j in tried[c];
      assert j in more[c];
    }
  }

  lemma TriedOnceAppend(tried: seq<seq<Key>>, b: nat, k: Key)
    requires TriedOnce(tried) && b < |tried| && !InTried(tried, k)
    ensures TriedOnce(tried[b := tried[b] + [k]])
  {
    var more := tried[b := tried[b] + [k]];
    assert forall c, j :: 0 <= c < |more| && j in more[c] ==> j in tried[c] || (c == b && j == k);
  }

  lemma BecomesTried(index: map<Key, Entry>, k: Key)
    requires k in index && !index[k].tried
    ensures var after := index[k := index[k].(tried := true)];
            && |Untried(after)| == |Untried(index)| - 1
            && |Tried(after)| == |Tried(index)| + 1
  {
    var after := index[k := index[k].(tried := true)];
    assert Untried(after) == Untried(index) - {k};
    assert Tried(after) == Tried(index) + {k};
  }

  lemma {:induction false} DistinctSize(s: seq<Key>)
    requires Distinct(s)
    ensures |Members(s)| == |s|
  {
    if s == [] {
      assert Members(s) == {};
    } else {
      var n := |s| - 1;
      DistinctSize(s[..n]);
      assert Members(s) == Members(s[..n]) + {s[n]};
    }
  }

  lemma MembersAppend(s: seq<Key>, k: Key)
    ensures Members(s + [k]) == Members(s) + {k}
  {}

  lemma PutTriedInv(m: Books, size: nat, b: nat, k: Key)
    requires Inv(m, size, {k}) && b < TRIED_BUCKET_COUNT && k in m.index && m.index[k].refs == 0
    requires |m.triedBuckets[b]| < size
    ensures Inv(PutTried(m, b, k), size, {})
  {
    hide TriedOnce, InTried, AddressOk, StatsOf, Untried, Tried, Increment, Members, Distinct;
    var m' := PutTried(m, b, k);
    assert AddressOk(m, {k}, k);
    LooseFacts(m, {k}, k);
    TriedOnceAppend(m.triedBuckets, b, k);
    BecomesTried(m.index, k);
    TriedBucketSize(m.triedBuckets, b, k);
    StatsAdd(Members(m.triedBuckets[b]), k);
    MembersAppend(m.triedBuckets[b], k);
    forall j | j in m'.index
      ensures AddressOk(m', {}, j)
    {
      assert AddressOk(m, {k}, j);
      PutTriedAddress(m, b, k, j);
    }
  }

  lemma LooseFacts(m: Books, loose: set<Key>, k: Key)
    requires k in m.index && AddressOk(m, loose, k) && k in loose
    ensures !m.index[k].tried && !InTried(m.triedBuckets, k)
  {}

  lemma TriedBucketSize(tried: seq<seq<Key>>, b: nat, k: Key)
    requires TriedOnce(tried) && b < |tried| && !InTried(tried, k)
    ensures |Members(tried[b])| == |tried[b]| && k !in Members(tried[b])
  {
    DistinctSize(tried[b]);
  }

  lemma PutTriedAddress(m: Books, b: nat, k: Key, j: Key)
    requires b < |m.triedBuckets| == |m.triedStats| && k in m.index && j in m.index && AddressOk(m, {k}, j)
    requires m.index[k].refs == 0
    ensures AddressOk(PutTried(m, b, k), {}, j)
  {
    hide InTried, Increment;
    InTriedAppend(m.triedBuckets, b, k, j);
  }

  // ------------------------------------------------------------------
  // Promotion into a full tried bucket.

  /** A loose address in place of a tried one, which becomes loose. */
  function SwapTried(m: Books, b: nat, i: nat, k: Key): Books
    requires b < |m.triedBuckets| == |m.triedStats| && i < |m.triedBuckets[b]| && k in m.index
    requires m.triedBuckets[b][i] in m.index
  {
    var out := m.triedBuckets[b][i];
    var swapped := m.index[k := m.index[k].(tried := true)];
    m.(index := swapped[out := swapped[out].(tried := false)],
       triedBuckets := m.triedBuckets[b := m.triedBuckets[b][i := k]],
       triedStats := m.triedStats[b := Increment(Decrement(m.triedStats[b], out.kind), k.kind)])
  }

  lemma SwapMembers(s: seq<Key>, i: nat, k: Key)
    requires Distinct(s) && i < |s| && k !in s
    ensures Distinct(s[i := k]) && Members(s[i := k]) == Members(s) - {s[i]} + {k}
  {
    var t := s[i := k];
    forall j | j in Members(s) - {s[i]} + {k}
      ensures j in t
    {
      if j == k {
        assert t[i] == k;
      } else {
        var n :| 0 <= n < |s| && s[n] == j;
        assert t[n] == j;
      }
    }
  }

  lemma InTriedSwap(tried: seq<seq<Key>>, b: nat, i: nat, k: Key, j: Key)
    requires TriedOnce(tried) && b < |tried| && i < |tried[b]| && !InTried(tried, k)
    ensures InTried(tried[b := tried[b][i := k]], j) <==> j == k || (j != tried[b][i] && InTried(tried, j))
  {
    var after := tried[b := tried[b][i := k]];
    SwapMembers(tried[b], i, k);
    assert Members(after[b]) == Members(tried[b]) - {tried[b][i]} + {k};
    assert forall x :: x in after[b] <==> x in Members(after[b]);
    assert forall x :: x in tried[b] <==> x in Members(tried[b]);
    if InTried(tried, j) && j != tried[b][i] {
      var c :| 0 <= c < |tried| && j in tried[c];
      assert j in after[c];
    }
    if j == k {
      assert j in after[b];
    }
    if InTried(after, j) && j != k {
      var c :| 0 <= c < |after| && j in after[c];
      assert j in tried[c];
    }
  }

  lemma TriedOnceSwap(tried: seq<seq<Key>>, b: nat, i: nat, k: Key)
    requires TriedOnce(tried) && b < |tried| && i < |tried[b]| && !InTried(tried, k)
    ensures TriedOnce(tried[b := tried[b][i := k]])
  {
    var after := tried[b := tried[b][i := k]];
    SwapMembers(tried[b], i, k);
    assert forall c, j :: 0 <= c < |after| && j in after[c] ==> j in tried[c] || (c == b && j == k);
  }

  lemma SwapCounts(index: map<Key, Entry>, k: Key, out: Key)
    requires k in index && out in index && !index[k].tried && index[out].tried
    ensures var swapped := index[k := index[k].(tried := true)];
            var after := swapped[out := swapped[out].(tried := false)];
            && |Untried(after)| == |Untried(index)| && |Tried(after)| == |Tried(index)|
            && after.Keys == index.Keys
  {
    var swapped := index[k := index[k].(tried := true)];
    var after := swapped[out := swapped[out].(tried := false)];
    assert Untried(after) == Untried(index) - {k} + {out};
    assert Tried(after) == Tried(index) + {k} - {out};
  }

  lemma SwapTriedInv(m: Books, size: nat, b: nat, i: nat, k: Key)
    requires Inv(m, size, {k}) && b < TRIED_BUCKET_COUNT && i < |m.triedBuckets[b]| && k in m.index
    requires m.index[k].refs == 0
    ensures m.triedBuckets[b][i] in m.index
    ensures var out := m.triedBuckets[b][i];
            && Inv(SwapTried(m, b, i, k), size, {out})
            && SwapTried(m, b, i, k).index[out].refs == 0
  {
    hide TriedOnce, InTried, AddressOk, StatsOf, Untried, Tried, Increment, Decrement, Members, Distinct;
    var out := m.triedBuckets[b][i];
    assert out in m.triedBuckets[b];
    assert AddressOk(m, {k}, k) && AddressOk(m, {k}, out);
    LooseFacts(m, {k}, k);
    TriedFacts(m, {k}, b, out);
    var m' := SwapTried(m, b, i, k);
    TriedOnceSwap(m.triedBuckets, b, i, k);
    SwapCounts(m.index, k, out);
    SwapStats(m.triedBuckets, b, i, k);
    SwapIndexed(m, b, i, k);
    forall j | j in m'.index
      ensures AddressOk(m', {out}, j)
    {
      assert AddressOk(m, {k}, j);
      SwapTriedAddress(m, b, i, k, j);
    }
  }

  lemma TriedFacts(m: Books, loose: set<Key>, b: nat, k: Key)
    requires b < |m.triedBuckets| && k in m.triedBuckets[b] && k in m.index && AddressOk(m, loose, k)
    ensures m.index[k].tried && m.index[k].refs == 0 && k !in loose
  {
    assert InTried(m.triedBuckets, k);
  }

  lemma SwapStats(tried: seq<seq<Key>>, b: nat, i: nat, k: Key)
    requires TriedOnce(tried) && b < |tried| && i < |tried[b]| < U16 && !InTried(tried, k)
    ensures var out := tried[b][i];
            StatsOf(Members(tried[b][i := k])) == Increment(Decrement(StatsOf(Members(tried[b])), out.kind), k.kind)
  {
    hide StatsOf, Increment, Decrement;
    var s := tried[b];
    DistinctSize(s);
    SwapMembers(s, i, k);
    assert s[i] in Members(s) && k !in Members(s);
    StatsRemove(Members(s), s[i]);
    StatsAdd(Members(s) - {s[i]}, k);
  }

  lemma SwapIndexed(m: Books, b: nat, i: nat, k: Key)
    requires BucketsIndexed(m) && b < |m.triedBuckets| == |m.triedStats| && i < |m.triedBuckets[b]| && k in m.index
    requires m.triedBuckets[b][i] in m.index
    ensures BucketsIndexed(SwapTried(m, b, i, k))
  {
    hide Increment, Decrement;
    var m' := SwapTried(m, b, i, k);
    assert forall c, j :: 0 <= c < |m'.triedBuckets| && j in m'.triedBuckets[c] ==> j in m.triedBuckets[c] || j == k;
  }

  lemma SwapTriedAddress(m: Books, b: nat, i: nat, k: Key, j: Key)
    requires b < |m.triedBuckets| == |m.triedStats| && i < |m.triedBuckets[b]| && k in m.index && j in m.index
    requires TriedOnce(m.triedBuckets) && !InTried(m.triedBuckets, k) && m.triedBuckets[b][i] in m.index
    requires AddressOk(m, {k}, j) && m.index[k].refs == 0 && m.index[m.triedBuckets[b][i]].refs == 0
    requires k != m.triedBuckets[b][i]
    ensures AddressOk(SwapTried(m, b, i, k), {m.triedBuckets[b][i]}, j)
  {
    hide InTried, TriedOnce, Increment, Decrement;
    InTriedSwap(m.triedBuckets, b, i, k, j);
  }

  // ------------------------------------------------------------------
  // Expiry.

  ghost predicate BucketIndexed(m: Books, b: nat)
  {
    b < |m.newBuckets| && forall k :: k in m.newBuckets[b] ==> k in m.index
  }

  ghost function LastHeld(m: Books, r: set<Key>): set<Key>
  {
    set k | k in r && k in m.index && m.index[k].refs == 1
  }

  /** A set of addresses taken out of one new bucket. */
  ghost function RemoveSet(m: Books, b: nat, r: set<Key>): Books
    requires b < |m.newBuckets| == |m.newStats|
  {
    m.(index := map k | k in m.index && k !in LastHeld(m, r) ::
                  if k in r then m.index[k].(refs := m.index[k].refs - 1) else m.index[k],
       nNew := m.nNew - |LastHeld(m, r)|,
       newBuckets := m.newBuckets[b := m.newBuckets[b] - r],
       newStats := m.newStats[b := StatsOf(m.newBuckets[b] - r)])
  }

  lemma RemoveNone(m: Books, size: nat, loose: set<Key>, b: nat)
    requires Inv(m, size, loose) && b < NEW_BUCKET_COUNT
    ensures RemoveSet(m, b, {}) == m
  {
    assert LastHeld(m, {}) == {};
    assert m.newBuckets[b] - {} == m.newBuckets[b];
    assert RemoveSet(m, b, {}).index == m.index;
  }

  lemma RemoveOneMore(m: Books, b: nat, r: set<Key>, k: Key)
    requires b < |m.newBuckets| == |m.newStats| && |m.newBuckets[b]| < U16
    requires k in m.index && k !in r && k in m.newBuckets[b]
    ensures var now := RemoveSet(m, b, r);
            k in now.index && RemoveNew(now, b, k) == RemoveSet(m, b, r + {k})
  {
    hide StatsOf, Decrement, LastHeld;
    var now := RemoveSet(m, b, r);
    SubsetSize(m.newBuckets[b] - r, m.newBuckets[b]);
    StatsRemove(m.newBuckets[b] - r, k);
    assert m.newBuckets[b] - r - {k} == m.newBuckets[b] - (r + {k});
    UnremovedStay(m, b, r, k);
    LastHeldMore(m, r, k);
    RemoveOneMoreIndex(m, b, r, k);
  }

  lemma RemoveOneMoreIndex(m: Books, b: nat, r: set<Key>, k: Key)
    requires b < |m.newBuckets| == |m.newStats| && k in m.index && k !in r
    ensures k in RemoveSet(m, b, r).index
    ensures RemoveNew(RemoveSet(m, b, r), b, k).index == RemoveSet(m, b, r + {k}).index
  {
    hide StatsOf, Decrement;
    var before := RemoveNew(RemoveSet(m, b, r), b, k).index;
    var after := RemoveSet(m, b, r + {k}).index;
    assert forall j :: j in before <==> j in after;
  }

  lemma LastHeldMore(m: Books, r: set<Key>, k: Key)
    requires k in m.index && k !in r
    ensures LastHeld(m, r + {k}) == LastHeld(m, r) + (if m.index[k].refs == 1 then {k} else {})
    ensures |LastHeld(m, r + {k})| == |LastHeld(m, r)| + (if m.index[k].refs == 1 then 1 else 0)
  {
    assert LastHeld(m, r + {k}) == LastHeld(m, r) + (if m.index[k].refs == 1 then {k} else {});
  }

  /** What expiry must remove from a bucket: every bad address, and of the
      others one last seen no later than all of them, when there are any. */
  ghost predicate Expired(m: Books, b: nat, isBad: Entry -> bool, removed: set<Key>)
    requires BucketIndexed(m, b)
  {
    && removed <= m.newBuckets[b]
    && (forall k :: k in m.newBuckets[b] && isBad(m.index[k]) ==> k in removed)
    && (forall k, j :: k in removed && !isBad(m.index[k]) && j in m.newBuckets[b] && !isBad(m.index[j]) ==>
          m.index[k].na.timestamp <= m.index[j].na.timestamp)
    && (forall k, j :: k in removed && j in removed && !isBad(m.index[k]) && !isBad(m.index[j]) ==> k == j)
    && ((exists k :: k in m.newBuckets[b] && !isBad(m.index[k])) ==> exists k :: k in removed && !isBad(m.index[k]))
  }

  /** A sweep through a bucket with `todo` still to see: the bad addresses seen
      are removed, and the oldest of the others is remembered. */
  ghost predicate Swept(m: Books, b: nat, isBad: Entry -> bool, todo: set<Key>, removed: set<Key>, oldest: Option<Key>)
    requires BucketIndexed(m, b)
  {
    var seen := m.newBuckets[b] - todo;
    && todo <= m.newBuckets[b] && removed <= seen
    && (forall k :: k in seen ==> (isBad(m.index[k]) <==> k in removed))
    && (oldest.None? ==> seen == removed)
    && (oldest.Some? ==> oldest.value in seen - removed)
    && (oldest.Some? ==>
          forall j :: j in seen - removed ==> m.index[oldest.value].na.timestamp <= m.index[j].na.timestamp)
  }

  lemma SweepStarts(m: Books, size: nat, loose: set<Key>, b: nat, isBad: Entry -> bool)
    requires Inv(m, size, loose) && b < NEW_BUCKET_COUNT
    ensures |m.newBuckets| == |m.newStats| == NEW_BUCKET_COUNT && |m.newBuckets[b]| < U16
    ensures BucketIndexed(m, b) && Swept(m, b, isBad, m.newBuckets[b], {}, None) && RemoveSet(m, b, {}) == m
  {
    RemoveNone(m, size, loose, b);
  }

  lemma SweptPick(m: Books, b: nat, isBad: Entry -> bool, todo: set<Key>, removed: set<Key>, oldest: Option<Key>,
                  k: Key)
    requires BucketIndexed(m, b) && Swept(m, b, isBad, todo, removed, oldest) && k in todo
    ensures k in m.newBuckets[b] && k !in removed
    ensures oldest.Some? ==> oldest.value in m.newBuckets[b] && oldest.value !in removed
  {}

  lemma SweptOldest(m: Books, b: nat, isBad: Entry -> bool, removed: set<Key>, oldest: Option<Key>)
    requires BucketIndexed(m, b) && Swept(m, b, isBad, {}, removed, oldest) && oldest.Some?
    ensures oldest.value in m.newBuckets[b] && oldest.value !in removed
  {}

  lemma SweptBad(m: Books, b: nat, isBad: Entry -> bool, todo: set<Key>, removed: set<Key>, oldest: Option<Key>, k: Key)
    requires BucketIndexed(m, b)
    requires Swept(m, b, isBad, todo, removed, oldest) && k in todo && isBad(m.index[k])
    ensures Swept(m, b, isBad, todo - {k}, removed + {k}, oldest)
  {
    assert m.newBuckets[b] - (todo - {k}) == m.newBuckets[b] - todo + {k};
  }

  lemma SweptGood(m: Books, b: nat, isBad: Entry -> bool, todo: set<Key>, removed: set<Key>, oldest: Option<Key>,
                  k: Key)
    requires BucketIndexed(m, b)
    requires Swept(m, b, isBad, todo, removed, oldest) && k in todo && !isBad(m.index[k])
    ensures (oldest.Some? ==> oldest.value in m.index)
    ensures (oldest.None? || m.index[k].na.timestamp <= m.index[oldest.value].na.timestamp) ==>
              Swept(m, b, isBad, todo - {k}, removed, Some(k))
    ensures (oldest.Some? && m.index[k].na.timestamp > m.index[oldest.value].na.timestamp) ==>
              Swept(m, b, isBad, todo - {k}, removed, oldest)
  {
    assert m.newBuckets[b] - (todo - {k}) == m.newBuckets[b] - todo + {k};
  }

  lemma SweptAll(m: Books, b: nat, isBad: Entry -> bool, removed: set<Key>, oldest: Option<Key>)
    requires BucketIndexed(m, b)
    requires Swept(m, b, isBad, {}, removed, oldest)
    ensures Expired(m, b, isBad, if oldest.Some? then removed + {oldest.value} else removed)
  {
    assert m.newBuckets[b] - {} == m.newBuckets[b];
  }

  lemma UnremovedStay(m: Books, b: nat, r: set<Key>, k: Key)
    requires b < |m.newBuckets| == |m.newStats| && k in m.index && k !in r
    ensures k in RemoveSet(m, b, r).index && RemoveSet(m, b, r).index[k] == m.index[k]
    ensures |RemoveSet(m, b, r).newBuckets| == |m.newBuckets|
    ensures k in m.newBuckets[b] ==> k in RemoveSet(m, b, r).newBuckets[b]
  {}

  /** Expiry makes room: a bucket that held anything holds less. */
  lemma ExpiryMakesRoom(m: Books, b: nat, isBad: Entry -> bool, removed: set<Key>)
    requires BucketIndexed(m, b)
    requires Expired(m, b, isBad, removed) && m.newBuckets[b] != {}
    ensures |m.newBuckets[b] - removed| < |m.newBuckets[b]|
  {
    var k :| k in m.newBuckets[b];
    assert removed != {};
    var j :| j in removed;
    SubsetSize(m.newBuckets[b] - removed, m.newBuckets[b] - {j});
  }

  // ------------------------------------------------------------------
  // Whole operations.

  /** An address seen again: the newer time, or unseen services, are taken over. */
  function Touched(e: Entry, na: NetAddress): Entry
  {
    if na.timestamp > e.na.timestamp || !(na.services <= e.na.services) then
      e.(na := NetAddress(e.na.key, na.timestamp, e.na.services + na.services))
    else e
  }

  function Fresh(na: NetAddress, src: NetAddress): Entry
  {
    Entry(na, src, 0, None, None, false, 0)
  }

  /** The books once the address has been seen, before it is put in a bucket. */
  function Seen(m: Books, na: NetAddress, src: NetAddress): Books
  {
    if na.key in m.index then Refiled(m, na.key, Touched(m.index[na.key], na)) else Learn(m, Fresh(na, src))
  }

  /** The address put into new bucket b, after expiry if the bucket is over its size. */
  ghost predicate Placed(m: Books, m': Books, b: nat, k: Key, isBad: Entry -> bool, removed: set<Key>)
  {
    && BucketIndexed(m, b) && |m.newBuckets| == |m.newStats| && k in m.index && k !in m.newBuckets[b]
    && (if |m.newBuckets[b]| > NEW_BUCKET_SIZE then Expired(m, b, isBad, removed) else removed == {})
    && k in RemoveSet(m, b, removed).index && m' == PutNew(RemoveSet(m, b, removed), b, k)
  }

  /** What adding an address may do. A new address is always put in its bucket;
      a known one is touched, and then either left alone or put in one more. */
  ghost predicate Added(m: Books, m': Books, na: NetAddress, src: NetAddress, routable: bool, b: nat,
                        isBad: Entry -> bool, placed: bool, removed: set<Key>)
  {
    if !routable then m' == m && !placed
    else
      && (placed ==> Placed(Seen(m, na, src), m', b, na.key, isBad, removed))
      && (placed && na.key in m.index ==> !m.index[na.key].tried && m.index[na.key].refs < NEW_BUCKETS_PER_ADDRESS)
      && (!placed ==> na.key in m.index && m' == Seen(m, na, src))
  }

  /** A known address seen again, field by field: services add up, the time given
      is taken when it is later or comes with a service not known, and the rest
      stays, but for one more reference when it is placed. */
  ghost predicate SeenAgain(was: Entry, now: Entry, na: NetAddress, placed: bool)
  {
    && now.na.key == was.na.key && now.na.services == was.na.services + na.services
    && now.na.timestamp == (if na.timestamp > was.na.timestamp || exists s :: s in na.services && s !in was.na.services
                            then na.timestamp else was.na.timestamp)
    && now.src == was.src && now.attempts == was.attempts && now.lastAttempt == was.lastAttempt
    && now.lastSuccess == was.lastSuccess && now.tried == was.tried
    && now.refs == was.refs + (if placed then 1 else 0)
  }

  /** An address seen for the first time. */
  ghost predicate SeenFirst(now: Entry, na: NetAddress, src: NetAddress)
  {
    && now.na == na && now.src == src && now.attempts == 0 && now.lastAttempt == None && now.lastSuccess == None
    && !now.tried && now.refs == 1
  }

  /** What adding means for the address itself and its bucket. */
  lemma AddedMeans(m: Books, m': Books, size: nat, na: NetAddress, src: NetAddress, b: nat, isBad: Entry -> bool,
                   placed: bool, removed: set<Key>)
    requires Inv(m, size, {}) && Added(m, m', na, src, true, b, isBad, placed, removed)
    ensures na.key in m'.index
    ensures if na.key in m.index then SeenAgain(m.index[na.key], m'.index[na.key], na, placed)
            else placed && SeenFirst(m'.index[na.key], na, src)
    ensures placed ==> b < |m.newBuckets| == |m'.newBuckets| && na.key in m'.newBuckets[b] && na.key !in m.newBuckets[b]
    ensures !placed ==> m'.newBuckets == m.newBuckets
    ensures m'.triedBuckets == m.triedBuckets
  {
    hide Inv, Expired, StatsOf, Increment, LastHeld;
    var k, seen := na.key, Seen(m, na, src);
    if k in m.index {
      FiledByKey(m, size, {}, k);
      TouchedFields(m.index[k], na);
    }
    if placed {
      NotRemoved(seen, b, k, isBad, removed);
      UnremovedStay(seen, b, removed, k);
    }
  }

  lemma NotAdded(m: Books, m': Books, na: NetAddress, src: NetAddress, b: nat, isBad: Entry -> bool, placed: bool,
                 removed: set<Key>)
    requires Added(m, m', na, src, false, b, isBad, placed, removed)
    ensures m' == m && !placed
  {}

  /** An address that is not known is in no bucket. */
  lemma NotHeld(m: Books, size: nat, k: Key, b: nat)
    requires Inv(m, size, {}) && k !in m.index && b < NEW_BUCKET_COUNT
    ensures |m.newBuckets| == NEW_BUCKET_COUNT && k !in m.newBuckets[b]
  {}

  lemma NotRemoved(m: Books, b: nat, k: Key, isBad: Entry -> bool, removed: set<Key>)
    requires BucketIndexed(m, b) && (removed == {} || Expired(m, b, isBad, removed)) && k !in m.newBuckets[b]
    ensures k !in removed
  {}

  lemma TouchedFields(e: Entry, na: NetAddress)
    ensures SeenAgain(e, Touched(e, na), na, false)
  {
    if na.services <= e.na.services {
      assert e.na.services + na.services == e.na.services;
    } else {
      var s :| s in na.services && s !in e.na.services;
    }
  }

  lemma RoomFor(m: Books, size: nat, loose: set<Key>, b: nat, k: Key, isBad: Entry -> bool, removed: set<Key>)
    requires Inv(m, size, loose) && b < NEW_BUCKET_COUNT && k in m.index && k !in m.newBuckets[b]
    requires BucketIndexed(m, b) && Expired(m, b, isBad, removed) && |m.newBuckets[b]| > NEW_BUCKET_SIZE
    ensures k in RemoveSet(m, b, removed).index && RemoveSet(m, b, removed).index[k] == m.index[k]
    ensures k !in RemoveSet(m, b, removed).newBuckets[b]
    ensures |RemoveSet(m, b, removed).newBuckets[b]| <= NEW_BUCKET_SIZE
  {
    ExpiryMakesRoom(m, b, isBad, removed);
    UnremovedStay(m, b, removed, k);
  }

  /** Drawing from twice the reference count is drawing from a non-empty range. */
  lemma NewHasRefs(m: Books, size: nat, k: Key)
    requires Inv(m, size, {}) && k in m.index && !m.index[k].tried
    ensures 1 <= m.index[k].refs <= NEW_BUCKETS_PER_ADDRESS
  {
    assert AddressOk(m, {}, k);
  }

  /** An address known to be good now. */
  function Stamped(e: Entry, now: int): Entry
  {
    e.(attempts := 0, lastAttempt := Some(now), lastSuccess := Some(now))
  }

  /** Position i of the bucket holds an address seen no later than any other, and the first such. */
  ghost predicate OldestAt(index: map<Key, Entry>, bucket: seq<Key>, i: nat)
    requires forall k :: k in bucket ==> k in index
  {
    && i < |bucket|
    && (forall j :: 0 <= j < |bucket| ==> index[bucket[i]].na.timestamp <= index[bucket[j]].na.timestamp)
    && (forall j :: 0 <= j < i ==> index[bucket[i]].na.timestamp < index[bucket[j]].na.timestamp)
  }

  ghost predicate FirstHolder(buckets: seq<set<Key>>, k: Key, b: nat)
  {
    b < |buckets| && k in buckets[b] && forall c :: 0 <= c < b ==> k !in buckets[c]
  }

  ghost predicate TriedIndexed(m: Books, b: nat)
  {
    b < |m.triedBuckets| == |m.triedStats| && forall k :: k in m.triedBuckets[b] ==> k in m.index
  }

  /** The promoted address takes the oldest tried one's place, which goes to its own new
      bucket if that has room and else to the first the promoted address was in. */
  ghost predicate Evicted(m: Books, m': Books, k: Key, tb: nat,
                          newHash: (Secret, NetAddress, NetAddress) -> nat, secret: Secret, i: nat, home: nat)
    requires |m.newBuckets| == |m.newStats| && TriedIndexed(m, tb) && k in m.index
  {
    var cleared := ClearNew(m, k, |m.newBuckets|);
    && OldestAt(cleared.index, m.triedBuckets[tb], i) && home < |m.newBuckets|
    && var out := m.triedBuckets[tb][i];
    var own := newHash(secret, cleared.index[out].na, cleared.index[out].src) % NEW_BUCKET_COUNT;
    && own < |m.newBuckets|
    && (if |cleared.newBuckets[own]| < NEW_BUCKET_SIZE then home == own else FirstHolder(m.newBuckets, k, home))
    && m' == PutNew(SwapTried(cleared, tb, i, k), home, out)
  }

  /** What promoting a new address to its tried bucket does. */
  ghost predicate Promoted(m: Books, m': Books, k: Key, tb: nat, size: nat,
                           newHash: (Secret, NetAddress, NetAddress) -> nat, secret: Secret, i: nat, home: nat)
    requires |m.newBuckets| == |m.newStats| && TriedIndexed(m, tb) && k in m.index
  {
    if |m.triedBuckets[tb]| < size then m' == PutTried(ClearNew(m, k, |m.newBuckets|), tb, k)
    else Evicted(m, m', k, tb, newHash, secret, i, home)
  }

  lemma Loosened(m: Books, size: nat, k: Key)
    requires Inv(m, size, {}) && k in m.index && !m.index[k].tried
    ensures Inv(m, size, {k})
  {
    hide TriedOnce, InTried, Holders, StatsOf;
    forall j | j in m.index
      ensures AddressOk(m, {k}, j)
    {
      assert AddressOk(m, {}, j);
    }
  }

  /** A new address is in some new bucket, and cleared from all it has no references. */
  lemma ClearedInv(m: Books, size: nat, k: Key)
    requires Inv(m, size, {}) && k in m.index && !m.index[k].tried
    ensures |m.newBuckets| == |m.newStats| == NEW_BUCKET_COUNT
    ensures exists b :: 0 <= b < |m.newBuckets| && k in m.newBuckets[b]
    ensures var c := ClearNew(m, k, NEW_BUCKET_COUNT);
            && Inv(c, size, {k}) && k in c.index && c.index[k].refs == 0
            && forall b :: 0 <= b < NEW_BUCKET_COUNT ==> c.newBuckets[b] == m.newBuckets[b] - {k}
  {
    hide AddressOk, TriedOnce, CountsOk, BucketsIndexed;
    assert AddressOk(m, {}, k);
    SomeHolder(m, k);
    Loosened(m, size, k);
    ClearNewInv(m, size, k, NEW_BUCKET_COUNT);
    Unreferenced(ClearNew(m, k, NEW_BUCKET_COUNT), size, {k}, k);
  }

  lemma SomeHolder(m: Books, k: Key)
    requires k in m.index && AddressOk(m, {}, k) && !m.index[k].tried
    ensures exists b :: 0 <= b < |m.newBuckets| && k in m.newBuckets[b]
  {
    assert Holders(m.newBuckets, k) != {};
    var b :| b in Holders(m.newBuckets, k);
  }

  /** The address put out of a tried bucket fits the new bucket it is given. */
  lemma EvictedFits(m: Books, c: Books, size: nat, k: Key, tb: nat, i: nat, home: nat)
    requires Inv(m, size, {}) && k in m.index && Inv(c, size, {k}) && k in c.index && c.index[k].refs == 0
    requires forall b :: 0 <= b < NEW_BUCKET_COUNT ==> c.newBuckets[b] == m.newBuckets[b] - {k}
    requires tb < TRIED_BUCKET_COUNT && i < |c.triedBuckets[tb]| && home < NEW_BUCKET_COUNT
    requires |c.newBuckets[home]| < NEW_BUCKET_SIZE || k in m.newBuckets[home]
    ensures c.triedBuckets[tb][i] in c.index && c.triedBuckets[tb][i] != k
    ensures |c.newBuckets| == |c.newStats| == NEW_BUCKET_COUNT && |c.triedBuckets| == |c.triedStats|
    ensures Inv(PutNew(SwapTried(c, tb, i, k), home, c.triedBuckets[tb][i]), size, {})
  {
    hide AddressOk, TriedOnce, CountsOk, BucketsIndexed, PutNew, Increment, Decrement;
    SwapTriedInv(c, size, tb, i, k);
    var out := c.triedBuckets[tb][i];
    var s := SwapTried(c, tb, i, k);
    assert k != out by {
      assert AddressOk(c, {k}, k) && out in c.triedBuckets[tb];
      LooseFacts(c, {k}, k);
    }
    assert AddressOk(s, {out}, out);
    UnheldAt(s, {out}, home, out);
    LooseFacts(s, {out}, out);
    PutNewInv(s, size, {out}, home, out);
    assert {out} - {out} == {};
  }

  lemma UnheldAt(m: Books, loose: set<Key>, b: nat, k: Key)
    requires k in m.index && AddressOk(m, loose, k) && m.index[k].refs == 0 && b < |m.newBuckets|
    ensures k !in m.newBuckets[b]
  {
    assert k in m.newBuckets[b] ==> b in Holders(m.newBuckets, k);
  }

  // What the operations mean for each address.

  lemma {:induction false} ClearNewOthers(m: Books, k: Key, n: nat, j: Key)
    requires n <= |m.newBuckets| == |m.newStats| && k in m.index && j in m.index && j != k
    ensures ClearNew(m, k, n).index[j] == m.index[j]
    decreases n
  {
    hide Decrement;
    if n > 0 {
      ClearNewOthers(m, k, n - 1, j);
    }
  }

  lemma ClearedHolders(m: Books, c: Books, k: Key, j: Key)
    requires |c.newBuckets| == |m.newBuckets|
    requires forall b :: 0 <= b < |m.newBuckets| ==> c.newBuckets[b] == m.newBuckets[b] - {k}
    ensures Holders(c.newBuckets, j) == if j == k then {} else Holders(m.newBuckets, j)
  {}

  /** Promotion into a bucket with room: the address leaves the new buckets for that one
      tried bucket, and nothing is said differently of any other address. */
  lemma PromotedMeans(m: Books, m': Books, size: nat, k: Key, tb: nat,
                      newHash: (Secret, NetAddress, NetAddress) -> nat, secret: Secret, i: nat, home: nat, j: Key)
    requires Inv(m, size, {}) && k in m.index && !m.index[k].tried && tb < TRIED_BUCKET_COUNT && TriedIndexed(m, tb)
    requires |m.newBuckets| == |m.newStats| && |m.triedBuckets[tb]| < size
    requires Promoted(m, m', k, tb, size, newHash, secret, i, home)
    requires j in m.index
    ensures k in m'.index && m'.index[k].tried && k in m'.triedBuckets[tb] && Holders(m'.newBuckets, k) == {}
    ensures m'.index.Keys == m.index.Keys && m'.nTried == m.nTried + 1 && m'.nNew == m.nNew - 1
    ensures j != k ==> m'.index[j] == m.index[j] && Holders(m'.newBuckets, j) == Holders(m.newBuckets, j)
  {
    hide Inv, AddressOk, ClearNew, Holders, Increment;
    ClearedInv(m, size, k);
    var c := ClearNew(m, k, NEW_BUCKET_COUNT);
    ClearedHolders(m, c, k, k);
    ClearedHolders(m, c, k, j);
    ClearNewCounts(m, k, NEW_BUCKET_COUNT);
    if j != k {
      ClearNewOthers(m, k, NEW_BUCKET_COUNT, j);
    }
    assert m'.triedBuckets[tb][|m.triedBuckets[tb]|] == k;
  }

  /** Taking an address out of buckets changes its references alone. */
  lemma {:induction false} ClearNewSelf(m: Books, k: Key, n: nat)
    requires n <= |m.newBuckets| == |m.newStats| && k in m.index
    ensures ClearNew(m, k, n).index[k] == m.index[k].(refs := ClearNew(m, k, n).index[k].refs)
    decreases n
  {
    hide Decrement;
    if n > 0 {
      ClearNewSelf(m, k, n - 1);
    }
  }

  /** An address found good now, field by field. */
  ghost predicate Renewed(was: Entry, now: Entry, time: int)
  {
    && now.attempts == 0 && now.lastAttempt == Some(time) && now.lastSuccess == Some(time)
    && now.na == was.na && now.src == was.src && now.tried && now.refs == 0
  }

  lemma RenewedTried(e: Entry, time: int)
    requires e.tried && e.refs == 0
    ensures Renewed(e, Stamped(e, time), time)
  {}

  lemma TriedUnreferenced(m: Books, size: nat, k: Key)
    requires Inv(m, size, {}) && k in m.index && m.index[k].tried
    ensures m.index[k].refs == 0
  {
    assert AddressOk(m, {}, k);
  }

  /** After a promotion the address is in its tried bucket and in no new one, its record
      otherwise as it was. */
  lemma PromotedSelf(m: Books, m': Books, size: nat, k: Key, tb: nat,
                     newHash: (Secret, NetAddress, NetAddress) -> nat, secret: Secret, i: nat, home: nat)
    requires Inv(m, size, {}) && k in m.index && !m.index[k].tried && tb < TRIED_BUCKET_COUNT && TriedIndexed(m, tb)
    requires |m.newBuckets| == |m.newStats| && Promoted(m, m', k, tb, size, newHash, secret, i, home)
    ensures m'.index.Keys == m.index.Keys && m'.index[k] == m.index[k].(tried := true, refs := 0)
    ensures |m'.triedBuckets| == |m.triedBuckets| && k in m'.triedBuckets[tb] && Holders(m'.newBuckets, k) == {}
  {
    hide Inv, AddressOk, ClearNew, Holders, Increment, Decrement;
    ClearedInv(m, size, k);
    ClearNewSelf(m, k, NEW_BUCKET_COUNT);
    if |m.triedBuckets[tb]| < size {
      PromotedMeans(m, m', size, k, tb, newHash, secret, i, home, k);
    } else {
      EvictedMeans(m, m', size, k, tb, newHash, secret, i, home, k);
    }
  }

  lemma {:induction false} ClearNewCounts(m: Books, k: Key, n: nat)
    requires n <= |m.newBuckets| == |m.newStats| && k in m.index
    ensures ClearNew(m, k, n).nNew == m.nNew && ClearNew(m, k, n).nTried == m.nTried
    decreases n
  {
    hide Decrement;
    if n > 0 {
      ClearNewCounts(m, k, n - 1);
    }
  }

  lemma TriedApart(m: Books, size: nat, tb: nat, o: Key, k: Key)
    requires Inv(m, size, {}) && tb < TRIED_BUCKET_COUNT && o in m.triedBuckets[tb] && k in m.index && !m.index[k].tried
    ensures o in m.index && o != k && Holders(m.newBuckets, o) == {}
  {
    assert o in m.index && AddressOk(m, {}, o);
    TriedFacts(m, {}, tb, o);
  }

  /** Promotion into a full bucket: the address takes the place of the bucket's oldest one,
      which becomes new again in exactly one bucket; the counts stay, and nothing is said
      differently of any other address. */
  lemma EvictedMeans(m: Books, m': Books, size: nat, k: Key, tb: nat,
                     newHash: (Secret, NetAddress, NetAddress) -> nat, secret: Secret, i: nat, home: nat, j: Key)
    requires Inv(m, size, {}) && k in m.index && !m.index[k].tried && tb < TRIED_BUCKET_COUNT && TriedIndexed(m, tb)
    requires |m.newBuckets| == |m.newStats| && |m.triedBuckets[tb]| >= size
    requires Promoted(m, m', k, tb, size, newHash, secret, i, home)
    requires j in m.index
    ensures i < |m.triedBuckets[tb]| && m.triedBuckets[tb][i] != k
    ensures k in m'.index && m'.index[k].tried && k in m'.triedBuckets[tb] && Holders(m'.newBuckets, k) == {}
    ensures var out := m.triedBuckets[tb][i];
            && out in m'.index && !m'.index[out].tried && Holders(m'.newBuckets, out) == {home}
            && (forall o :: o in m.triedBuckets[tb] ==> m.index[out].na.timestamp <= m.index[o].na.timestamp)
            && (j != k && j != out ==>
                  m'.index[j] == m.index[j] && Holders(m'.newBuckets, j) == Holders(m.newBuckets, j))
    ensures m'.index.Keys == m.index.Keys && m'.nTried == m.nTried && m'.nNew == m.nNew
  {
    hide Inv, AddressOk, ClearNew, Holders, Increment, Decrement;
    ClearedInv(m, size, k);
    var c := ClearNew(m, k, NEW_BUCKET_COUNT);
    var out := m.triedBuckets[tb][i];
    TriedApart(m, size, tb, out, k);
    HoldersAdd(c.newBuckets, home, out, k);
    HoldersAdd(c.newBuckets, home, out, j);
    HoldersAdd(c.newBuckets, home, out, out);
    ClearedHolders(m, c, k, k);
    ClearedHolders(m, c, k, j);
    ClearedHolders(m, c, k, out);
    ClearNewCounts(m, k, NEW_BUCKET_COUNT);
    if j != k {
      ClearNewOthers(m, k, NEW_BUCKET_COUNT, j);
    }
    forall o | o in m.triedBuckets[tb]
      ensures m.index[out].na.timestamp <= m.index[o].na.timestamp
    {
      TriedApart(m, size, tb, o, k);
      ClearNewOthers(m, k, NEW_BUCKET_COUNT, o);
      ClearNewOthers(m, k, NEW_BUCKET_COUNT, out);
      var n :| 0 <= n < |m.triedBuckets[tb]| && m.triedBuckets[tb][n] == o;
    }
    assert m'.triedBuckets[tb][i] == k;
  }

  /** Placing an address adds the one bucket to its holders. Of the others, those expired
      lose that bucket, and an address is forgotten exactly when it had no other. */
  lemma PlacedMeans(m: Books, m': Books, size: nat, loose: set<Key>, b: nat, k: Key,
                    isBad: Entry -> bool, removed: set<Key>, j: Key)
    requires Inv(m, size, loose) && Placed(m, m', b, k, isBad, removed) && j in m.index && loose <= {k}
    ensures k in m'.index && Holders(m'.newBuckets, k) == Holders(m.newBuckets, k) + {b}
    ensures j != k ==>
              Holders(m'.newBuckets, j) ==
              if j in removed then Holders(m.newBuckets, j) - {b} else Holders(m.newBuckets, j)
    ensures j != k ==> (j in m'.index <==> !(j in removed && Holders(m.newBuckets, j) == {b}))
    ensures j != k && j in m'.index ==> m'.index[j] == m.index[j].(refs := |Holders(m'.newBuckets, j)|)
  {
    hide Holders, Increment, StatsOf, AddressOk, Expired;
    var bucket := m.newBuckets[b] - removed;
    assert removed <= m.newBuckets[b] by { RemovedFromBucket(m, b, isBad, removed); }
    assert AddressOk(m, loose, j);
    HoldersLess(m.newBuckets, b, removed, k);
    HoldersLess(m.newBuckets, b, removed, j);
    HoldersAdd(m.newBuckets[b := bucket], b, k, k);
    HoldersAdd(m.newBuckets[b := bucket], b, k, j);
    assert m.newBuckets[b := bucket][b := bucket + {k}] == m.newBuckets[b := bucket + {k}];
    RefsAre(m, loose, j);
    if j in removed {
      OnlyHolder(m.newBuckets, b, j);
    }
  }

  lemma RemovedFromBucket(m: Books, b: nat, isBad: Entry -> bool, removed: set<Key>)
    requires BucketIndexed(m, b)
    requires removed == {} || Expired(m, b, isBad, removed)
    ensures removed <= m.newBuckets[b]
  {}

  lemma HoldersLess(buckets: seq<set<Key>>, b: nat, r: set<Key>, j: Key)
    requires b < |buckets|
    ensures Holders(buckets[b := buckets[b] - r], j) ==
            if j in r then Holders(buckets, j) - {b} else Holders(buckets, j)
  {}

  lemma RefsAre(m: Books, loose: set<Key>, j: Key)
    requires j in m.index && AddressOk(m, loose, j)
    ensures m.index[j].refs == |Holders(m.newBuckets, j)|
  {}

  lemma OnlyHolder(buckets: seq<set<Key>>, b: nat, j: Key)
    requires b < |buckets| && j in buckets[b]
    ensures b in Holders(buckets, j) && (|Holders(buckets, j)| == 1 <==> Holders(buckets, j) == {b})
    ensures |Holders(buckets, j) - {b}| == |Holders(buckets, j)| - 1
  {
    var h := Holders(buckets, j);
    assert b in h && |h - {b}| == |h| - 1;
    assert h == {b} + (h - {b});
  }
}
