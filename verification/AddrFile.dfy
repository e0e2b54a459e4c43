/** The peers file: what the manager saves of its books, and what a fresh manager makes of
    such a file. A key stands for the address text it prints to. */
module AddrFile {
  import opened AddrBooks
  import opened Options
  import opened Sequences

  const SERIALIZATION_VERSION: nat := 1
  const NANOS_PER_SEC: int := 1_000_000_000
  const GO_ZERO_TIME_UNIX: int := -62135596800
  const I64_MIN: int := -0x8000_0000_0000_0000
  const I64_MAX: int := 0x7fff_ffff_ffff_ffff

  datatype SavedAddress = SavedAddress(addr: Key, src: Key, attempts: int, timestamp: int,
                                       lastAttempt: int, lastSuccess: int)

  datatype PeersFile = PeersFile(version: int, secret: Secret, addresses: seq<Option<SavedAddress>>,
                                 newBuckets: seq<seq<Key>>, triedBuckets: seq<seq<Key>>)

  /** The books loaded, or the books as they stood when the file was found malformed. */
  datatype Loading = Loaded(books: Books) | Malformed(books: Books)

  // ------------------------------------------------------------------
  // Times.

  ghost predicate Fits(t: Option<int>)
  {
    t.Some? ==> I64_MIN <= t.value <= I64_MAX
  }

  /** `go_unix`: whole seconds, with Go's zero time for an unset time. */
  function ToUnix(t: Option<int>): int
  {
    if t.Some? then t.value / NANOS_PER_SEC else GO_ZERO_TIME_UNIX
  }

  /** The loader's inverse, on saturating 64-bit nanoseconds. */
  function FromUnix(secs: int): Option<int>
  {
    if secs == GO_ZERO_TIME_UNIX then None
    else
      var nanos := secs * NANOS_PER_SEC;
      Some(if nanos < I64_MIN then I64_MIN else if nanos > I64_MAX then I64_MAX else nanos)
  }

  /** A saved time comes back rounded down to the second, held to the 64-bit range: it is the
      latest whole second not after it except in the first partial second of that range. */
  lemma TimeRestored(t: Option<int>)
    requires Fits(t)
    ensures t.None? ==> FromUnix(ToUnix(t)) == None
    ensures t.Some? ==>
              var back := FromUnix(ToUnix(t));
              && back.Some? && back.value <= t.value < back.value + NANOS_PER_SEC
              && (back.value % NANOS_PER_SEC == 0 <==> t.value >= I64_MIN + 854_775_808)
              && (t.value < I64_MIN + 854_775_808 ==> back.value == I64_MIN)
  {
    if t.Some? {
      var secs := t.value / NANOS_PER_SEC;
      assert t.value == secs * NANOS_PER_SEC + t.value % NANOS_PER_SEC;
    }
  }

  /** A time rounded down to the second, held to the 64-bit range: unset exactly
      when it was, else the latest whole second not after it, but for the first
      partial second of that range. */
  ghost predicate RoundedDown(was: Option<int>, now: Option<int>)
  {
    && (was.None? <==> now.None?)
    && (was.Some? ==>
          && now.value <= was.value < now.value + 1_000_000_000
          && (was.value >= I64_MIN + 854_775_808 ==> now.value % 1_000_000_000 == 0)
          && (was.value < I64_MIN + 854_775_808 ==> now.value == I64_MIN))
  }

  lemma TimeRounded(t: Option<int>)
    requires Fits(t)
    ensures RoundedDown(t, FromUnix(ToUnix(t)))
  {
    hide ToUnix, FromUnix;
    TimeRestored(t);
  }

  // ------------------------------------------------------------------
  // Saving.

  function Record(k: Key, e: Entry): SavedAddress
  {
    SavedAddress(k, e.src.key, e.attempts, e.na.timestamp / NANOS_PER_SEC, ToUnix(e.lastAttempt), ToUnix(e.lastSuccess))
  }

  /** What is saved of an address, field by field. */
  ghost predicate SavedFields(k: Key, e: Entry, a: SavedAddress)
  {
    && a.addr == k && a.src == e.src.key && a.attempts == e.attempts
    && a.timestamp == e.na.timestamp / 1_000_000_000
    && a.lastAttempt == (if e.lastAttempt.Some? then e.lastAttempt.value / 1_000_000_000 else -62135596800)
    && a.lastSuccess == (if e.lastSuccess.Some? then e.lastSuccess.value / 1_000_000_000 else -62135596800)
  }

  /** Every saved record is an address's, and every address has one. */
  ghost predicate AllSaved(index: map<Key, Entry>, addresses: seq<Option<SavedAddress>>)
  {
    && (forall i :: 0 <= i < |addresses| ==>
          && addresses[i].Some? && addresses[i].value.addr in index
          && SavedFields(addresses[i].value.addr, index[addresses[i].value.addr], addresses[i].value))
    && (forall k :: k in index ==>
          exists i :: 0 <= i < |addresses| && addresses[i].Some? && addresses[i].value.addr == k)
    && (forall i, j :: 0 <= i < j < |addresses| && addresses[i].Some? && addresses[j].Some? ==>
          addresses[i].value.addr != addresses[j].value.addr)
  }

  lemma ListsSaved(index: map<Key, Entry>, addresses: seq<Option<SavedAddress>>)
    requires Lists(index, addresses)
    ensures AllSaved(index, addresses)
  {
    forall k | k in index
      ensures exists i :: 0 <= i < |addresses| && addresses[i].Some? && addresses[i].value.addr == k
    {
      var i :| 0 <= i < |addresses| && addresses[i] == Some(Record(k, index[k]));
      assert addresses[i].value.addr == k;
    }
  }

  /** The addresses, each once, in any order. */
  ghost predicate Lists(index: map<Key, Entry>, addresses: seq<Option<SavedAddress>>)
  {
    ListsAllBut(index, addresses, {})
  }

  ghost predicate ListsAllBut(index: map<Key, Entry>, addresses: seq<Option<SavedAddress>>, todo: set<Key>)
  {
    && (forall i :: 0 <= i < |addresses| ==>
          addresses[i].Some? && addresses[i].value.addr in index && addresses[i].value.addr !in todo
          && addresses[i].value == Record(addresses[i].value.addr, index[addresses[i].value.addr]))
    && (forall i, j :: 0 <= i < j < |addresses| ==> addresses[i] != addresses[j])
    && (forall k :: k in index && k !in todo ==> Some(Record(k, index[k])) in addresses)
  }

  lemma ListOneMore(index: map<Key, Entry>, addresses: seq<Option<SavedAddress>>, todo: set<Key>, k: Key)
    requires ListsAllBut(index, addresses, todo) && k in todo && k in index
    ensures ListsAllBut(index, addresses + [Some(Record(k, index[k]))], todo - {k})
  {
    var more := addresses + [Some(Record(k, index[k]))];
    assert more[|addresses|].value.addr == k;
    forall j | j in index && j !in todo - {k}
      ensures Some(Record(j, index[j])) in more
    {
      if j == k {
        assert more[|addresses|] == Some(Record(j, index[j]));
      }
    }
  }

  ghost predicate SavedAs(m: Books, secret: Secret, file: PeersFile)
  {
    && file.version == SERIALIZATION_VERSION && file.secret == secret
    && Lists(m.index, file.addresses)
    && |file.newBuckets| == |m.newBuckets|
    && (forall b :: 0 <= b < |m.newBuckets| ==> ListsKeys(m.newBuckets[b], file.newBuckets[b]))
    && file.triedBuckets == m.triedBuckets
  }

  ghost predicate ListsKeys(bucket: set<Key>, list: seq<Key>)
  {
    Distinct(list) && Members(list) == bucket
  }

  // ------------------------------------------------------------------
  // Loading.

  /** The entry made for a saved address: seen now, with no bucket yet. */
  function Restart(na: NetAddress, src: NetAddress, a: SavedAddress): Entry
  {
    Entry(na, src, a.attempts, FromUnix(a.lastAttempt), FromUnix(a.lastSuccess), false, 0)
  }

  function LoadAddress(m: Books, a: Option<SavedAddress>, parse: Key -> Option<NetAddress>): Loading
  {
    if a.None? || parse(a.value.addr).None? || parse(a.value.src).None? then Malformed(m)
    else
      var na := parse(a.value.addr).value;
      Loaded(Refiled(m, na.key, Restart(na, parse(a.value.src).value, a.value)))
  }

  function LoadAddresses(m: Books, addresses: seq<Option<SavedAddress>>, n: nat,
                         parse: Key -> Option<NetAddress>): (r: Loading)
    requires n <= |addresses|
    ensures r.books == m.(index := r.books.index)
  {
    if n == 0 then Loaded(m)
    else
      var before := LoadAddresses(m, addresses, n - 1, parse);
      if before.Malformed? then before else LoadAddress(before.books, addresses[n - 1], parse)
  }

  function FileNew(m: Books, b: nat, k: Key): (r: Loading)
    requires b < |m.newBuckets| == |m.newStats|
    ensures |r.books.newBuckets| == |r.books.newStats| == |m.newBuckets|
    ensures r.books.triedBuckets == m.triedBuckets && r.books.triedStats == m.triedStats
  {
    if k !in m.index then Malformed(m)
    else Loaded(PutNew(m, b, k).(nNew := if m.index[k].refs == 0 then m.nNew + 1 else m.nNew))
  }

  function LoadNewBucket(m: Books, b: nat, list: seq<Key>, n: nat): (r: Loading)
    requires b < |m.newBuckets| == |m.newStats| && n <= |list|
    ensures |r.books.newBuckets| == |r.books.newStats| == |m.newBuckets|
    ensures r.books.triedBuckets == m.triedBuckets && r.books.triedStats == m.triedStats
    decreases n
  {
    if n == 0 then Loaded(m)
    else
      var before := LoadNewBucket(m, b, list, n - 1);
      if before.Malformed? then before else FileNew(before.books, b, list[n - 1])
  }

  function LoadNewBuckets(m: Books, lists: seq<seq<Key>>, n: nat): (r: Loading)
    requires n <= |lists| && n <= |m.newBuckets| == |m.newStats|
    ensures |r.books.newBuckets| == |r.books.newStats| == |m.newBuckets|
    ensures r.books.triedBuckets == m.triedBuckets && r.books.triedStats == m.triedStats
    decreases n
  {
    if n == 0 then Loaded(m)
    else
      var before := LoadNewBuckets(m, lists, n - 1);
      if before.Malformed? then before
      else LoadNewBucket(before.books, n - 1, lists[n - 1], |lists[n - 1]|)
  }

  function FileTried(m: Books, b: nat, k: Key): (r: Loading)
    requires b < |m.triedBuckets| == |m.triedStats|
    ensures |r.books.triedBuckets| == |r.books.triedStats| == |m.triedBuckets|
  {
    if k !in m.index then Malformed(m) else Loaded(PutTried(m, b, k).(nNew := m.nNew))
  }

  function LoadTriedBucket(m: Books, b: nat, list: seq<Key>, n: nat): (r: Loading)
    requires b < |m.triedBuckets| == |m.triedStats| && n <= |list|
    ensures |r.books.triedBuckets| == |r.books.triedStats| == |m.triedBuckets|
    decreases n
  {
    if n == 0 then Loaded(m)
    else
      var before := LoadTriedBucket(m, b, list, n - 1);
      if before.Malformed? then before else FileTried(before.books, b, list[n - 1])
  }

  function LoadTriedBuckets(m: Books, lists: seq<seq<Key>>, n: nat): (r: Loading)
    requires n <= |lists| && n <= |m.triedBuckets| == |m.triedStats|
    ensures |r.books.triedBuckets| == |r.books.triedStats| == |m.triedBuckets|
    decreases n
  {
    if n == 0 then Loaded(m)
    else
      var before := LoadTriedBuckets(m, lists, n - 1);
      if before.Malformed? then before
      else LoadTriedBucket(before.books, n - 1, lists[n - 1], |lists[n - 1]|)
  }

  predicate Sane(e: Entry)
  {
    !(e.refs == 0 && !e.tried) && !(e.refs > 0 && e.tried)
  }

  predicate AllSane(m: Books)
  {
    forall k :: k in m.index ==> Sane(m.index[k])
  }

  function Least(a: nat, b: nat): nat
  {
    if a <= b then a else b
  }

  /** What a fresh manager makes of a file. */
  function LoadBooks(file: PeersFile, parse: Key -> Option<NetAddress>): Loading
  {
    if file.version != SERIALIZATION_VERSION then Malformed(Empty())
    else
      var a := LoadAddresses(Empty(), file.addresses, |file.addresses|, parse);
      if a.Malformed? then a
      else
        var n := LoadNewBuckets(a.books, file.newBuckets, Least(|file.newBuckets|, NEW_BUCKET_COUNT));
        if n.Malformed? then n
        else
          var t := LoadTriedBuckets(n.books, file.triedBuckets, Least(|file.triedBuckets|, TRIED_BUCKET_COUNT));
          if t.Malformed? then t
          else if AllSane(t.books) then t
          else Malformed(t.books)
  }

  // A malformed file stays malformed, at the books where it was found so.

  lemma {:induction false} AddressesStop(m: Books, addresses: seq<Option<SavedAddress>>, n: nat, end: nat,
                                        parse: Key -> Option<NetAddress>)
    requires n <= end <= |addresses| && LoadAddresses(m, addresses, n, parse).Malformed?
    ensures LoadAddresses(m, addresses, end, parse) == LoadAddresses(m, addresses, n, parse)
    decreases end
  {
    if n < end {
      AddressesStop(m, addresses, n, end - 1, parse);
    }
  }

  lemma {:induction false} NewBucketStops(m: Books, b: nat, list: seq<Key>, n: nat, end: nat)
    requires b < |m.newBuckets| == |m.newStats| && n <= end <= |list| && LoadNewBucket(m, b, list, n).Malformed?
    ensures LoadNewBucket(m, b, list, end) == LoadNewBucket(m, b, list, n)
    decreases end
  {
    if n < end {
      NewBucketStops(m, b, list, n, end - 1);
    }
  }

  lemma {:induction false} NewBucketsStop(m: Books, lists: seq<seq<Key>>, n: nat, end: nat)
    requires n <= end <= |lists| && end <= |m.newBuckets| == |m.newStats| && LoadNewBuckets(m, lists, n).Malformed?
    ensures LoadNewBuckets(m, lists, end) == LoadNewBuckets(m, lists, n)
    decreases end
  {
    if n < end {
      NewBucketsStop(m, lists, n, end - 1);
    }
  }

  lemma {:induction false} TriedBucketStops(m: Books, b: nat, list: seq<Key>, n: nat, end: nat)
    requires b < |m.triedBuckets| == |m.triedStats| && n <= end <= |list| && LoadTriedBucket(m, b, list, n).Malformed?
    ensures LoadTriedBucket(m, b, list, end) == LoadTriedBucket(m, b, list, n)
    decreases end
  {
    if n < end {
      TriedBucketStops(m, b, list, n, end - 1);
    }
  }

  lemma {:induction false} TriedBucketsStop(m: Books, lists: seq<seq<Key>>, n: nat, end: nat)
    requires n <= end <= |lists| && end <= |m.triedBuckets| == |m.triedStats|
    requires LoadTriedBuckets(m, lists, n).Malformed?
    ensures LoadTriedBuckets(m, lists, end) == LoadTriedBuckets(m, lists, n)
    decreases end
  {
    if n < end {
      TriedBucketsStop(m, lists, n, end - 1);
    }
  }

  // ------------------------------------------------------------------
  // The round trip.

  /** The books with these entries, spread over these buckets. */
  ghost function Rebuilt(base: map<Key, Entry>, news: seq<set<Key>>, trieds: seq<seq<Key>>): Books
  {
    Books(map k | k in base :: base[k].(refs := |Holders(news, k)|, tried := InTried(trieds, k)),
          news, trieds,
          seq(|news|, b requires 0 <= b < |news| => StatsOf(news[b])),
          seq(|trieds|, b requires 0 <= b < |trieds| => StatsOf(Members(trieds[b]))),
          |Held(base, news)|, |Trying(base, trieds)|)
  }

  ghost function Held(base: map<Key, Entry>, news: seq<set<Key>>): set<Key>
  {
    set k | k in base && Holders(news, k) != {}
  }

  ghost function Trying(base: map<Key, Entry>, trieds: seq<seq<Key>>): set<Key>
  {
    set k | k in base && InTried(trieds, k)
  }

  lemma FileNewRebuilt(base: map<Key, Entry>, news: seq<set<Key>>, trieds: seq<seq<Key>>, b: nat, k: Key)
    requires b < |news| && k in base && k !in news[b] && |news[b]| + 1 < U16
    ensures FileNew(Rebuilt(base, news, trieds), b, k) == Loaded(Rebuilt(base, news[b := news[b] + {k}], trieds))
  {
    hide InTried, Increment, StatsOf, Holders, Held;
    var more := news[b := news[b] + {k}];
    StatsAdd(news[b], k);
    forall j | j in base
      ensures |Holders(more, j)| == |Holders(news, j)| + (if j == k then 1 else 0)
    {
      HolderCount(news, b, k, j);
    }
    HeldMore(base, news, b, k);
    var before, after := Rebuilt(base, news, trieds), Rebuilt(base, more, trieds);
    assert PutNew(before, b, k).index == after.index;
    assert PutNew(before, b, k).newStats == after.newStats;
  }

  lemma HolderCount(news: seq<set<Key>>, b: nat, k: Key, j: Key)
    requires b < |news| && k !in news[b]
    ensures |Holders(news[b := news[b] + {k}], j)| == |Holders(news, j)| + (if j == k then 1 else 0)
  {
    HoldersAdd(news, b, k, j);
    assert b !in Holders(news, k);
  }

  lemma HeldMore(base: map<Key, Entry>, news: seq<set<Key>>, b: nat, k: Key)
    requires b < |news| && k in base && k !in news[b]
    ensures |Held(base, news[b := news[b] + {k}])| == |Held(base, news)| + (if Holders(news, k) == {} then 1 else 0)
    ensures |Holders(news, k)| == 0 <==> Holders(news, k) == {}
  {
    var more := news[b := news[b] + {k}];
    forall j | j in base
      ensures j in Held(base, more) <==> j in Held(base, news) || j == k
    {
      HoldersAdd(news, b, k, j);
    }
    assert Held(base, more) == Held(base, news) + {k};
  }

  lemma FileTriedRebuilt(base: map<Key, Entry>, news: seq<set<Key>>, trieds: seq<seq<Key>>, b: nat, k: Key)
    requires b < |trieds| && k in base && !InTried(trieds, k) && |Members(trieds[b])| + 1 < U16
    ensures FileTried(Rebuilt(base, news, trieds), b, k) == Loaded(Rebuilt(base, news, trieds[b := trieds[b] + [k]]))
  {
    hide InTried, Increment, StatsOf, Holders;
    var more := trieds[b := trieds[b] + [k]];
    MembersAppend(trieds[b], k);
    assert k !in Members(trieds[b]) by { NotAmong(trieds, b, k); }
    StatsAdd(Members(trieds[b]), k);
    forall j | j in base
      ensures InTried(more, j) <==> j == k || InTried(trieds, j)
    {
      InTriedAppend(trieds, b, k, j);
    }
    assert Trying(base, more) == Trying(base, trieds) + {k};
    var before, after := Rebuilt(base, news, trieds), Rebuilt(base, news, more);
    assert FileTried(before, b, k).books.index == after.index;
    assert FileTried(before, b, k).books.triedStats == after.triedStats;
  }

  lemma NotAmong(trieds: seq<seq<Key>>, b: nat, k: Key)
    requires b < |trieds| && !InTried(trieds, k)
    ensures k !in Members(trieds[b])
  {}

  lemma NoMembers()
    ensures Members<Key>([]) == {}
  {}

  lemma OneMoreMember(list: seq<Key>, n: nat)
    requires Distinct(list) && 0 < n <= |list|
    ensures Members(list[..n]) == Members(list[..n - 1]) + {list[n - 1]}
    ensures list[n - 1] !in Members(list[..n - 1]) && |Members(list[..n - 1])| == n - 1
  {
    DistinctSize(list[..n - 1]);
    assert list[..n] == list[..n - 1] + [list[n - 1]];
    MembersAppend(list[..n - 1], list[n - 1]);
  }

  lemma {:induction false} LoadNewBucketRebuilt(base: map<Key, Entry>, news: seq<set<Key>>, trieds: seq<seq<Key>>,
                                               b: nat, list: seq<Key>, n: nat)
    requires b < |news| && news[b] == {} && n <= |list| && Distinct(list) && |list| < U16
    requires forall k :: k in list ==> k in base
    ensures LoadNewBucket(Rebuilt(base, news, trieds), b, list, n)
            == Loaded(Rebuilt(base, news[b := Members(list[..n])], trieds))
    decreases n
  {
    hide Rebuilt, FileNew, Members, Distinct;
    if n == 0 {
      NoMembers();
      assert news[b := Members(list[..0])] == news;
    } else {
      LoadNewBucketRebuilt(base, news, trieds, b, list, n - 1);
      var some := news[b := Members(list[..n - 1])];
      OneMoreMember(list, n);
      FileNewRebuilt(base, some, trieds, b, list[n - 1]);
      assert some[b := some[b] + {list[n - 1]}] == news[b := Members(list[..n])];
    }
  }

  /** The first n buckets, the others still empty. */
  ghost function NewUpTo(news: seq<set<Key>>, n: nat): seq<set<Key>>
  {
    seq(|news|, b requires 0 <= b < |news| => if b < n then news[b] else {})
  }

  ghost function TriedUpTo(trieds: seq<seq<Key>>, n: nat): seq<seq<Key>>
  {
    seq(|trieds|, b requires 0 <= b < |trieds| => if b < n then trieds[b] else [])
  }

  lemma {:induction false} LoadNewBucketsRebuilt(base: map<Key, Entry>, news: seq<set<Key>>, lists: seq<seq<Key>>,
                                                trieds: seq<seq<Key>>, n: nat)
    requires n <= |lists| == |news|
    requires forall b :: 0 <= b < |news| ==> ListsKeys(news[b], lists[b]) && |news[b]| + 1 < U16 && news[b] <= base.Keys
    ensures LoadNewBuckets(Rebuilt(base, NewUpTo(news, 0), trieds), lists, n) ==
            Loaded(Rebuilt(base, NewUpTo(news, n), trieds))
    decreases n
  {
    hide Rebuilt, LoadNewBucket, Distinct;
    if n > 0 {
      var b := n - 1;
      LoadNewBucketsRebuilt(base, news, lists, trieds, b);
      DistinctSize(lists[b]);
      assert forall k :: k in lists[b] ==> k in Members(lists[b]);
      LoadNewBucketRebuilt(base, NewUpTo(news, b), trieds, b, lists[b], |lists[b]|);
      assert lists[b][..|lists[b]|] == lists[b];
      assert NewUpTo(news, b)[b := news[b]] == NewUpTo(news, n);
    }
  }

  lemma {:induction false} LoadTriedBucketRebuilt(base: map<Key, Entry>, news: seq<set<Key>>, trieds: seq<seq<Key>>,
                                                 b: nat, list: seq<Key>, n: nat)
    requires b < |trieds| && trieds[b] == [] && n <= |list| && Distinct(list) && |list| < U16
    requires forall k :: k in list ==> k in base && !InTried(trieds, k)
    ensures LoadTriedBucket(Rebuilt(base, news, trieds), b, list, n)
            == Loaded(Rebuilt(base, news, trieds[b := list[..n]]))
    decreases n
  {
    hide Rebuilt, FileTried;
    if n == 0 {
      assert trieds[b := list[..0]] == trieds;
    } else {
      LoadTriedBucketRebuilt(base, news, trieds, b, list, n - 1);
      var some, k := trieds[b := list[..n - 1]], list[n - 1];
      DistinctSize(list[..n - 1]);
      assert list[..n] == list[..n - 1] + [k];
      assert !InTried(some, k) by {
        assert forall c :: 0 <= c < |some| ==> some[c] == if c == b then list[..n - 1] else trieds[c];
      }
      FileTriedRebuilt(base, news, some, b, k);
      assert some[b := some[b] + [k]] == trieds[b := list[..n]];
    }
  }

  lemma {:induction false} LoadTriedBucketsRebuilt(base: map<Key, Entry>, news: seq<set<Key>>, trieds: seq<seq<Key>>,
                                                   n: nat)
    requires n <= |trieds| && TriedOnce(trieds)
    requires forall b :: 0 <= b < |trieds| ==> |trieds[b]| < U16
    requires forall b, k :: 0 <= b < |trieds| && k in trieds[b] ==> k in base
    ensures LoadTriedBuckets(Rebuilt(base, news, TriedUpTo(trieds, 0)), trieds, n) ==
            Loaded(Rebuilt(base, news, TriedUpTo(trieds, n)))
    decreases n
  {
    hide Rebuilt, LoadTriedBucket, Distinct;
    if n > 0 {
      var b := n - 1;
      LoadTriedBucketsRebuilt(base, news, trieds, b);
      var some := TriedUpTo(trieds, b);
      forall k | k in trieds[b]
        ensures !InTried(some, k)
      {
        assert forall c :: 0 <= c < |some| && k in some[c] ==> k in trieds[c] && c < b;
      }
      LoadTriedBucketRebuilt(base, news, some, b, trieds[b], |trieds[b]|);
      assert trieds[b][..|trieds[b]|] == trieds[b];
      assert some[b := trieds[b]] == TriedUpTo(trieds, n);
    }
  }

  /** The address parser reads back every text the books print. */
  ghost predicate Parses(index: map<Key, Entry>, parse: Key -> Option<NetAddress>)
  {
    forall k :: k in index ==>
      && parse(k).Some? && parse(k).value.key == k
      && parse(index[k].src.key).Some? && parse(index[k].src.key).value.key == index[k].src.key
  }

  /** The entries made from the saved addresses. */
  ghost function Base(index: map<Key, Entry>, parse: Key -> Option<NetAddress>): map<Key, Entry>
    requires Parses(index, parse)
  {
    map k | k in index :: Restart(parse(k).value, parse(index[k].src.key).value, Record(k, index[k]))
  }

  ghost function Named(addresses: seq<Option<SavedAddress>>, n: nat): set<Key>
    requires n <= |addresses| && forall i :: 0 <= i < n ==> addresses[i].Some?
  {
    set i | 0 <= i < n :: addresses[i].value.addr
  }

  ghost function Chosen(base: map<Key, Entry>, s: set<Key>): map<Key, Entry>
  {
    map k | k in base && k in s :: base[k]
  }

  lemma ChosenMore(base: map<Key, Entry>, s: set<Key>, k: Key)
    requires k in base
    ensures Chosen(base, s + {k}) == Chosen(base, s)[k := base[k]]
  {}

  lemma {:induction false} LoadAddressesBase(index: map<Key, Entry>, addresses: seq<Option<SavedAddress>>,
                                            parse: Key -> Option<NetAddress>, n: nat)
    requires Lists(index, addresses) && Parses(index, parse) && n <= |addresses|
    ensures LoadAddresses(Empty(), addresses, n, parse)
            == Loaded(Empty().(index := Chosen(Base(index, parse), Named(addresses, n))))
    decreases n
  {
    hide Restart, Record, Chosen;
    if n == 0 {
      assert Named(addresses, 0) == {};
      assert Chosen(Base(index, parse), {}) == map[] by { ChosenNone(Base(index, parse)); }
    } else {
      LoadAddressesBase(index, addresses, parse, n - 1);
      var a := addresses[n - 1];
      assert Named(addresses, n) == Named(addresses, n - 1) + {a.value.addr};
      ChosenMore(Base(index, parse), Named(addresses, n - 1), a.value.addr);
      LoadAddressBase(index, Empty().(index := Chosen(Base(index, parse), Named(addresses, n - 1))), a, parse);
    }
  }

  lemma ChosenNone(base: map<Key, Entry>)
    ensures Chosen(base, {}) == map[]
  {}

  lemma LoadAddressBase(index: map<Key, Entry>, m: Books, a: Option<SavedAddress>, parse: Key -> Option<NetAddress>)
    requires Parses(index, parse) && a.Some? && a.value.addr in index
    requires a.value == Record(a.value.addr, index[a.value.addr])
    ensures LoadAddress(m, a, parse) == Loaded(Refiled(m, a.value.addr, Base(index, parse)[a.value.addr]))
  {}

  lemma AllNamed(index: map<Key, Entry>, addresses: seq<Option<SavedAddress>>, parse: Key -> Option<NetAddress>)
    requires Lists(index, addresses) && Parses(index, parse)
    ensures LoadAddresses(Empty(), addresses, |addresses|, parse) == Loaded(Empty().(index := Base(index, parse)))
  {
    LoadAddressesBase(index, addresses, parse, |addresses|);
    forall k | k in index
      ensures k in Named(addresses, |addresses|)
    {
      var i :| 0 <= i < |addresses| && addresses[i] == Some(Record(k, index[k]));
    }
    assert Chosen(Base(index, parse), Named(addresses, |addresses|)) == Base(index, parse);
  }

  /** What a save and a load keep: all but when and with which services an address was seen,
      and the times to the second. */
  ghost function Restored(m: Books, parse: Key -> Option<NetAddress>): Books
    requires Parses(m.index, parse)
  {
    m.(index := map k | k in m.index ::
          Base(m.index, parse)[k].(refs := m.index[k].refs, tried := m.index[k].tried))
  }

  /** What comes back of an address, field by field. */
  ghost predicate ReadBack(k: Key, was: Entry, now: Entry, parse: Key -> Option<NetAddress>)
  {
    && now.attempts == was.attempts && now.refs == was.refs && now.tried == was.tried
    && Some(now.na) == parse(k) && now.na.key == k
    && Some(now.src) == parse(was.src.key) && now.src.key == was.src.key
    && (Fits(was.lastAttempt) ==> RoundedDown(was.lastAttempt, now.lastAttempt))
    && (Fits(was.lastSuccess) ==> RoundedDown(was.lastSuccess, now.lastSuccess))
  }

  /** Every address comes back, and the buckets, statistics and counters as they were. */
  ghost predicate AllReadBack(m: Books, now: Books, parse: Key -> Option<NetAddress>)
  {
    && now == m.(index := now.index) && now.index.Keys == m.index.Keys
    && forall k :: k in m.index ==> ReadBack(k, m.index[k], now.index[k], parse)
  }

  lemma RestoredReadBack(m: Books, parse: Key -> Option<NetAddress>)
    requires Parses(m.index, parse)
    ensures AllReadBack(m, Restored(m, parse), parse)
  {
    hide RoundedDown, ToUnix, FromUnix;
    forall k | k in m.index
      ensures ReadBack(k, m.index[k], Restored(m, parse).index[k], parse)
    {
      var e := m.index[k];
      if Fits(e.lastAttempt) {
        TimeRounded(e.lastAttempt);
      }
      if Fits(e.lastSuccess) {
        TimeRounded(e.lastSuccess);
      }
    }
  }

  lemma BlankRebuilt(base: map<Key, Entry>, news: seq<set<Key>>, trieds: seq<seq<Key>>)
    requires |news| == NEW_BUCKET_COUNT && |trieds| == TRIED_BUCKET_COUNT
    requires forall k :: k in base ==> base[k].refs == 0 && !base[k].tried
    ensures Empty().(index := base) == Rebuilt(base, NewUpTo(news, 0), TriedUpTo(trieds, 0))
  {
    var n, t := NewUpTo(news, 0), TriedUpTo(trieds, 0);
    assert forall k :: Holders(n, k) == {};
    assert Held(base, n) == {} && Trying(base, t) == {};
    assert Members<Key>([]) == {};
    assert OfKind({}, IPv4) == {} && OfKind({}, IPv6) == {} && OfKind({}, TorV3) == {};
    assert Rebuilt(base, n, t).index == base;
    assert n == Empty().newBuckets && t == Empty().triedBuckets;
    assert Rebuilt(base, n, t).newStats == Empty().newStats;
    assert Rebuilt(base, n, t).triedStats == Empty().triedStats;
  }

  lemma FullRebuilt(m: Books, size: nat, parse: Key -> Option<NetAddress>)
    requires Inv(m, size, {}) && Parses(m.index, parse)
    ensures Rebuilt(Base(m.index, parse), m.newBuckets, m.triedBuckets) == Restored(m, parse)
  {
    hide InTried, StatsOf, Holders, Restart, Record, TriedOnce, Members;
    var r := Rebuilt(Base(m.index, parse), m.newBuckets, m.triedBuckets);
    forall k | k in m.index
      ensures m.index[k].refs == |Holders(m.newBuckets, k)| && (m.index[k].tried <==> InTried(m.triedBuckets, k))
      ensures Holders(m.newBuckets, k) != {} <==> !m.index[k].tried
    {
      assert AddressOk(m, {}, k);
      assert |Holders(m.newBuckets, k)| == 0 <==> Holders(m.newBuckets, k) == {};
    }
    assert Held(Base(m.index, parse), m.newBuckets) == Untried(m.index);
    assert Trying(Base(m.index, parse), m.triedBuckets) == Tried(m.index);
    assert r.index == Restored(m, parse).index;
    assert r.newStats == m.newStats;
    assert r.triedStats == m.triedStats;
  }

  /** Saving well-formed books and loading the file restores them. */
  lemma SaveThenLoad(m: Books, size: nat, secret: Secret, file: PeersFile, parse: Key -> Option<NetAddress>)
    requires Inv(m, size, {}) && SavedAs(m, secret, file) && Parses(m.index, parse)
    ensures LoadBooks(file, parse) == Loaded(Restored(m, parse)) && file.secret == secret
    ensures Inv(Restored(m, parse), size, {})
    ensures AllReadBack(m, LoadBooks(file, parse).books, parse)
  {
    hide AllReadBack;
    hide Rebuilt, AddressOk, Restart, Record, TriedOnce, CountsOk, LoadAddresses, LoadNewBuckets;
    hide LoadTriedBuckets, ListsKeys, AllSane;
    var base := Base(m.index, parse);
    AllNamed(m.index, file.addresses, parse);
    BaseBlank(m.index, parse);
    BlankRebuilt(base, m.newBuckets, m.triedBuckets);
    LoadNewBucketsRebuilt(base, m.newBuckets, file.newBuckets, TriedUpTo(m.triedBuckets, 0), NEW_BUCKET_COUNT);
    assert NewUpTo(m.newBuckets, NEW_BUCKET_COUNT) == m.newBuckets;
    LoadTriedBucketsRebuilt(base, m.newBuckets, m.triedBuckets, TRIED_BUCKET_COUNT);
    assert TriedUpTo(m.triedBuckets, TRIED_BUCKET_COUNT) == m.triedBuckets;
    FullRebuilt(m, size, parse);
    RestoredInv(m, size, parse);
    RestoredReadBack(m, parse);
  }

  /** What is restored is well-formed, and sane. */
  lemma RestoredInv(m: Books, size: nat, parse: Key -> Option<NetAddress>)
    requires Inv(m, size, {}) && Parses(m.index, parse)
    ensures Inv(Restored(m, parse), size, {}) && AllSane(Restored(m, parse))
  {
    hide AddressOk, Shape, BucketsIndexed, TriedOnce, CountsOk, Restart, Record, Sane;
    forall k | k in m.index
      ensures Restored(m, parse).index[k].na.key == m.index[k].na.key && Sane(Restored(m, parse).index[k])
    {
      assert AddressOk(m, {}, k);
      SaneAddress(m, k, Restored(m, parse).index[k]);
      FiledByKey(m, size, {}, k);
      BaseKey(m.index, parse, k);
    }
    SameRolesInv(m, size, {}, Restored(m, parse).index);
  }

  lemma SavedVersion(m: Books, secret: Secret, file: PeersFile)
    requires SavedAs(m, secret, file)
    ensures file.version == SERIALIZATION_VERSION
  {}

  lemma LoadedVersion(file: PeersFile, parse: Key -> Option<NetAddress>)
    ensures LoadBooks(file, parse).Loaded? ==> file.version == SERIALIZATION_VERSION
  {}

  lemma BaseBlank(index: map<Key, Entry>, parse: Key -> Option<NetAddress>)
    requires Parses(index, parse)
    ensures forall k :: k in index ==> Base(index, parse)[k].refs == 0 && !Base(index, parse)[k].tried
  {}

  lemma BaseKey(index: map<Key, Entry>, parse: Key -> Option<NetAddress>, k: Key)
    requires Parses(index, parse) && k in index
    ensures Base(index, parse)[k].na.key == k
  {}

  lemma SaneAddress(m: Books, k: Key, e: Entry)
    requires k in m.index && AddressOk(m, {}, k) && e.refs == m.index[k].refs && e.tried == m.index[k].tried
    ensures Sane(e)
  {}

  // ------------------------------------------------------------------
  // A load that fails.

  /** The keys of some buckets, one after the other. */
  function Concat(lists: seq<seq<Key>>): seq<Key>
  {
    if lists == [] then [] else Concat(lists[..|lists| - 1]) + lists[|lists| - 1]
  }

  /** The keys listed in the buckets a load reads, in the order it reads them. */
  function Listed(file: PeersFile): seq<Key>
  {
    Concat(file.newBuckets[..Least(|file.newBuckets|, NEW_BUCKET_COUNT)]) +
    Concat(file.triedBuckets[..Least(|file.triedBuckets|, TRIED_BUCKET_COUNT)])
  }

  predicate AddressOkay(a: Option<SavedAddress>, parse: Key -> Option<NetAddress>)
  {
    a.Some? && parse(a.value.addr).Some? && parse(a.value.src).Some?
  }

  predicate AddressesOkay(addresses: seq<Option<SavedAddress>>, parse: Key -> Option<NetAddress>)
  {
    forall i :: 0 <= i < |addresses| ==> AddressOkay(addresses[i], parse)
  }

  /** Some address of the list has this key. */
  predicate Addressed(addresses: seq<Option<SavedAddress>>, parse: Key -> Option<NetAddress>, k: Key)
    requires AddressesOkay(addresses, parse)
  {
    exists i :: 0 <= i < |addresses| && parse(addresses[i].value.addr).value.key == k
  }

  /** A load of the file counts no address: it stops before the buckets, finds
      them empty, or stops at the first key in them. */
  predicate Uncounted(file: PeersFile, parse: Key -> Option<NetAddress>)
  {
    || file.version != SERIALIZATION_VERSION
    || !AddressesOkay(file.addresses, parse)
    || Listed(file) == []
    || !Addressed(file.addresses, parse, Listed(file)[0])
  }

  lemma {:induction false} AddressesLoad(addresses: seq<Option<SavedAddress>>, n: nat, parse: Key -> Option<NetAddress>)
    requires n <= |addresses|
    ensures var r := LoadAddresses(Empty(), addresses, n, parse);
            && (r.Loaded? <==> AddressesOkay(addresses[..n], parse))
            && (r.Loaded? ==>
                  forall k :: (k in r.books.index <==> Addressed(addresses[..n], parse, k))
                              && (k in r.books.index ==> r.books.index[k].refs == 0))
  {
    if n > 0 {
      AddressesLoad(addresses, n - 1, parse);
      var some, more := addresses[..n - 1], addresses[..n];
      assert more == some + [addresses[n - 1]];
      if AddressesOkay(more, parse) {
        forall k
          ensures Addressed(more, parse, k) <==>
                    Addressed(some, parse, k) || parse(addresses[n - 1].value.addr).value.key == k
        {
          if Addressed(some, parse, k) {
            var i :| 0 <= i < |some| && parse(some[i].value.addr).value.key == k;
            assert more[i] == some[i];
          }
          assert more[n - 1] == addresses[n - 1];
        }
      }
    }
  }

  /** Filing a list counts at least its first key, when that is indexed and in
      no bucket yet, and stops at it when it is not indexed. */
  lemma {:induction false} NewBucketCounts(m: Books, b: nat, list: seq<Key>, n: nat)
    requires b < |m.newBuckets| == |m.newStats| && n <= |list|
    ensures var r := LoadNewBucket(m, b, list, n);
            && r.books.nNew >= m.nNew && r.books.nTried == m.nTried && r.books.index.Keys == m.index.Keys
            && (n > 0 && list[0] !in m.index ==> r == Malformed(m))
            && (n > 0 && list[0] in m.index && m.index[list[0]].refs == 0 ==> r.books.nNew > m.nNew)
    decreases n
  {
    if n > 0 {
      NewBucketCounts(m, b, list, n - 1);
      if n == 1 {
        assert LoadNewBucket(m, b, list, 0) == Loaded(m);
      }
    }
  }

  lemma {:induction false} NewBucketsCount(m: Books, lists: seq<seq<Key>>, n: nat)
    requires n <= |lists| && n <= |m.newBuckets| == |m.newStats|
    ensures var r, listed := LoadNewBuckets(m, lists, n), Concat(lists[..n]);
            && r.books.nNew >= m.nNew && r.books.nTried == m.nTried && r.books.index.Keys == m.index.Keys
            && (listed == [] ==> r == Loaded(m))
            && (listed != [] && listed[0] !in m.index ==> r == Malformed(m))
            && (listed != [] && listed[0] in m.index && m.index[listed[0]].refs == 0 ==> r.books.nNew > m.nNew)
    decreases n
  {
    hide FileNew;
    if n > 0 {
      NewBucketsCount(m, lists, n - 1);
      assert lists[..n][..n - 1] == lists[..n - 1];
      var before := LoadNewBuckets(m, lists, n - 1);
      if before.Loaded? {
        NewBucketCounts(before.books, n - 1, lists[n - 1], |lists[n - 1]|);
      }
    }
  }

  lemma {:induction false} TriedBucketCounts(m: Books, b: nat, list: seq<Key>, n: nat)
    requires b < |m.triedBuckets| == |m.triedStats| && n <= |list|
    ensures var r := LoadTriedBucket(m, b, list, n);
            && r.books.nTried >= m.nTried && r.books.nNew == m.nNew && r.books.index.Keys == m.index.Keys
            && (n > 0 && list[0] !in m.index ==> r == Malformed(m))
            && (n > 0 && list[0] in m.index ==> r.books.nTried > m.nTried)
    decreases n
  {
    if n > 0 {
      TriedBucketCounts(m, b, list, n - 1);
      if n == 1 {
        assert LoadTriedBucket(m, b, list, 0) == Loaded(m);
      }
    }
  }

  lemma {:induction false} TriedBucketsCount(m: Books, lists: seq<seq<Key>>, n: nat)
    requires n <= |lists| && n <= |m.triedBuckets| == |m.triedStats|
    ensures var r, listed := LoadTriedBuckets(m, lists, n), Concat(lists[..n]);
            && r.books.nTried >= m.nTried && r.books.nNew == m.nNew && r.books.index.Keys == m.index.Keys
            && (listed == [] ==> r == Loaded(m))
            && (listed != [] && listed[0] !in m.index ==> r == Malformed(m))
            && (listed != [] && listed[0] in m.index ==> r.books.nTried > m.nTried)
    decreases n
  {
    hide FileTried;
    if n > 0 {
      TriedBucketsCount(m, lists, n - 1);
      assert lists[..n][..n - 1] == lists[..n - 1];
      var before := LoadTriedBuckets(m, lists, n - 1);
      if before.Loaded? {
        TriedBucketCounts(before.books, n - 1, lists[n - 1], |lists[n - 1]|);
      }
    }
  }

  /** What a load of a file counts, read off the file. */
  lemma CountsNothing(file: PeersFile, parse: Key -> Option<NetAddress>)
    ensures var counted := LoadBooks(file, parse).books;
            counted.nNew == 0 && counted.nTried == 0 <==> Uncounted(file, parse)
  {
    hide LoadAddresses, LoadNewBuckets, LoadTriedBuckets, Concat, Addressed;
    var news, trieds := Least(|file.newBuckets|, NEW_BUCKET_COUNT), Least(|file.triedBuckets|, TRIED_BUCKET_COUNT);
    assert file.addresses[..|file.addresses|] == file.addresses;
    AddressesLoad(file.addresses, |file.addresses|, parse);
    var a := LoadAddresses(Empty(), file.addresses, |file.addresses|, parse);
    if a.Loaded? {
      NewBucketsCount(a.books, file.newBuckets, news);
      var n := LoadNewBuckets(a.books, file.newBuckets, news);
      if n.Loaded? {
        TriedBucketsCount(n.books, file.triedBuckets, trieds);
      }
    }
  }

  /** A load that fails is followed by a reset that leaves the counters. */
  lemma FailedLoadInv(nNew: int, nTried: int, size: nat)
    requires size < U16
    ensures Inv(Empty().(nNew := nNew, nTried := nTried), size, {}) <==> nNew == 0 && nTried == 0
  {
    EmptyInv(size);
    assert Untried(map[]) == {} && Tried(map[]) == {};
  }

  /** A file that fails after an address has been counted. */
  lemma MalformedMiscounts()
    ensures var k, lost := Key(IPv4, "1.2.3.4:9108"), Key(IPv4, "5.6.7.8:9108");
            var a := SavedAddress(k, k, 0, 0, GO_ZERO_TIME_UNIX, GO_ZERO_TIME_UNIX);
            var file := PeersFile(1, [], [Some(a)], [[k], [lost]], []);
            var r := LoadBooks(file, x => Some(NetAddress(x, 0, {})));
            r.Malformed? && r.books.nNew == 1
  {
    var k, lost := Key(IPv4, "1.2.3.4:9108"), Key(IPv4, "5.6.7.8:9108");
    assert k.text[0] != lost.text[0];
    var a := SavedAddress(k, k, 0, 0, GO_ZERO_TIME_UNIX, GO_ZERO_TIME_UNIX);
    var parse := x => Some(NetAddress(x, 0, {}));
    var lists := [[k], [lost]];
    var m := LoadAddresses(Empty(), [Some(a)], 1, parse).books;
    assert LoadAddresses(Empty(), [Some(a)], 0, parse) == Loaded(Empty());
    assert m.index == map[k := Restart(NetAddress(k, 0, {}), NetAddress(k, 0, {}), a)];
    var one := LoadNewBuckets(m, lists, 1);
    assert LoadNewBuckets(m, lists, 0) == Loaded(m);
    assert LoadNewBucket(m, 0, [k], 0) == Loaded(m);
    assert one == FileNew(m, 0, k);
    assert LoadNewBucket(one.books, 1, [lost], 0) == one;
    assert LoadNewBuckets(m, lists, 2) == FileNew(one.books, 1, lost);
  }
}
