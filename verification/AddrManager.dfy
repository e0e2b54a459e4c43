/** The address manager as it runs: known addresses are objects shared by the
    index and the buckets, and every operation changes them in place. */
module AddrManagers {
  import opened AddrBooks
  import opened AddrPick
  import opened AddrFile
  import opened Options
  import opened Sequences

  class KnownAddress {
    const key: Key
    const src: NetAddress
    var timestamp: int
    var services: set<nat>
    var attempts: int
    var lastAttempt: Option<int>
    var lastSuccess: Option<int>
    var tried: bool
    var refs: int

    constructor (na: NetAddress, src: NetAddress)
      ensures key == na.key && Snapshot() == Entry(na, src, 0, None, None, false, 0)
    {
      key := na.key;
      this.src := src;
      timestamp := na.timestamp;
      services := na.services;
      attempts := 0;
      lastAttempt := None;
      lastSuccess := None;
      tried := false;
      refs := 0;
    }

    /** An address as a peers file gives it. */
    constructor Load(na: NetAddress, src: NetAddress, a: SavedAddress)
      ensures key == na.key && Snapshot() == Restart(na, src, a)
    {
      key := na.key;
      this.src := src;
      timestamp := na.timestamp;
      services := na.services;
      attempts := a.attempts;
      lastAttempt := FromUnix(a.lastAttempt);
      lastSuccess := FromUnix(a.lastSuccess);
      tried := false;
      refs := 0;
    }

    function Snapshot(): Entry
      reads this
    {
      Entry(NetAddress(key, timestamp, services), src, attempts, lastAttempt, lastSuccess, tried, refs)
    }
  }

  // ------------------------------------------------------------------
  // The books behind the objects.

  ghost function KeysOf(s: seq<KnownAddress>): seq<Key>
  {
    seq(|s|, j requires 0 <= j < |s| => s[j].key)
  }

  ghost function NewKeys(buckets: seq<map<Key, KnownAddress>>): (r: seq<set<Key>>)
    ensures |r| == |buckets|
  {
    seq(|buckets|, b requires 0 <= b < |buckets| => buckets[b].Keys)
  }

  ghost function TriedKeys(buckets: seq<seq<KnownAddress>>): (r: seq<seq<Key>>)
    ensures |r| == |buckets|
  {
    seq(|buckets|, b requires 0 <= b < |buckets| => KeysOf(buckets[b]))
  }

  ghost function Snapshots(index: map<Key, KnownAddress>, known: set<KnownAddress>): (r: map<Key, Entry>)
    requires Known(index, known)
    reads known
    ensures r.Keys == index.Keys
  {
    map k | k in index :: index[k].Snapshot()
  }

  ghost predicate Known(index: map<Key, KnownAddress>, known: set<KnownAddress>)
  {
    forall k :: k in index ==> index[k] in known
  }

  // The buckets share the index's own objects, each filed under its key.

  ghost predicate Filed(index: map<Key, KnownAddress>, ka: KnownAddress)
  {
    ka.key in index && index[ka.key] == ka
  }

  ghost predicate Keyed(index: map<Key, KnownAddress>)
  {
    forall k :: k in index ==> index[k].key == k
  }

  ghost predicate NewShared(index: map<Key, KnownAddress>, buckets: seq<map<Key, KnownAddress>>)
  {
    forall b, k :: 0 <= b < |buckets| && k in buckets[b] ==> k in index && buckets[b][k] == index[k]
  }

  ghost predicate TriedShared(index: map<Key, KnownAddress>, buckets: seq<seq<KnownAddress>>)
  {
    forall b, j :: 0 <= b < |buckets| && 0 <= j < |buckets[b]| ==> Filed(index, buckets[b][j])
  }

  ghost predicate Shrunk(before: map<Key, KnownAddress>, after: map<Key, KnownAddress>)
  {
    forall k :: k in after ==> k in before && after[k] == before[k]
  }

  ghost predicate EntriesOf(index: map<Key, KnownAddress>, entries: map<Key, KnownAddress>)
  {
    forall k :: k in entries ==> k in index && entries[k] == index[k]
  }

  /** A new object filed under a new key disturbs no other handle. */
  lemma FiledMore(index: map<Key, KnownAddress>, known: set<KnownAddress>, news: seq<map<Key, KnownAddress>>,
                  trieds: seq<seq<KnownAddress>>, ka: KnownAddress)
    requires Known(index, known) && Keyed(index) && NewShared(index, news) && TriedShared(index, trieds)
    requires ka.key !in index
    ensures var more := index[ka.key := ka];
            && Known(more, known + {ka}) && Keyed(more) && NewShared(more, news) && TriedShared(more, trieds)
            && Filed(more, ka) && Snapshots(more, known + {ka}) == Snapshots(index, known)[ka.key := ka.Snapshot()]
  {
    var more := index[ka.key := ka];
    assert Known(more, known + {ka});
    assert Snapshots(more, known + {ka}) == Snapshots(index, known)[ka.key := ka.Snapshot()];
  }

  /** With empty buckets an object may be filed under any key, even a used one. */
  lemma FiledOver(index: map<Key, KnownAddress>, known: set<KnownAddress>, news: seq<map<Key, KnownAddress>>,
                  trieds: seq<seq<KnownAddress>>, ka: KnownAddress)
    requires Known(index, known) && Keyed(index) && NewKeys(news) == Empty().newBuckets
    requires TriedKeys(trieds) == Empty().triedBuckets
    ensures var more := index[ka.key := ka];
            && Known(more, known + {ka}) && Keyed(more) && NewShared(more, news) && TriedShared(more, trieds)
            && Filed(more, ka) && Snapshots(more, known + {ka}) == Snapshots(index, known)[ka.key := ka.Snapshot()]
  {
    var more := index[ka.key := ka];
    assert Known(more, known + {ka});
    assert Snapshots(more, known + {ka}) == Snapshots(index, known)[ka.key := ka.Snapshot()];
    assert forall b :: 0 <= b < |news| ==> news[b].Keys == NewKeys(news)[b];
    assert forall b :: 0 <= b < |trieds| ==> |trieds[b]| == |TriedKeys(trieds)[b]|;
  }

  // Changes of one bucket.

  function WithNew(buckets: seq<map<Key, KnownAddress>>, b: nat, ka: KnownAddress): (r: seq<map<Key, KnownAddress>>)
    requires b < |buckets|
    ensures |r| == |buckets|
  {
    buckets[b := buckets[b][ka.key := ka]]
  }

  lemma WithNewKeys(index: map<Key, KnownAddress>, buckets: seq<map<Key, KnownAddress>>, b: nat, ka: KnownAddress)
    requires b < |buckets| && Filed(index, ka) && NewShared(index, buckets)
    ensures NewShared(index, WithNew(buckets, b, ka))
    ensures NewKeys(WithNew(buckets, b, ka)) == NewKeys(buckets)[b := NewKeys(buckets)[b] + {ka.key}]
  {
    assert buckets[b][ka.key := ka].Keys == buckets[b].Keys + {ka.key};
  }

  function WithoutNew(buckets: seq<map<Key, KnownAddress>>, b: nat, k: Key): (r: seq<map<Key, KnownAddress>>)
    requires b < |buckets|
    ensures |r| == |buckets|
  {
    buckets[b := buckets[b] - {k}]
  }

  lemma WithoutNewKeys(index: map<Key, KnownAddress>, buckets: seq<map<Key, KnownAddress>>, b: nat, k: Key)
    requires b < |buckets| && NewShared(index, buckets)
    ensures NewShared(index, WithoutNew(buckets, b, k))
    ensures NewKeys(WithoutNew(buckets, b, k)) == NewKeys(buckets)[b := NewKeys(buckets)[b] - {k}]
  {
    assert (buckets[b] - {k}).Keys == buckets[b].Keys - {k};
  }

  function WithTried(buckets: seq<seq<KnownAddress>>, b: nat, ka: KnownAddress): (r: seq<seq<KnownAddress>>)
    requires b < |buckets|
    ensures |r| == |buckets|
  {
    buckets[b := buckets[b] + [ka]]
  }

  lemma WithTriedKeys(index: map<Key, KnownAddress>, buckets: seq<seq<KnownAddress>>, b: nat, ka: KnownAddress)
    requires b < |buckets| && Filed(index, ka) && TriedShared(index, buckets)
    ensures TriedShared(index, WithTried(buckets, b, ka))
    ensures TriedKeys(WithTried(buckets, b, ka)) == TriedKeys(buckets)[b := TriedKeys(buckets)[b] + [ka.key]]
  {
    assert KeysOf(buckets[b] + [ka]) == KeysOf(buckets[b]) + [ka.key];
  }

  function WithTriedAt(buckets: seq<seq<KnownAddress>>, b: nat, i: nat, ka: KnownAddress): (r: seq<seq<KnownAddress>>)
    requires b < |buckets| && i < |buckets[b]|
    ensures |r| == |buckets|
  {
    buckets[b := buckets[b][i := ka]]
  }

  lemma WithTriedAtKeys(index: map<Key, KnownAddress>, buckets: seq<seq<KnownAddress>>, b: nat, i: nat,
                        ka: KnownAddress)
    requires b < |buckets| && i < |buckets[b]| && Filed(index, ka) && TriedShared(index, buckets)
    ensures TriedShared(index, WithTriedAt(buckets, b, i, ka))
    ensures |TriedKeys(buckets)[b]| == |buckets[b]|
    ensures TriedKeys(WithTriedAt(buckets, b, i, ka)) == TriedKeys(buckets)[b := TriedKeys(buckets)[b][i := ka.key]]
  {
    assert KeysOf(buckets[b][i := ka]) == KeysOf(buckets[b])[i := ka.key];
  }

  function OneFewer(m: Books): Books
  {
    m.(nNew := m.nNew - 1)
  }

  datatype GoodResult = Marked | NotFound | NotNew

  /** A source of randomness: any number below a positive bound. */
  method IntN(n: nat) returns (r: nat)
    requires n > 0
    ensures r < n
  {
    r :| r < n;
  }

  class AddrManager {
    var addrIndex: map<Key, KnownAddress>
    var addrNew: seq<map<Key, KnownAddress>>
    var addrTried: seq<seq<KnownAddress>>
    var addrNewStats: seq<Stats>
    var addrTriedStats: seq<Stats>
    var addrChanged: bool
    var nTried: int
    var nNew: int
    const triedBucketSize: nat
    var secret: Secret
    const newHash: (Secret, NetAddress, NetAddress) -> nat
    const triedHash: (Secret, NetAddress) -> nat

    /** Every known-address object ever made. */
    ghost var known: set<KnownAddress>

    /** The books the objects stand for. */
    ghost function View(): Books
      requires Known(addrIndex, known)
      reads this, known
    {
      Books(Snapshots(addrIndex, known), NewKeys(addrNew), TriedKeys(addrTried),
            addrNewStats, addrTriedStats, nNew, nTried)
    }

    ghost predicate Handles()
      reads `addrIndex, `addrNew, `addrTried, `known
    {
      && Known(addrIndex, known) && Keyed(addrIndex)
      && NewShared(addrIndex, addrNew) && TriedShared(addrIndex, addrTried)
    }

    ghost predicate Valid()
      reads this, known
    {
      Handles() && Inv(View(), triedBucketSize, {}) && triedBucketSize > 0
    }

    constructor (triedBucketSize: nat, secret: Secret,
                 newHash: (Secret, NetAddress, NetAddress) -> nat, triedHash: (Secret, NetAddress) -> nat)
      requires 0 < triedBucketSize < U16
      ensures Valid() && View() == Empty() && this.triedBucketSize == triedBucketSize
      ensures this.newHash == newHash && this.triedHash == triedHash && this.secret == secret && known == {}
    {
      this.secret := secret;
      this.triedBucketSize := triedBucketSize;
      this.newHash := newHash;
      this.triedHash := triedHash;
      addrIndex := map[];
      addrNew := seq(NEW_BUCKET_COUNT, i => map[]);
      addrTried := seq(TRIED_BUCKET_COUNT, i => []);
      addrNewStats := seq(NEW_BUCKET_COUNT, i => Stats(0, 0, 0));
      addrTriedStats := seq(TRIED_BUCKET_COUNT, i => Stats(0, 0, 0));
      addrChanged := true;
      nTried := 0;
      nNew := 0;
      known := {};
      new;
      EmptyInv(triedBucketSize);
      assert View().index == Empty().index;
      assert forall b :: 0 <= b < NEW_BUCKET_COUNT ==> View().newBuckets[b] == Empty().newBuckets[b];
      assert forall b :: 0 <= b < TRIED_BUCKET_COUNT ==> View().triedBuckets[b] == Empty().triedBuckets[b];
    }

    // ----------------------------------------------------------------
    // Elementary changes, each one step on the books.

    /** Only one address's object changed. */
    twostate lemma OneChanged(ka: KnownAddress)
      requires old(Handles()) && old(Filed(addrIndex, ka)) && unchanged(this)
      requires forall o :: o in known && o != ka ==> unchanged(o)
      ensures View() == old(View()).(index := old(View()).index[ka.key := ka.Snapshot()])
    {
      hide NewKeys, TriedKeys;
      assert View().index == old(View()).index[ka.key := ka.Snapshot()];
    }

    lemma Recorded(ka: KnownAddress)
      requires Handles() && Filed(addrIndex, ka)
      ensures ka.key in View().index && View().index[ka.key] == ka.Snapshot() && ka in known
    {}

    method SetRefs(ka: KnownAddress, n: int)
      requires Handles() && Filed(addrIndex, ka)
      modifies ka`refs
      ensures ka.key in old(View()).index
      ensures View() == Refiled(old(View()), ka.key, old(View()).index[ka.key].(refs := n))
    {
      ka.refs := n;
      OneChanged(ka);
    }

    method SetTried(ka: KnownAddress, tried: bool)
      requires Handles() && Filed(addrIndex, ka)
      modifies ka`tried
      ensures ka.key in old(View()).index
      ensures View() == Refiled(old(View()), ka.key, old(View()).index[ka.key].(tried := tried))
    {
      ka.tried := tried;
      OneChanged(ka);
    }

    method PutIntoNew(ka: KnownAddress, b: nat)
      requires Handles() && Filed(addrIndex, ka) && b < |addrNew| == |addrNewStats|
      modifies ka`refs, `addrNew, `addrNewStats
      ensures Handles() && ka.key in old(View()).index && View() == PutNew(old(View()), b, ka.key)
    {
      hide Increment, NewKeys, TriedKeys, Snapshots, Keyed, NewShared, TriedShared, Known, WithNew;
      Recorded(ka);
      SetRefs(ka, ka.refs + 1);
      WithNewKeys(addrIndex, addrNew, b, ka);
      addrNew := WithNew(addrNew, b, ka);
      addrNewStats := addrNewStats[b := Increment(addrNewStats[b], ka.key.kind)];
    }

    /** Takes an address out of one new bucket, if it is there. */
    method TakeFromNew(ka: KnownAddress, b: nat) returns (found: bool)
      requires Handles() && Filed(addrIndex, ka) && b < |addrNew| == |addrNewStats|
      modifies ka`refs, `addrNew, `addrNewStats, `addrChanged
      ensures Handles() && ka.key in old(View()).index && View() == TakeOut(old(View()), b, ka.key)
      ensures found <==> ka.key in old(View()).newBuckets[b]
      ensures addrChanged <==> old(addrChanged) || found
    {
      hide Decrement, TriedKeys, Snapshots, Keyed, NewShared, TriedShared, Known, WithoutNew;
      Recorded(ka);
      found := ka.key in addrNew[b];
      if found {
        SetRefs(ka, ka.refs - 1);
        WithoutNewKeys(addrIndex, addrNew, b, ka.key);
        addrNew := WithoutNew(addrNew, b, ka.key);
        addrNewStats := addrNewStats[b := Decrement(addrNewStats[b], ka.key.kind)];
        addrChanged := true;
      }
    }

    /** One expired entry: out of the bucket, and forgotten with its last reference. */
    method RemoveFromNew(ka: KnownAddress, b: nat, ghost loose: set<Key>)
      requires Handles() && Inv(View(), triedBucketSize, loose) && b < NEW_BUCKET_COUNT
      requires Filed(addrIndex, ka) && ka.key in View().newBuckets[b] && ka.key !in loose
      modifies ka`refs, `addrIndex, `addrNew, `addrNewStats, `addrChanged, `nNew
      ensures Handles() && Inv(View(), triedBucketSize, loose)
      ensures View() == RemoveNew(old(View()), b, ka.key)
      ensures Shrunk(old(addrIndex), addrIndex)
    {
      hide Decrement, NewKeys, TriedKeys, Snapshots, Keyed, NewShared, TriedShared, Known, Inv, TakeOut, RemoveNew;
      ghost var m := View();
      RemoveNewInv(m, triedBucketSize, loose, b, ka.key);
      Sizes(m, triedBucketSize, loose);
      RemoveByTaking(m, b, ka.key);
      var found := TakeFromNew(ka, b);
      Recorded(ka);
      if ka.refs == 0 {
        ForgetShares(ka.key, RemoveNew(m, b, ka.key), triedBucketSize, loose);
        nNew := nNew - 1;
        addrIndex := addrIndex - {ka.key};
      }
    }

    /** An address no bucket holds can leave the index. */
    lemma ForgetShares(k: Key, m: Books, size: nat, loose: set<Key>)
      requires Handles() && k in addrIndex
      requires Inv(m, size, loose) && m.index == View().index - {k}
      requires m.newBuckets == View().newBuckets && m.triedBuckets == View().triedBuckets
      ensures Known(addrIndex - {k}, known) && Keyed(addrIndex - {k})
      ensures NewShared(addrIndex - {k}, addrNew) && TriedShared(addrIndex - {k}, addrTried)
      ensures Snapshots(addrIndex - {k}, known) == View().index - {k}
    {
      hide AddressOk, CountsOk, TriedOnce, Shape;
      forall b, j | 0 <= b < |addrTried| && 0 <= j < |addrTried[b]|
        ensures Filed(addrIndex - {k}, addrTried[b][j])
      {
        assert m.triedBuckets[b][j] == addrTried[b][j].key;
        assert m.triedBuckets[b][j] in m.triedBuckets[b];
      }
      forall b, j | 0 <= b < |addrNew| && j in addrNew[b]
        ensures j in addrIndex - {k}
      {
        assert j in m.newBuckets[b];
      }
    }

    /** During a sweep, an entry not removed is still the object it was. */
    lemma EntryStands(m: Books, b: nat, removed: set<Key>, index: map<Key, KnownAddress>,
                      entries: map<Key, KnownAddress>, k: Key)
      requires Handles() && Keyed(index) && Shrunk(index, addrIndex) && EntriesOf(index, entries)
      requires BucketIndexed(m, b) && |m.newBuckets| == |m.newStats| && View() == RemoveSet(m, b, removed)
      requires k in m.newBuckets[b] && k !in removed && k in entries
      ensures k in m.index && entries[k].key == k && Filed(addrIndex, entries[k])
      ensures entries[k].Snapshot() == m.index[k] && entries[k] in known
      ensures b < |View().newBuckets| && k in View().newBuckets[b]
    {
      hide NewShared, TriedShared, NewKeys, TriedKeys, RemoveSet;
      UnremovedStay(m, b, removed, k);
    }

    method ExpireNew(b: nat, isBad: Entry -> bool, ghost loose: set<Key>) returns (ghost removed: set<Key>)
      requires Handles() && Inv(View(), triedBucketSize, loose) && b < NEW_BUCKET_COUNT
      requires loose !! View().newBuckets[b]
      modifies known`refs, `addrIndex, `addrNew, `addrNewStats, `addrChanged, `nNew
      ensures Handles() && Inv(View(), triedBucketSize, loose) && Shrunk(old(addrIndex), addrIndex)
      ensures BucketIndexed(old(View()), b) && Expired(old(View()), b, isBad, removed)
      ensures View() == RemoveSet(old(View()), b, removed)
    {
      hide Inv, Swept, RemoveSet, Expired, RemoveNew, Known, NewShared, TriedShared, Snapshots, NewKeys;
      hide TriedKeys, Keyed;
      ghost var m := View();
      SweepStarts(m, triedBucketSize, loose, b, isBad);
      EntriesShared(b);
      var entries := addrNew[b];
      var todo := entries.Keys;
      var oldest: Option<Key> := None;
      removed := {};
      while todo != {}
        invariant Handles() && Inv(View(), triedBucketSize, loose) && Shrunk(old(addrIndex), addrIndex)
        invariant todo <= entries.Keys && Swept(m, b, isBad, todo, removed, oldest)
        invariant View() == RemoveSet(m, b, removed)
      {
        var k :| k in todo;
        SweptPick(m, b, isBad, todo, removed, oldest, k);
        var v := entries[k];
        EntryStands(m, b, removed, old(addrIndex), entries, k);
        if isBad(v.Snapshot()) {
          SweptBad(m, b, isBad, todo, removed, oldest, k);
          RemoveOneMore(m, b, removed, k);
          RemoveFromNew(v, b, loose);
          removed := removed + {k};
        } else {
          SweptGood(m, b, isBad, todo, removed, oldest, k);
          if oldest.Some? {
            EntryStands(m, b, removed, old(addrIndex), entries, oldest.value);
          }
          if oldest.None? || v.timestamp <= entries[oldest.value].timestamp {
            oldest := Some(k);
          }
        }
        todo := todo - {k};
      }
      SweptAll(m, b, isBad, removed, oldest);
      if oldest.Some? {
        SweptOldest(m, b, isBad, removed, oldest);
        EntryStands(m, b, removed, old(addrIndex), entries, oldest.value);
        RemoveOneMore(m, b, removed, oldest.value);
        RemoveFromNew(entries[oldest.value], b, loose);
        removed := removed + {oldest.value};
      }
    }

    lemma EntriesShared(b: nat)
      requires Handles() && b < |addrNew|
      ensures EntriesOf(addrIndex, addrNew[b]) && addrNew[b].Keys == View().newBuckets[b]
    {}

    // ----------------------------------------------------------------
    // Adding an address.

    method Touch(ka: KnownAddress, na: NetAddress)
      requires Handles() && Filed(addrIndex, ka) && na.key == ka.key
      modifies ka`timestamp, ka`services
      ensures na.key in old(View()).index
      ensures View() == Refiled(old(View()), na.key, Touched(old(View()).index[na.key], na))
    {
      Recorded(ka);
      if na.timestamp > ka.timestamp || !(na.services <= ka.services) {
        ka.timestamp := na.timestamp;
        ka.services := ka.services + na.services;
      }
      OneChanged(ka);
    }

    method LearnAddress(na: NetAddress, src: NetAddress) returns (ka: KnownAddress)
      requires Handles() && na.key !in addrIndex
      modifies `addrIndex, `nNew, `addrChanged, `known
      ensures fresh(ka) && known == old(known) + {ka} && ka.key == na.key && ka.Snapshot() == Fresh(na, src)
      ensures Handles() && Filed(addrIndex, ka) && View() == Learn(old(View()), Fresh(na, src)) && addrChanged
    {
      hide NewKeys, TriedKeys, Known, Keyed, NewShared, TriedShared, Snapshots;
      ka := new KnownAddress(na, src);
      assert View() == old(View());
      FiledMore(addrIndex, known, addrNew, addrTried, ka);
      known := known + {ka};
      addrIndex := addrIndex[na.key := ka];
      nNew := nNew + 1;
      addrChanged := true;
    }

    /** Puts an address into a new bucket that does not hold it. */
    method Place(ka: KnownAddress, b: nat, isBad: Entry -> bool, ghost loose: set<Key>)
      returns (ghost removed: set<Key>)
      requires Handles() && Inv(View(), triedBucketSize, loose) && b < NEW_BUCKET_COUNT && loose <= {ka.key}
      requires Filed(addrIndex, ka) && !ka.tried && ka.refs < NEW_BUCKETS_PER_ADDRESS && ka.key !in View().newBuckets[b]
      modifies known`refs, `addrIndex, `addrNew, `addrNewStats, `addrChanged, `nNew
      ensures Handles() && Inv(View(), triedBucketSize, {})
      ensures Placed(old(View()), View(), b, ka.key, isBad, removed) && addrChanged
    {
      hide Inv, Expired, RemoveSet, PutNew, NewShared, TriedShared, Snapshots, TriedKeys, Keyed, NewKeys;
      ghost var m, k := View(), ka.key;
      SweepStarts(m, triedBucketSize, loose, b, isBad);
      EntriesShared(b);
      Recorded(ka);
      removed := {};
      if |addrNew[b]| > NEW_BUCKET_SIZE {
        removed := ExpireNew(b, isBad, loose);
        RoomFor(m, triedBucketSize, loose, b, k, isBad, removed);
        assert k in addrIndex;
      }
      assert View() == RemoveSet(m, b, removed);
      Recorded(ka);
      Sizes(View(), triedBucketSize, loose);
      PutNewInv(View(), triedBucketSize, loose, b, k);
      PutIntoNew(ka, b);
      addrChanged := true;
      assert loose - {k} == {};
    }

    method AddOrUpdateAddress(na: NetAddress, src: NetAddress, routable: bool, isBad: Entry -> bool)
      returns (ghost placed: bool, ghost removed: set<Key>, ghost draw: nat)
      requires Valid()
      modifies this, known
      ensures Valid() && fresh(known - old(known)) && known >= old(known) && secret == old(secret)
      ensures Added(old(View()), View(), na, src, routable, newHash(secret, na, src) % NEW_BUCKET_COUNT, isBad, placed,
                    removed)
      ensures var m := old(View());
              var b := newHash(secret, na, src) % NEW_BUCKET_COUNT;
              && (routable && na.key in m.index && !m.index[na.key].tried ==> draw < 2 * m.index[na.key].refs)
              && (placed <==>
                  routable &&
                  (na.key in m.index ==>
                     && !m.index[na.key].tried && m.index[na.key].refs < 8 && draw == 0
                     && b < |m.newBuckets| && na.key !in m.newBuckets[b]))
      ensures routable ==>
                var m := old(View());
                && na.key in View().index
                && (if na.key in m.index then SeenAgain(m.index[na.key], View().index[na.key], na, placed)
                    else SeenFirst(View().index[na.key], na, src))
      ensures addrChanged <==> old(addrChanged) || placed
      ensures var b := newHash(secret, na, src) % NEW_BUCKET_COUNT;
              && b < |old(View()).newBuckets| == |View().newBuckets|
              && (placed ==> na.key in View().newBuckets[b] && na.key !in old(View()).newBuckets[b])
              && (!placed ==> View().newBuckets == old(View()).newBuckets)
              && View().triedBuckets == old(View()).triedBuckets
    {
      hide Inv, NewShared, TriedShared, Snapshots, TriedKeys, Keyed, NewKeys, Known, Added, SeenAgain, SeenFirst;
      ghost var m := View();
      Sizes(m, triedBucketSize, {});
      placed, removed, draw := AddOrUpdateBooks(na, src, routable, isBad);
      Sizes(View(), triedBucketSize, {});
      if routable {
        AddedMeans(m, View(), triedBucketSize, na, src, newHash(secret, na, src) % NEW_BUCKET_COUNT, isBad, placed,
                   removed);
      } else {
        NotAdded(m, View(), na, src, newHash(secret, na, src) % NEW_BUCKET_COUNT, isBad, placed, removed);
      }
    }

    /** The change `add_or_update_address` makes to the books. */
    method AddOrUpdateBooks(na: NetAddress, src: NetAddress, routable: bool, isBad: Entry -> bool)
      returns (ghost placed: bool, ghost removed: set<Key>, ghost draw: nat)
      requires Valid()
      modifies this, known
      ensures Valid() && fresh(known - old(known)) && known >= old(known) && secret == old(secret)
      ensures Added(old(View()), View(), na, src, routable, newHash(secret, na, src) % NEW_BUCKET_COUNT, isBad, placed,
                    removed)
      ensures var m := old(View());
              var b := newHash(secret, na, src) % NEW_BUCKET_COUNT;
              && (routable && na.key in m.index && !m.index[na.key].tried ==> draw < 2 * m.index[na.key].refs)
              && (placed <==>
                  routable &&
                  (na.key in m.index ==>
                     && !m.index[na.key].tried && m.index[na.key].refs < 8 && draw == 0
                     && b < |m.newBuckets| && na.key !in m.newBuckets[b]))
      ensures addrChanged <==> old(addrChanged) || placed
    {
      hide Inv, Placed, NewShared, TriedShared, Snapshots, TriedKeys, Keyed, NewKeys, Known;
      placed, removed, draw := false, {}, 0;
      if !routable {
        return;
      }
      ghost var m, loose: set<Key> := View(), {};
      Sizes(m, triedBucketSize, {});
      var ka;
      if na.key in addrIndex {
        ka := addrIndex[na.key];
        FiledAt(na.key);
        Recorded(ka);
        RefiledInv(m, triedBucketSize, {}, na.key, Touched(m.index[na.key], na));
        Touch(ka, na);
        if ka.tried {
          return;
        }
        Recorded(ka);
        NewHasRefs(View(), triedBucketSize, na.key);
        if ka.refs == NEW_BUCKETS_PER_ADDRESS {
          return;
        }
        var drawn := IntN(2 * ka.refs);
        draw := drawn;
        if drawn != 0 {
          return;
        }
      } else {
        LearnInv(m, triedBucketSize, Fresh(na, src));
        ka := LearnAddress(na, src);
        loose := {na.key};
        Recorded(ka);
        NotHeld(m, triedBucketSize, na.key, newHash(secret, na, src) % NEW_BUCKET_COUNT);
      }
      var b := newHash(secret, na, src) % NEW_BUCKET_COUNT;
      Sizes(View(), triedBucketSize, loose);
      EntriesShared(b);
      if na.key in addrNew[b] {
        return;
      }
      removed := Place(ka, b, isBad, loose);
      placed := true;
    }

    lemma FiledAt(k: Key)
      requires Handles() && k in addrIndex
      ensures addrIndex[k].key == k && Filed(addrIndex, addrIndex[k]) && addrIndex[k] in known
    {}

    // ----------------------------------------------------------------
    // Marking an address good.

    method Stamp(ka: KnownAddress, now: int)
      requires Handles() && Filed(addrIndex, ka)
      modifies ka`attempts, ka`lastAttempt, ka`lastSuccess
      ensures ka.key in old(View()).index
      ensures View() == Refiled(old(View()), ka.key, Stamped(old(View()).index[ka.key], now))
    {
      ka.lastSuccess := Some(now);
      ka.lastAttempt := Some(now);
      ka.attempts := 0;
      OneChanged(ka);
    }

    /** Takes an address out of every new bucket, remembering the first. */
    method ClearNewBuckets(ka: KnownAddress) returns (first: Option<nat>)
      requires Handles() && Filed(addrIndex, ka) && |addrNew| == |addrNewStats|
      modifies ka`refs, `addrNew, `addrNewStats, `addrChanged
      ensures |addrNew| == |addrNewStats| == old(|addrNew|)
      ensures Handles() && ka.key in old(View()).index && View() == ClearNew(old(View()), ka.key, |addrNew|)
      ensures first.Some? ==> FirstHolder(old(View()).newBuckets, ka.key, first.value)
      ensures first.None? ==> forall b :: 0 <= b < |addrNew| ==> ka.key !in old(View()).newBuckets[b]
      ensures addrChanged <==> old(addrChanged) || first.Some?
    {
      hide TakeOut, ClearNew, NewShared, TriedShared, Snapshots, TriedKeys, Keyed, NewKeys, Known;
      ghost var m := View();
      Recorded(ka);
      ClearNewNone(m, ka.key);
      first := None;
      var i: nat := 0;
      while i < |addrNew|
        invariant i <= |addrNew| == |m.newBuckets| && |addrNew| == |addrNewStats|
        invariant Handles() && View() == ClearNew(m, ka.key, i)
        invariant forall b :: i <= b < |addrNew| ==> View().newBuckets[b] == m.newBuckets[b]
        invariant first.Some? ==> FirstHolder(m.newBuckets, ka.key, first.value)
        invariant first.None? ==> forall b :: 0 <= b < i ==> ka.key !in m.newBuckets[b]
        invariant addrChanged <==> old(addrChanged) || first.Some?
      {
        ClearNewStep(m, ka.key, i);
        var found := TakeFromNew(ka, i);
        if found && first.None? {
          first := Some(i);
        }
        i := i + 1;
      }
    }

    method PutIntoTried(ka: KnownAddress, b: nat)
      requires Handles() && Filed(addrIndex, ka) && b < |addrTried| == |addrTriedStats|
      modifies ka`tried, `addrTried, `addrTriedStats, `nTried
      ensures Handles() && ka.key in old(View()).index
      ensures View() == PutTried(old(View()).(nNew := old(nNew) + 1), b, ka.key)
    {
      hide Increment, NewKeys, TriedKeys, Snapshots, Keyed, NewShared, TriedShared, Known, WithTried;
      Recorded(ka);
      SetTried(ka, true);
      WithTriedKeys(addrIndex, addrTried, b, ka);
      addrTried := WithTried(addrTried, b, ka);
      addrTriedStats := addrTriedStats[b := Increment(addrTriedStats[b], ka.key.kind)];
      nTried := nTried + 1;
    }

    method GetOldestAddressIndex(b: nat) returns (idx: nat)
      requires Handles() && b < |addrTried| == |addrTriedStats|
      ensures TriedIndexed(View(), b)
      ensures addrTried[b] != [] ==> OldestAt(View().index, View().triedBuckets[b], idx)
    {
      TriedEntries(b);
      idx := 0;
      var oldest := 0;
      for i := 0 to |addrTried[b]|
        invariant i > 0 ==> idx < i && oldest == addrTried[b][idx].timestamp
        invariant forall j :: 0 <= j < i ==> oldest <= addrTried[b][j].timestamp
        invariant forall j :: 0 <= j < idx ==> j < i && oldest < addrTried[b][j].timestamp
      {
        var timestamp := addrTried[b][i].timestamp;
        if i == 0 || oldest > timestamp {
          oldest := timestamp;
          idx := i;
        }
      }
    }

    lemma TriedEntries(b: nat)
      requires Handles() && b < |addrTried| == |addrTriedStats|
      ensures TriedIndexed(View(), b) && |View().triedBuckets[b]| == |addrTried[b]|
      ensures forall j :: 0 <= j < |addrTried[b]| ==>
                View().triedBuckets[b][j] == addrTried[b][j].key && Filed(addrIndex, addrTried[b][j])
                && View().index[View().triedBuckets[b][j]] == addrTried[b][j].Snapshot()
    {
      hide NewShared, NewKeys;
    }

    /** Puts an address in place of a tried one, which is tried no longer. */
    method SwapIntoTried(ka: KnownAddress, b: nat, i: nat, out: KnownAddress)
      requires Handles() && Filed(addrIndex, ka) && b < |addrTried| == |addrTriedStats| && i < |addrTried[b]|
      requires out == addrTried[b][i] && ka != out
      modifies ka`tried, out`tried, `addrTried, `addrTriedStats
      ensures Handles() && ka.key in old(View()).index && TriedIndexed(old(View()), b)
      ensures i < |old(View()).triedBuckets[b]| && View() == SwapTried(old(View()), b, i, ka.key)
    {
      hide Increment, Decrement, NewKeys, TriedKeys, Snapshots, Keyed, NewShared, TriedShared, Known, WithTriedAt;
      TriedEntries(b);
      Recorded(ka);
      SetTried(ka, true);
      WithTriedAtKeys(addrIndex, addrTried, b, i, ka);
      addrTried := WithTriedAt(addrTried, b, i, ka);
      addrTriedStats := addrTriedStats[b := Increment(Decrement(addrTriedStats[b], out.key.kind), ka.key.kind)];
      SetTried(out, false);
    }

    method AddOneBack(ghost c: Books)
      requires Handles() && View() == OneFewer(c)
      modifies `nNew
      ensures View() == c
    {
      hide NewKeys, TriedKeys, Snapshots;
      nNew := nNew + 1;
    }

    /** The new bucket for an evicted address: its own if that has room. */
    method ChooseHome(out: KnownAddress, first: nat) returns (nb: nat)
      requires Handles() && |addrNew| == NEW_BUCKET_COUNT && first < NEW_BUCKET_COUNT
      ensures nb < NEW_BUCKET_COUNT
      ensures var own := newHash(secret, out.Snapshot().na, out.Snapshot().src) % NEW_BUCKET_COUNT;
              nb == if |View().newBuckets[own]| < NEW_BUCKET_SIZE then own else first
    {
      hide Snapshots, TriedKeys, TriedShared, Known, Keyed;
      nb := newHash(secret, out.Snapshot().na, out.src) % NEW_BUCKET_COUNT;
      EntriesShared(nb);
      if |addrNew[nb]| >= NEW_BUCKET_SIZE {
        nb := first;
      }
    }

    /** Makes room in a full tried bucket: the oldest address there goes back to a new bucket. */
    method Evict(ka: KnownAddress, tb: nat, first: nat, ghost m: Books) returns (ghost i: nat, ghost home: nat)
      requires Handles() && Filed(addrIndex, ka) && tb < TRIED_BUCKET_COUNT && triedBucketSize > 0
      requires Inv(m, triedBucketSize, {}) && ka.key in m.index && !m.index[ka.key].tried
      requires |m.newBuckets| == |m.newStats| == NEW_BUCKET_COUNT
      requires View() == OneFewer(ClearNew(m, ka.key, NEW_BUCKET_COUNT))
      requires FirstHolder(m.newBuckets, ka.key, first) && TriedIndexed(m, tb)
      requires |m.triedBuckets[tb]| >= triedBucketSize
      modifies this, known`tried, known`refs
      ensures Handles() && Inv(View(), triedBucketSize, {}) && known == old(known) && secret == old(secret)
      ensures Evicted(m, View(), ka.key, tb, newHash, secret, i, home) && addrChanged == old(addrChanged)
    {
      hide Inv, NewShared, TriedShared, Snapshots, TriedKeys, Keyed, NewKeys, Known, ClearNew, SwapTried;
      hide PutNew, TriedIndexed, OldestAt;
      ghost var k, c := ka.key, ClearNew(m, ka.key, NEW_BUCKET_COUNT);
      ClearedInv(m, triedBucketSize, k);
      Sizes(c, triedBucketSize, {k});
      var idx := GetOldestAddressIndex(tb);
      TriedEntries(tb);
      var out := addrTried[tb][idx];
      Recorded(out);
      Recorded(ka);
      var nb := ChooseHome(out, first);
      EvictedFits(m, c, triedBucketSize, k, tb, idx, nb);
      AddOneBack(c);
      SwapIntoTried(ka, tb, idx, out);
      PutIntoNew(out, nb);
      i, home := idx, nb;
    }

    /** Moves a new address to its tried bucket. The outcome that finds it in no
        new bucket, `NotNew`, never happens. */
    method Promote(ka: KnownAddress) returns (r: GoodResult, ghost i: nat, ghost home: nat)
      requires Valid() && Filed(addrIndex, ka) && !ka.tried
      modifies this, known`tried, known`refs
      ensures Valid() && known == old(known) && secret == old(secret) && r == Marked
      ensures Moves(old(View()), View(), ka.key, i, home) && addrChanged
    {
      hide Inv, NewShared, TriedShared, Snapshots, TriedKeys, Keyed, NewKeys, Known;
      hide ClearNew, PutTried, SwapTried, PutNew, TriedIndexed, Evicted;
      i, home, r := 0, 0, Marked;
      ghost var m, k := View(), ka.key;
      Recorded(ka);
      Sizes(m, triedBucketSize, {});
      ClearedInv(m, triedBucketSize, k);
      var tb := triedHash(secret, ka.Snapshot().na) % TRIED_BUCKET_COUNT;
      TriedEntries(tb);
      var first := ClearNewBuckets(ka);
      nNew := nNew - 1;
      if first.None? {
        r := NotNew;
        return;
      }
      ghost var c := ClearNew(m, k, NEW_BUCKET_COUNT);
      TriedEntries(tb);
      if |addrTried[tb]| < triedBucketSize {
        PutTriedInv(c, triedBucketSize, tb, k);
        PutIntoTried(ka, tb);
        addrChanged := true;
        assert View() == PutTried(c, tb, k);
      } else {
        i, home := Evict(ka, tb, first.value, m);
      }
    }

    method Good(k: Key, now: int) returns (r: GoodResult, ghost evicted: nat, ghost home: nat)
      requires Valid()
      modifies this, known
      ensures Valid() && known == old(known) && secret == old(secret)
      ensures r == if k in old(View()).index then Marked else NotFound
      ensures r.NotFound? ==> View() == old(View())
      ensures r.Marked? ==>
                var m := old(View());
                var stamped := Refiled(m, k, Stamped(m.index[k], now));
                if m.index[k].tried then View() == stamped else Moves(stamped, View(), k, evicted, home)
      ensures r.Marked? ==>
                var m := old(View());
                && View().index.Keys == m.index.Keys && Renewed(m.index[k], View().index[k], now)
                && (m.index[k].tried ==> View() == m.(index := m.index[k := View().index[k]]))
                && (!m.index[k].tried ==>
                      var tb := triedHash(secret, m.index[k].na) % TRIED_BUCKET_COUNT;
                      && tb < |View().triedBuckets| && k in View().triedBuckets[tb]
                      && Holders(View().newBuckets, k) == {})
      ensures addrChanged <==> old(addrChanged) || (k in old(View()).index && !old(View()).index[k].tried)
    {
      hide Inv, NewShared, TriedShared, Snapshots, TriedKeys, Keyed, NewKeys, Known, Moves, Renewed, Holders;
      evicted, home := 0, 0;
      if k !in addrIndex {
        return NotFound, 0, 0;
      }
      var ka := addrIndex[k];
      FiledAt(k);
      Recorded(ka);
      ghost var m := View();
      RefiledInv(m, triedBucketSize, {}, k, Stamped(m.index[k], now));
      Stamp(ka, now);
      ghost var stamped := View();
      if ka.tried {
        TriedUnreferenced(m, triedBucketSize, k);
        RenewedTried(m.index[k], now);
        return Marked, 0, 0;
      }
      r, evicted, home := Promote(ka);
      MovesSelf(m, stamped, View(), k, now, evicted, home);
    }

    lemma MovesSelf(m: Books, stamped: Books, m': Books, k: Key, now: int, evicted: nat, home: nat)
      requires k in m.index && stamped == Refiled(m, k, Stamped(m.index[k], now)) && !m.index[k].tried
      requires Inv(stamped, triedBucketSize, {}) && Moves(stamped, m', k, evicted, home)
      ensures m'.index.Keys == m.index.Keys && Renewed(m.index[k], m'.index[k], now)
      ensures var tb := triedHash(secret, m.index[k].na) % TRIED_BUCKET_COUNT;
              tb < |m'.triedBuckets| && k in m'.triedBuckets[tb] && Holders(m'.newBuckets, k) == {}
    {
      hide Inv, Promoted, Holders;
      var tb := triedHash(secret, m.index[k].na) % TRIED_BUCKET_COUNT;
      PromotedSelf(stamped, m', triedBucketSize, k, tb, newHash, secret, evicted, home);
    }

    /** What a promotion does to the books, with this manager's bucket hashes. */
    ghost predicate Moves(m: Books, m': Books, k: Key, evicted: nat, home: nat)
      reads `secret
    {
      && |m.newBuckets| == |m.newStats| && k in m.index
      && var tb := triedHash(secret, m.index[k].na) % TRIED_BUCKET_COUNT;
      && TriedIndexed(m, tb)
      && Promoted(m, m', k, tb, triedBucketSize, newHash, secret, evicted, home)
    }

    // ----------------------------------------------------------------
    // Choosing an address.

    /** The address of a tried bucket with n wanted ones before it. */
    method NthTried(b: nat, f: Filter, n: nat) returns (picked: Option<KnownAddress>)
      requires Handles() && b < |addrTried| && n < WantedIn(TriedKeys(addrTried)[b], f)
      ensures picked.Some? && Filed(addrIndex, picked.value) && Wanted(f, picked.value.key.kind)
      ensures exists i :: 0 <= i < |addrTried[b]| && addrTried[b][i] == picked.value
                && WantedIn(TriedKeys(addrTried)[b][..i], f) == n
    {
      ghost var keys := TriedKeys(addrTried)[b];
      assert keys[..|keys|] == keys;
      var nth: nat := n;
      var i := 0;
      while i < |addrTried[b]|
        invariant i <= |keys| == |addrTried[b]| && WantedIn(keys[..i], f) + nth == n
      {
        WantedInStep(keys, f, i);
        var ka := addrTried[b][i];
        if Wanted(f, ka.key.kind) {
          if nth == 0 {
            return Some(ka);
          }
          nth := nth - 1;
        }
        i := i + 1;
      }
      picked := None;
    }

    /** Some wanted address of a new bucket, found by counting n wanted ones in any order. */
    method NthNew(b: nat, f: Filter, n: nat) returns (picked: Option<KnownAddress>)
      requires Handles() && b < |addrNew| && n < |WantedOf(addrNew[b].Keys, f)|
      ensures picked.Some? && Filed(addrIndex, picked.value) && Wanted(f, picked.value.key.kind)
      ensures picked.value.key in addrNew[b] && addrNew[b][picked.value.key] == picked.value
    {
      var todo := addrNew[b].Keys;
      var nth: nat := n;
      picked := None;
      while todo != {}
        invariant todo <= addrNew[b].Keys && nth < |WantedOf(todo, f)|
        decreases |todo|
      {
        var k :| k in todo;
        assert k in addrNew[b] && k in addrIndex;
        var ka := addrNew[b][k];
        FiledAt(k);
        if Wanted(f, ka.key.kind) {
          if nth == 0 {
            return Some(ka);
          }
          nth := nth - 1;
          assert WantedOf(todo - {k}, f) == WantedOf(todo, f) - {k};
        } else {
          assert WantedOf(todo - {k}, f) == WantedOf(todo, f);
        }
        todo := todo - {k};
      }
    }

    method DrawTried(b: nat, f: Filter) returns (ka: KnownAddress)
      requires Valid() && b < |addrTriedStats| && Matches(addrTriedStats[b], f)
      ensures Filed(addrIndex, ka) && Wanted(f, ka.key.kind)
    {
      hide Inv, Snapshots, NewKeys, NewShared, Matches, Total, Known, Keyed, TriedShared;
      Sizes(View(), triedBucketSize, {});
      TriedTotals(View(), triedBucketSize, b, f);
      var n := IntN(Total(addrTriedStats[b], f));
      var picked := NthTried(b, f, n);
      ka := picked.value;
    }

    method DrawNew(b: nat, f: Filter) returns (ka: KnownAddress)
      requires Valid() && b < |addrNewStats| && Matches(addrNewStats[b], f)
      ensures Filed(addrIndex, ka) && Wanted(f, ka.key.kind)
    {
      hide Inv, Snapshots, TriedKeys, NewShared, Matches, Total, Known, Keyed, TriedShared;
      Sizes(View(), triedBucketSize, {});
      NewTotals(View(), triedBucketSize, b, f);
      var n := IntN(Total(addrNewStats[b], f));
      var picked := NthNew(b, f, n);
      ka := picked.value;
    }

    /** Picks an address of a wanted type, or none if none is known. Every draw is from a
        non-empty range, every pick succeeds, and there are at most 27 rounds. */
    method GetAddress(f: Filter, recent: Entry -> bool) returns (r: Option<KnownAddress>, ghost rounds: nat)
      requires Valid()
      ensures r.Some? ==> Filed(addrIndex, r.value) && Wanted(f, r.value.key.kind)
      ensures r.Some? <==> Reachable(View(), f)
      ensures rounds <= 27
    {
      hide Inv, Snapshots, NewKeys, TriedKeys, NewShared, Matches, TriedShared, Keyed, Chance;
      rounds := 0;
      r := None;
      if nTried + nNew == 0 {
        NoneKnown(View(), triedBucketSize);
        return;
      }
      if !f.ipv4 && !f.ipv6 && !f.torV3 {
        return;
      }
      MatchingBuckets(View(), triedBucketSize, f);
      var triedIdxs := MatchingIndexes(addrTriedStats, f);
      var newIdxs := MatchingIndexes(addrNewStats, f);
      if |triedIdxs| == 0 && |newIdxs| == 0 {
        return;
      }
      var tried := |triedIdxs| > 0;
      if |triedIdxs| > 0 && |newIdxs| > 0 {
        var coin := IntN(2);
        tried := coin == 0;
      }
      r, rounds := DrawUntilChosen(f, recent, tried, if tried then triedIdxs else newIdxs);
    }

    /** Draws from the given tried or new buckets until an address is chosen. */
    method DrawUntilChosen(f: Filter, recent: Entry -> bool, tried: bool, idxs: seq<nat>)
      returns (r: Option<KnownAddress>, ghost rounds: nat)
      requires Valid() && |idxs| > 0
      requires tried ==>
                 forall j :: 0 <= j < |idxs| ==> idxs[j] < |addrTriedStats| && Matches(addrTriedStats[idxs[j]], f)
      requires !tried ==> forall j :: 0 <= j < |idxs| ==> idxs[j] < |addrNewStats| && Matches(addrNewStats[idxs[j]], f)
      ensures r.Some? && Filed(addrIndex, r.value) && Wanted(f, r.value.key.kind)
      ensures rounds <= 27
    {
      hide Inv, Snapshots, NewKeys, TriedKeys, NewShared, Matches, TriedShared, Keyed, Chance;
      rounds := 0;
      var factor := 1.0;
      while true
        invariant rounds <= 26 && factor == Power(1.2, rounds)
        decreases 26 - rounds
      {
        var pick := IntN(|idxs|);
        var ka: KnownAddress;
        if tried {
          ka := DrawTried(idxs[pick], f);
        } else {
          ka := DrawNew(idxs[pick], f);
        }
        var draw := IntN(LARGE);
        var chance := Chance(ka.lastAttempt, recent(ka.Snapshot()), ka.attempts);
        if draw as real < factor * chance * LARGE as real {
          return Some(ka), rounds + 1;
        }
        FailedDraw(draw, rounds, chance);
        factor := factor * 1.2;
        rounds := rounds + 1;
      }
    }

    // ----------------------------------------------------------------
    // Saving.

    method ListAddresses() returns (addresses: seq<Option<SavedAddress>>)
      requires Handles()
      ensures Lists(View().index, addresses)
    {
      hide NewKeys, TriedKeys, NewShared, TriedShared, Record;
      var todo := addrIndex.Keys;
      addresses := [];
      while todo != {}
        invariant todo <= addrIndex.Keys
        invariant ListsAllBut(View().index, addresses, todo)
      {
        var k :| k in todo;
        FiledAt(k);
        Recorded(addrIndex[k]);
        ListOneMore(View().index, addresses, todo, k);
        addresses := addresses + [Some(Record(k, addrIndex[k].Snapshot()))];
        todo := todo - {k};
      }
    }

    method ListKeys(bucket: map<Key, KnownAddress>) returns (list: seq<Key>)
      ensures ListsKeys(bucket.Keys, list)
    {
      var todo := bucket.Keys;
      list := [];
      while todo != {}
        invariant todo <= bucket.Keys && Distinct(list) && Members(list) == bucket.Keys - todo
      {
        var k :| k in todo;
        assert k !in Members(list);
        MembersAppend(list, k);
        list := list + [k];
        todo := todo - {k};
      }
    }

    method SavePeers() returns (file: Option<PeersFile>)
      requires Valid()
      modifies `addrChanged
      ensures file.None? <==> !old(addrChanged)
      ensures file.Some? ==> SavedAs(View(), secret, file.value) && AllSaved(View().index, file.value.addresses)
      ensures !addrChanged && View() == old(View())
    {
      hide Inv, Lists, ListsKeys, KeysOf, Snapshots, NewShared, TriedShared, Keyed, AllSaved;
      if !addrChanged {
        return None;
      }
      var addresses := ListAddresses();
      ListsSaved(View().index, addresses);
      var news: seq<seq<Key>> := [];
      for b := 0 to |addrNew|
        invariant |news| == b && forall c :: 0 <= c < b ==> ListsKeys(View().newBuckets[c], news[c])
      {
        var list := ListKeys(addrNew[b]);
        news := news + [list];
      }
      var trieds: seq<seq<Key>> := [];
      for b := 0 to |addrTried|
        invariant |trieds| == b && forall c :: 0 <= c < b ==> trieds[c] == View().triedBuckets[c]
      {
        var list := ListTried(b);
        trieds := trieds + [list];
      }
      assert trieds == View().triedBuckets;
      file := Some(PeersFile(SERIALIZATION_VERSION, secret, addresses, news, trieds));
      addrChanged := false;
    }

    method ListTried(b: nat) returns (list: seq<Key>)
      requires b < |addrTried|
      ensures list == TriedKeys(addrTried)[b]
    {
      list := [];
      for i := 0 to |addrTried[b]|
        invariant |list| == i && forall j :: 0 <= j < i ==> list[j] == addrTried[b][j].key
      {
        list := list + [addrTried[b][i].key];
      }
    }

    // ----------------------------------------------------------------
    // Loading.

    method LoadEntry(a: SavedAddress, na: NetAddress, src: NetAddress)
      requires Handles() && View() == Empty().(index := View().index)
      modifies `addrIndex, `known
      ensures Handles() && View() == Refiled(old(View()), na.key, Restart(na, src, a))
      ensures fresh(known - old(known)) && known >= old(known)
    {
      hide NewKeys, TriedKeys, Known, Keyed, NewShared, TriedShared, Snapshots, Restart;
      var ka := new KnownAddress.Load(na, src, a);
      assert View() == old(View());
      FiledOver(addrIndex, known, addrNew, addrTried, ka);
      known := known + {ka};
      addrIndex := addrIndex[na.key := ka];
    }

    method LoadEntries(addresses: seq<Option<SavedAddress>>, parse: Key -> Option<NetAddress>) returns (ok: bool)
      requires Handles() && View() == Empty()
      modifies `addrIndex, `known
      ensures Handles() && fresh(known - old(known)) && known >= old(known)
      ensures ok <==> LoadAddresses(Empty(), addresses, |addresses|, parse).Loaded?
      ensures View() == LoadAddresses(Empty(), addresses, |addresses|, parse).books
    {
      hide NewKeys, TriedKeys, Known, Keyed, NewShared, TriedShared, Snapshots, Restart, Empty;
      for i := 0 to |addresses|
        invariant Handles() && fresh(known - old(known)) && known >= old(known)
        invariant LoadAddresses(Empty(), addresses, i, parse) == Loaded(View())
      {
        ghost var next := i + 1;
        ghost var m := View();
        var a := addresses[i];
        if a.None? || parse(a.value.addr).None? || parse(a.value.src).None? {
          AddressesStop(Empty(), addresses, next, |addresses|, parse);
          return false;
        }
        LoadEntry(a.value, parse(a.value.addr).value, parse(a.value.src).value);
        assert LoadAddresses(Empty(), addresses, next, parse) == LoadAddress(m, a, parse);
      }
      ok := true;
    }

    method FileIntoNew(k: Key, b: nat) returns (ok: bool)
      requires Handles() && b < |addrNew| == |addrNewStats|
      modifies known`refs, `addrNew, `addrNewStats, `nNew
      ensures Handles()
      ensures ok <==> FileNew(old(View()), b, k).Loaded?
      ensures View() == FileNew(old(View()), b, k).books
    {
      hide NewKeys, TriedKeys, Known, Keyed, NewShared, TriedShared, Snapshots, Increment;
      ok := k in addrIndex;
      if ok {
        var ka := addrIndex[k];
        FiledAt(k);
        Recorded(ka);
        if ka.refs == 0 {
          nNew := nNew + 1;
        }
        PutIntoNew(ka, b);
      }
    }

    method LoadNewList(b: nat, list: seq<Key>) returns (ok: bool)
      requires Handles() && b < |addrNew| == |addrNewStats|
      modifies known`refs, `addrNew, `addrNewStats, `nNew
      ensures Handles()
      ensures ok <==> LoadNewBucket(old(View()), b, list, |list|).Loaded?
      ensures View() == LoadNewBucket(old(View()), b, list, |list|).books
    {
      hide NewKeys, TriedKeys, Known, Keyed, NewShared, TriedShared, Snapshots, FileNew;
      ghost var m := View();
      for i := 0 to |list|
        invariant Handles() && LoadNewBucket(m, b, list, i) == Loaded(View())
      {
        ghost var next := i + 1;
        ok := FileIntoNew(list[i], b);
        assert LoadNewBucket(m, b, list, next) == FileNew(LoadNewBucket(m, b, list, i).books, b, list[i]);
        if !ok {
          NewBucketStops(m, b, list, next, |list|);
          return;
        }
      }
      ok := true;
    }

    method LoadNewLists(lists: seq<seq<Key>>) returns (ok: bool)
      requires Handles() && |addrNew| == |addrNewStats| == NEW_BUCKET_COUNT
      modifies known`refs, `addrNew, `addrNewStats, `nNew
      ensures Handles()
      ensures ok <==> LoadNewBuckets(old(View()), lists, Least(|lists|, NEW_BUCKET_COUNT)).Loaded?
      ensures View() == LoadNewBuckets(old(View()), lists, Least(|lists|, NEW_BUCKET_COUNT)).books
    {
      hide NewKeys, TriedKeys, Known, Keyed, NewShared, TriedShared, Snapshots, LoadNewBucket;
      ghost var m := View();
      var end := Least(|lists|, NEW_BUCKET_COUNT);
      for i := 0 to end
        invariant Handles() && |addrNew| == |addrNewStats| == NEW_BUCKET_COUNT
        invariant LoadNewBuckets(m, lists, i) == Loaded(View())
      {
        ghost var next := i + 1;
        ok := LoadNewList(i, lists[i]);
        assert LoadNewBuckets(m, lists, next)
            == LoadNewBucket(LoadNewBuckets(m, lists, i).books, i, lists[i], |lists[i]|);
        if !ok {
          NewBucketsStop(m, lists, next, end);
          return;
        }
      }
      ok := true;
    }

    method FileIntoTried(k: Key, b: nat) returns (ok: bool)
      requires Handles() && b < |addrTried| == |addrTriedStats|
      modifies known`tried, `addrTried, `addrTriedStats, `nTried
      ensures Handles()
      ensures ok <==> FileTried(old(View()), b, k).Loaded?
      ensures View() == FileTried(old(View()), b, k).books
    {
      hide NewKeys, TriedKeys, Known, Keyed, NewShared, TriedShared, Snapshots, Increment;
      ok := k in addrIndex;
      if ok {
        FiledAt(k);
        PutIntoTried(addrIndex[k], b);
      }
    }

    method LoadTriedList(b: nat, list: seq<Key>) returns (ok: bool)
      requires Handles() && b < |addrTried| == |addrTriedStats|
      modifies known`tried, `addrTried, `addrTriedStats, `nTried
      ensures Handles()
      ensures ok <==> LoadTriedBucket(old(View()), b, list, |list|).Loaded?
      ensures View() == LoadTriedBucket(old(View()), b, list, |list|).books
    {
      hide NewKeys, TriedKeys, Known, Keyed, NewShared, TriedShared, Snapshots, FileTried;
      ghost var m := View();
      for i := 0 to |list|
        invariant Handles() && LoadTriedBucket(m, b, list, i) == Loaded(View())
      {
        ghost var next := i + 1;
        ok := FileIntoTried(list[i], b);
        assert LoadTriedBucket(m, b, list, next) == FileTried(LoadTriedBucket(m, b, list, i).books, b, list[i]);
        if !ok {
          TriedBucketStops(m, b, list, next, |list|);
          return;
        }
      }
      ok := true;
    }

    method LoadTriedLists(lists: seq<seq<Key>>) returns (ok: bool)
      requires Handles() && |addrTried| == |addrTriedStats| == TRIED_BUCKET_COUNT
      modifies known`tried, `addrTried, `addrTriedStats, `nTried
      ensures Handles()
      ensures ok <==> LoadTriedBuckets(old(View()), lists, Least(|lists|, TRIED_BUCKET_COUNT)).Loaded?
      ensures View() == LoadTriedBuckets(old(View()), lists, Least(|lists|, TRIED_BUCKET_COUNT)).books
    {
      hide NewKeys, TriedKeys, Known, Keyed, NewShared, TriedShared, Snapshots, LoadTriedBucket;
      ghost var m := View();
      var end := Least(|lists|, TRIED_BUCKET_COUNT);
      for i := 0 to end
        invariant Handles() && |addrTried| == |addrTriedStats| == TRIED_BUCKET_COUNT
        invariant LoadTriedBuckets(m, lists, i) == Loaded(View())
      {
        ghost var next := i + 1;
        ok := LoadTriedList(i, lists[i]);
        assert LoadTriedBuckets(m, lists, next)
            == LoadTriedBucket(LoadTriedBuckets(m, lists, i).books, i, lists[i], |lists[i]|);
        if !ok {
          TriedBucketsStop(m, lists, next, end);
          return;
        }
      }
      ok := true;
    }

    method CheckSanity() returns (ok: bool)
      requires Handles()
      ensures ok <==> AllSane(View())
    {
      hide NewKeys, TriedKeys, NewShared, TriedShared;
      var todo := addrIndex.Keys;
      while todo != {}
        invariant todo <= addrIndex.Keys
        invariant forall k :: k in addrIndex && k !in todo ==> Sane(View().index[k])
      {
        var k :| k in todo;
        FiledAt(k);
        Recorded(addrIndex[k]);
        if !Sane(addrIndex[k].Snapshot()) {
          return false;
        }
        todo := todo - {k};
      }
      ok := true;
    }

    method DeserializePeers(file: PeersFile, parse: Key -> Option<NetAddress>) returns (ok: bool)
      requires Handles() && View() == Empty()
      modifies this, known
      ensures Handles() && fresh(known - old(known)) && known >= old(known)
      ensures ok <==> LoadBooks(file, parse).Loaded?
      ensures View() == LoadBooks(file, parse).books
      ensures secret == if file.version == SERIALIZATION_VERSION then file.secret else old(secret)
    {
      hide NewKeys, TriedKeys, Known, Keyed, NewShared, TriedShared, Snapshots, LoadAddresses, LoadNewBuckets;
      hide LoadTriedBuckets, AllSane;
      if file.version != SERIALIZATION_VERSION {
        return false;
      }
      secret := file.secret;
      ok := LoadEntries(file.addresses, parse);
      if ok {
        ok := LoadNewLists(file.newBuckets);
      }
      if ok {
        ok := LoadTriedLists(file.triedBuckets);
      }
      if ok {
        ok := CheckSanity();
      }
    }

    /** Empties the manager, leaving its counters. */
    method Reset(secret: Secret)
      modifies this
      ensures Handles() && View() == Empty().(nNew := old(nNew), nTried := old(nTried))
      ensures this.secret == secret && addrChanged && known == old(known)
    {
      addrIndex := map[];
      this.secret := secret;
      addrNew := seq(NEW_BUCKET_COUNT, i => map[]);
      addrTried := seq(TRIED_BUCKET_COUNT, i => []);
      addrNewStats := seq(NEW_BUCKET_COUNT, i => Stats(0, 0, 0));
      addrTriedStats := seq(TRIED_BUCKET_COUNT, i => Stats(0, 0, 0));
      addrChanged := true;
      assert View().index == Empty().index;
      assert forall b :: 0 <= b < NEW_BUCKET_COUNT ==> View().newBuckets[b] == Empty().newBuckets[b];
      assert forall b :: 0 <= b < TRIED_BUCKET_COUNT ==> View().triedBuckets[b] == Empty().triedBuckets[b];
    }

    /** Loads a peers file into a fresh manager. A file the manager itself saved restores its
        books; a load that fails leaves the manager well-formed exactly when the file is one of
        which nothing is counted. */
    method LoadPeers(file: PeersFile, parse: Key -> Option<NetAddress>, fallback: Secret) returns (ok: bool)
      requires Valid() && View() == Empty()
      modifies this, known
      ensures ok <==> LoadBooks(file, parse).Loaded?
      ensures ok ==> Handles() && View() == LoadBooks(file, parse).books && secret == file.secret
      ensures forall m, s :: Inv(m, triedBucketSize, {}) && SavedAs(m, s, file) && Parses(m.index, parse) ==>
                ok && Valid() && secret == s && View() == Restored(m, parse) && AllReadBack(m, View(), parse)
      ensures !ok ==> var counted := LoadBooks(file, parse).books;
                      Handles() && View() == Empty().(nNew := counted.nNew, nTried := counted.nTried)
      ensures !ok ==> (Valid() <==> Uncounted(file, parse))
    {
      hide NewKeys, TriedKeys, Known, Keyed, NewShared, TriedShared, Snapshots, LoadBooks, Inv, SavedAs, Parses, Empty;
      hide Uncounted, AllReadBack;
      CountsNothing(file, parse);
      assert triedBucketSize < U16 by { SizeFits(View(), triedBucketSize); }
      ok := DeserializePeers(file, parse);
      forall m, s | Inv(m, triedBucketSize, {}) && SavedAs(m, s, file) && Parses(m.index, parse)
        ensures LoadBooks(file, parse) == Loaded(Restored(m, parse)) && file.secret == s
        ensures Inv(Restored(m, parse), triedBucketSize, {}) && AllReadBack(m, Restored(m, parse), parse)
        ensures file.version == SERIALIZATION_VERSION
      {
        SaveThenLoad(m, triedBucketSize, s, file, parse);
        assert file.version == SERIALIZATION_VERSION by { SavedVersion(m, s, file); }
      }
      assert ok ==> file.version == SERIALIZATION_VERSION by { LoadedVersion(file, parse); }
      if !ok {
        Reset(fallback);
        FailedLoadInv(nNew, nTried, triedBucketSize);
      }
    }
  }
}
