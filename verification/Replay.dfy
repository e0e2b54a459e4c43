/** Replaying the undo log: which undo actions are still pending for each file,
    and what undoing them in reverse leaves on disk. */
module Replay {
  import opened LogFormat

  type Files = map<Path, Content>

  // ------------------------------------------------------------------
  // The file calls the replay makes.

  function Zeroes(n: nat): (z: Content)
    ensures |z| == n
  {
    seq(n, i => 0)
  }

  /** The content after writing all of `data` at an offset; a gap past the end
      reads as zeros. */
  function PWrite(f: Content, off: nat, data: Content): Content
  {
    if data == [] then f
    else
      var g := if |f| < off then f + Zeroes(off - |f|) else f;
      var end := off + |data|;
      g[..off] + data + (if end < |g| then g[end..] else [])
  }

  function FTruncate(f: Content, len: nat): Content
  {
    if len <= |f| then f[..len] else f + Zeroes(len - |f|)
  }

  lemma PWriteShape(f: Content, off: nat, data: Content)
    ensures var w := PWrite(f, off, data);
            && |w| == (if data == [] || off + |data| < |f| then |f| else off + |data|)
            && forall i :: 0 <= i < |w| ==>
                 w[i] == if off <= i < off + |data| then data[i - off] else if i < |f| then f[i] else 0
  {}

  // ------------------------------------------------------------------
  // The bookkeeping of pending actions.

  datatype Action = Action(off: nat, prev: nat, data: Content)

  datatype Book = Book(pending: map<Path, seq<Action>>, created: set<Path>)

  function PendingFor(b: Book, p: Path): seq<Action>
  {
    if p in b.pending then b.pending[p] else []
  }

  /** One record: a sync drops everything pending for its file, a create marks
      the file, a write or truncate adds an action. */
  function Note(b: Book, r: Record): Book
  {
    if r.kind == SYNC then Book(b.pending - {r.path}, b.created - {r.path})
    else if r.kind == CREATE then Book(b.pending[r.path := PendingFor(b, r.path)], b.created + {r.path})
    else if r.kind == WRITE || r.kind == TRUNCATE then
      b.(pending := b.pending[r.path := PendingFor(b, r.path) + [Action(r.off, r.prevLen, r.data)]])
    else b
  }

  function NoteAll(b: Book, rs: seq<Record>): Book
  {
    if rs == [] then b else Note(NoteAll(b, rs[..|rs| - 1]), rs[|rs| - 1])
  }

  const NOTHING: Book := Book(map[], {})

  lemma {:induction false} NoteAllConcat(b: Book, rs: seq<Record>, ts: seq<Record>)
    ensures NoteAll(b, rs + ts) == NoteAll(NoteAll(b, rs), ts)
  {
    if ts == [] {
      assert rs + ts == rs;
    } else {
      var n := |ts| - 1;
      assert (rs + ts)[..|rs| + n] == rs + ts[..n];
      NoteAllConcat(b, rs, ts[..n]);
    }
  }

  method NoteRecords(rs: seq<Record>) returns (b: Book)
    ensures b == NoteAll(NOTHING, rs)
  {
    hide Note;
    var pending: map<Path, seq<Action>> := map[];
    var created: set<Path> := {};
    assert rs[..|rs|] == rs;
    for i := 0 to |rs|
      invariant Book(pending, created) == NoteAll(NOTHING, rs[..i])
    {
      var r := rs[i];
      assert rs[..i + 1][..i] == rs[..i];
      NoteCases(Book(pending, created), r);
      if r.kind == SYNC {
        pending := pending - {r.path};
        created := created - {r.path};
      } else if r.kind == CREATE {
        created := created + {r.path};
        if r.path !in pending {
          pending := pending[r.path := []];
        }
      } else if r.kind == WRITE || r.kind == TRUNCATE {
        if r.path !in pending {
          pending := pending[r.path := []];
        }
        pending := pending[r.path := pending[r.path] + [Action(r.off, r.prevLen, r.data)]];
      }
    }
    b := Book(pending, created);
  }

  lemma NoteCases(b: Book, r: Record)
    ensures r.kind == SYNC ==> Note(b, r) == Book(b.pending - {r.path}, b.created - {r.path})
    ensures r.kind == CREATE ==>
              Note(b, r)
              == Book(if r.path in b.pending then b.pending else b.pending[r.path := []], b.created + {r.path})
    ensures r.kind == WRITE || r.kind == TRUNCATE ==>
              Note(b, r)
              == Book(b.pending[r.path := PendingFor(b, r.path) + [Action(r.off, r.prevLen, r.data)]], b.created)
    ensures r.kind != SYNC && r.kind != CREATE && r.kind != WRITE && r.kind != TRUNCATE ==> Note(b, r) == b
  {
    if r.path in b.pending {
      assert b.pending[r.path := b.pending[r.path]] == b.pending;
    }
  }

  // ------------------------------------------------------------------
  // Undoing.

  /** The bytes of the data that lie before the prior length. */
  function Kept(a: Action): (n: nat)
    ensures n <= |a.data|
  {
    if a.prev <= a.off then 0 else if |a.data| <= a.prev - a.off then |a.data| else a.prev - a.off
  }

  /** One action undone: its bytes put back, then the length. */
  function Undo(a: Action, f: Content): Content
  {
    FTruncate(PWrite(f, a.off, a.data[..Kept(a)]), a.prev)
  }

  /** Actions undone last first. */
  function UndoAll(f: Content, acts: seq<Action>): Content
    decreases |acts|
  {
    if acts == [] then f else UndoAll(Undo(acts[|acts| - 1], f), acts[..|acts| - 1])
  }

  lemma {:induction false} UndoAllConcat(f: Content, a: seq<Action>, b: seq<Action>)
    ensures UndoAll(f, a + b) == UndoAll(UndoAll(f, b), a)
    decreases |b|
  {
    hide Undo;
    if b == [] {
      assert a + b == a;
    } else {
      var n := |b| - 1;
      assert (a + b)[..|a| + n] == a + b[..n];
      UndoAllConcat(Undo(b[n], f), a, b[..n]);
    }
  }

  method UndoFile(f: Content, acts: seq<Action>) returns (g: Content)
    ensures g == UndoAll(f, acts)
  {
    g := f;
    assert acts[..|acts|] == acts;
    for i := |acts| downto 0
      invariant UndoAll(g, acts[..i]) == UndoAll(f, acts)
    {
      var Action(off, prev, data) := acts[i];
      ghost var before := g;
      if data != [] {
        var keep := if prev <= off then 0 else if |data| <= prev - off then |data| else prev - off;
        if keep > 0 {
          g := PWrite(g, off, data[..keep]);
        }
      }
      g := FTruncate(g, prev);
      assert g == Undo(acts[i], before);
      assert acts[..i + 1][..i] == acts[..i];
    }
  }

  /** What the replay leaves: files created and never synced are removed, the
      others have their pending actions undone. */
  function Rewound(files: Files, b: Book): Files
  {
    map p | p in files && !(p in b.pending && p in b.created) ::
      if p in b.pending then UndoAll(files[p], b.pending[p]) else files[p]
  }

  lemma RewindStep(files: Files, b: Book, left: set<Path>, p: Path, now: Files, next: Files)
    requires p in left && left <= b.pending.Keys
    requires now == Rewound(files, b.(pending := b.pending - left))
    requires p in b.created ==> next == now - {p}
    requires p !in b.created && p !in now ==> next == now
    requires p !in b.created && p in now ==> next == now[p := UndoAll(now[p], b.pending[p])]
    ensures next == Rewound(files, b.(pending := b.pending - (left - {p})))
  {
    hide UndoAll;
  }

  /** `main`: read the log, keep the books, and rewind every file that has
      something pending, in whatever order the dictionary gives them. */
  method ReplayLog(blob: seq<byte>, files: Files) returns (disk: Files)
    ensures disk == Rewound(files, NoteAll(NOTHING, Parse(blob)))
  {
    hide UndoAll;
    var rs := Records(blob);
    var b := NoteRecords(rs);
    disk := files;
    var left := b.pending.Keys;
    assert b.pending - left == map[];
    assert Rewound(files, b.(pending := map[])) == files;
    while left != {}
      invariant left <= b.pending.Keys
      invariant disk == Rewound(files, b.(pending := b.pending - left))
      decreases left
    {
      var p :| p in left;
      ghost var now := disk;
      if p in b.created {
        disk := disk - {p};
      } else if p in disk {
        var g := UndoFile(disk[p], b.pending[p]);
        disk := disk[p := g];
      }
      RewindStep(files, b, left, p, now, disk);
      left := left - {p};
    }
    assert b.pending - {} == b.pending;
  }
}
