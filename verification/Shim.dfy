/** The power-loss shim, and the runs of a program under it. */
module Shim {
  import opened LogFormat
  import opened Replay
  import opened Options

  // Every call that changes a tracked file first logs what the change destroys. The run of a
  // program is a sequence of calls; whatever the kill leaves in the log, replaying it rewinds
  // each file to its last sync.

  /** File offsets and lengths are off_t: below 2^63. */
  const OFF_MAX: int := 0x8000_0000_0000_0000

  const MAXFD: nat := 4096

  /** A tracked descriptor: its path, file offset, O_APPEND flag, and whether
      its access mode lets it be read. */
  datatype Descriptor = Descriptor(path: Path, pos: nat, append: bool, readable: bool)

  /** The files and descriptors, the log, and the block size of the file system. */
  datatype State = State(files: Files, fds: map<nat, Descriptor>, records: seq<Record>, block: nat)

  /** fallocate's mode bits. */
  datatype Mode = Mode(keepSize: bool, punchHole: bool, collapse: bool, zeroRange: bool, insert: bool, unshare: bool)

  /** The calls, with the kernel's answer: how many bytes a write took (None
      for a failed one), or whether the call succeeded. */
  datatype Call =
    | Open(fd: nat, path: Path, creat: bool, append: bool, readable: bool)
    | Seek(fd: nat, pos: nat)
    | Write(fd: nat, buf: Content, took: Option<nat>)
    | PWriteAt(fd: nat, buf: Content, off: int, took: Option<nat>)
    | Truncate(fd: nat, len: int, ok: bool)
    | Allocate(fd: nat, mode: Mode, off: int, len: int, ok: bool)
    | Sync(fd: nat, ok: bool)
    | Close(fd: nat)

  // ------------------------------------------------------------------
  // What a call destroys, saved in chunks.

  /** The C cast from a signed 64-bit offset. */
  function Unsigned(off: int): nat
    requires -OFF_MAX <= off < OFF_MAX
  {
    if off < 0 then off + U64 else off
  }

  function ChunkSize(path: Path): (n: nat)
    requires |path| < 4096
    ensures n > 0
  {
    REC_MAX - REC_HDR - |path|
  }

  function Min(a: nat, b: nat): nat
  {
    if a < b then a else b
  }

  /** The end of the part of [off, off + len) that exists; None for a length
      means up to the end of the file (UINT64_MAX). */
  function RangeEnd(f: Content, off: nat, len: Option<nat>): (end: nat)
    ensures off <= end && (off <= |f| ==> end <= |f|)
    ensures off >= |f| ==> end == off
  {
    if off >= |f| then off
    else match len
         case None => |f|
         case Some(n) => if |f| - off < n then |f| else off + n
  }

  /** The bytes a record keeps: those the read before the change gave. */
  function KeptBytes(f: Content, readable: bool, pos: nat, keep: nat): Content
    requires pos + keep <= |f|
  {
    if readable then f[pos..pos + keep] else []
  }

  function Chunks(kind: byte, path: Path, f: Content, readable: bool, pos: nat, end: nat): (rs: seq<Record>)
    requires |path| < 4096 && end <= |f|
    decreases end - pos
  {
    if pos >= end then []
    else
      var keep := Min(end - pos, ChunkSize(path));
      [Record(kind, path, pos, |f|, KeptBytes(f, readable, pos, keep))]
      + Chunks(kind, path, f, readable, pos + ChunkSize(path), end)
  }

  /** `save_range`: the records for a range, or the length alone when nothing
      in the range exists. A descriptor that cannot be read saves the length
      alone, once for each chunk. */
  function Saved(kind: byte, path: Path, f: Content, readable: bool, off: nat, len: Option<nat>): (rs: seq<Record>)
    requires |path| < 4096
  {
    var end := RangeEnd(f, off, len);
    if end == off then [Record(kind, path, off, |f|, [])] else Chunks(kind, path, f, readable, off, end)
  }

  lemma {:induction false} ChunksFit(kind: byte, path: Path, f: Content, readable: bool, pos: nat, end: nat)
    requires |path| < 4096 && end <= |f| < OFF_MAX
    ensures forall i :: 0 <= i < |Chunks(kind, path, f, readable, pos, end)| ==>
              var r := Chunks(kind, path, f, readable, pos, end)[i]; Fits(r) && r.path == path && r.kind == kind
    decreases end - pos
  {
    if pos < end {
      ChunksFit(kind, path, f, readable, pos + ChunkSize(path), end);
    }
  }

  lemma SavedFit(kind: byte, path: Path, f: Content, readable: bool, off: nat, len: Option<nat>)
    requires |path| < 4096 && |f| < OFF_MAX && off < U64
    ensures forall i :: 0 <= i < |Saved(kind, path, f, readable, off, len)| ==>
              var r := Saved(kind, path, f, readable, off, len)[i]; Fits(r) && r.path == path && r.kind == kind
  {
    var end := RangeEnd(f, off, len);
    if end != off {
      ChunksFit(kind, path, f, readable, off, end);
    }
  }

  // ------------------------------------------------------------------
  // Undoing a saved range gives the file back.

  function ActionOf(r: Record): Action
  {
    Action(r.off, r.prevLen, r.data)
  }

  function ActionsOf(rs: seq<Record>): (acts: seq<Action>)
    ensures |acts| == |rs|
    ensures forall i :: 0 <= i < |rs| ==> acts[i] == ActionOf(rs[i])
  {
    seq(|rs|, i requires 0 <= i < |rs| => ActionOf(rs[i]))
  }

  /** g still holds f's bytes everywhere outside [lo, hi). */
  ghost predicate Agree(f: Content, g: Content, lo: nat, hi: nat)
  {
    forall i :: 0 <= i < |f| && !(lo <= i < hi) ==> i < |g| && g[i] == f[i]
  }

  /** Undoing one chunk makes the file agree on that chunk too, and gives it
      its length back. */
  lemma UndoChunk(f: Content, g: Content, lo: nat, pos: nat, hi: nat)
    requires lo <= pos <= hi <= |f| && Agree(f, g, lo, hi)
    ensures var h := Undo(Action(pos, |f|, f[pos..hi]), g);
            |h| == |f| && Agree(f, h, lo, pos)
  {
    var a := Action(pos, |f|, f[pos..hi]);
    assert a.data[..Kept(a)] == a.data;
    var w := PWrite(g, pos, a.data);
    PWriteShape(g, pos, a.data);
    forall i | 0 <= i < |f| && !(lo <= i < pos)
      ensures i < |w| && w[i] == f[i]
    {
      var wanted := f[i];
      if pos <= i < hi {
        assert a.data[i - pos] == wanted;
      } else {
        assert i < |g| && g[i] == wanted;
      }
    }
  }

  lemma UndoLength(f: Content, g: Content, off: nat)
    requires Agree(f, g, off, off)
    ensures Undo(Action(off, |f|, []), g) == f
  {}

  lemma {:induction false} UndoChunks(kind: byte, path: Path, f: Content, g: Content, lo: nat, pos: nat, end: nat)
    requires |path| < 4096 && lo <= pos < end <= |f| && Agree(f, g, lo, end)
    ensures var h := UndoAll(g, ActionsOf(Chunks(kind, path, f, true, pos, end)));
            |h| == |f| && Agree(f, h, lo, pos)
    decreases end - pos
  {
    hide Undo, UndoAll, Agree;
    var next := pos + ChunkSize(path);
    var keep := Min(end - pos, ChunkSize(path));
    var rest := Chunks(kind, path, f, true, next, end);
    var first := Record(kind, path, pos, |f|, f[pos..pos + keep]);
    assert ActionsOf([first] + rest) == [ActionOf(first)] + ActionsOf(rest);
    UndoAllConcat(g, [ActionOf(first)], ActionsOf(rest));
    var h := UndoAll(g, ActionsOf(rest));
    if next < end {
      UndoChunks(kind, path, f, g, lo, next, end);
    } else {
      UndoNone(g);
    }
    UndoChunk(f, h, lo, pos, pos + keep);
    UndoOne(h, ActionOf(first));
  }

  lemma UndoNone(f: Content)
    ensures UndoAll(f, []) == f
  {}

  lemma UndoOne(f: Content, a: Action)
    ensures UndoAll(f, [a]) == Undo(a, f)
  {
    assert [a][..0] == [];
  }

  /** A change confined to the saved range is undone whole, when the range
      could be read. */
  lemma UndoSaved(kind: byte, path: Path, f: Content, g: Content, off: nat, len: Option<nat>)
    requires |path| < 4096 && Agree(f, g, off, RangeEnd(f, off, len))
    ensures UndoAll(g, ActionsOf(Saved(kind, path, f, true, off, len))) == f
  {
    var end := RangeEnd(f, off, len);
    if end == off {
      var r := Record(kind, path, off, |f|, []);
      assert ActionsOf([r]) == [ActionOf(r)];
      UndoOne(g, ActionOf(r));
      UndoLength(f, g, off);
    } else {
      UndoChunks(kind, path, f, g, off, off, end);
    }
  }

  lemma UndoBareLength(g: Content, off: nat, n: nat)
    ensures Undo(Action(off, n, []), g) == FTruncate(g, n)
  {}

  lemma {:induction false} UndoUnreadChunks(kind: byte, path: Path, f: Content, g: Content, pos: nat, end: nat)
    requires |path| < 4096 && pos < end <= |f|
    ensures UndoAll(g, ActionsOf(Chunks(kind, path, f, false, pos, end))) == FTruncate(g, |f|)
    decreases end - pos
  {
    hide Undo, UndoAll;
    var next := pos + ChunkSize(path);
    var rest := Chunks(kind, path, f, false, next, end);
    var first := Record(kind, path, pos, |f|, []);
    assert ActionsOf([first] + rest) == [ActionOf(first)] + ActionsOf(rest);
    UndoAllConcat(g, [ActionOf(first)], ActionsOf(rest));
    if next < end {
      UndoUnreadChunks(kind, path, f, g, next, end);
    } else {
      UndoNone(g);
    }
    var h := UndoAll(g, ActionsOf(rest));
    UndoOne(h, ActionOf(first));
    UndoBareLength(h, pos, |f|);
  }

  /** Undoing a range that could not be read gives back the length alone: what
      was cut off comes back as zeros. */
  lemma UndoUnread(kind: byte, path: Path, f: Content, g: Content, off: nat, len: Option<nat>)
    requires |path| < 4096
    ensures UndoAll(g, ActionsOf(Saved(kind, path, f, false, off, len))) == FTruncate(g, |f|)
  {
    hide UndoAll, Undo;
    var end := RangeEnd(f, off, len);
    if end == off {
      var r := Record(kind, path, off, |f|, []);
      assert ActionsOf([r]) == [ActionOf(r)];
      UndoOne(g, ActionOf(r));
      UndoBareLength(g, off, |f|);
    } else {
      UndoUnreadChunks(kind, path, f, g, off, end);
    }
  }

  /** A saved record undone on the unchanged file leaves it unchanged. */
  ghost predicate Harmless(f: Content, a: Action)
  {
    a.prev == |f| && (a.data != [] ==> a.off + |a.data| <= |f| && a.data == f[a.off..a.off + |a.data|])
  }

  lemma HarmlessUndo(f: Content, a: Action)
    requires Harmless(f, a)
    ensures Undo(a, f) == f
  {
    if a.data == [] {
      UndoLength(f, f, a.off);
    } else {
      UndoChunk(f, f, a.off, a.off, a.off + |a.data|);
    }
  }

  lemma {:induction false} HarmlessUndoAll(f: Content, acts: seq<Action>)
    requires forall i :: 0 <= i < |acts| ==> Harmless(f, acts[i])
    ensures UndoAll(f, acts) == f
    decreases |acts|
  {
    hide Undo, Harmless;
    if acts != [] {
      var n := |acts| - 1;
      HarmlessUndo(f, acts[n]);
      HarmlessUndoAll(f, acts[..n]);
    }
  }

  lemma {:induction false} ChunksHarmless(kind: byte, path: Path, f: Content, readable: bool, pos: nat, end: nat)
    requires |path| < 4096 && end <= |f|
    ensures forall i :: 0 <= i < |Chunks(kind, path, f, readable, pos, end)| ==>
              Harmless(f, ActionOf(Chunks(kind, path, f, readable, pos, end)[i]))
    decreases end - pos
  {
    if pos < end {
      ChunksHarmless(kind, path, f, readable, pos + ChunkSize(path), end);
    }
  }

  lemma SavedHarmless(kind: byte, path: Path, f: Content, readable: bool, off: nat, len: Option<nat>)
    requires |path| < 4096
    ensures forall i :: 0 <= i < |Saved(kind, path, f, readable, off, len)| ==>
              Harmless(f, ActionOf(Saved(kind, path, f, readable, off, len)[i]))
  {
    var end := RangeEnd(f, off, len);
    if end != off {
      ChunksHarmless(kind, path, f, readable, off, end);
    }
  }

  // ------------------------------------------------------------------
  // The calls.

  /** What fallocate does to a file's content when it succeeds. */
  function Allocated(f: Content, mode: Mode, off: nat, len: nat): Content
  {
    if mode.collapse then
      if off + len <= |f| then f[..off] + f[off + len..] else f
    else if mode.insert then
      if off <= |f| then f[..off] + Zeroes(len) + f[off..] else f
    else
      var g := if !mode.keepSize && |f| < off + len then FTruncate(f, off + len) else f;
      if (mode.punchHole || mode.zeroRange) && off < |g| then
        PWrite(g, off, Zeroes(Min(len, |g| - off)))
      else g
  }

  /** At most one operation besides KEEP_SIZE, a hole only with it, and a
      shift with nothing else. */
  predicate OneOperation(mode: Mode)
  {
    && (mode.collapse ==> mode == Mode(false, false, true, false, false, false))
    && (mode.insert ==> mode == Mode(false, false, false, false, true, false))
    && (mode.punchHole ==> mode.keepSize && !mode.zeroRange && !mode.unshare)
    && (mode.zeroRange ==> !mode.unshare)
  }

  /** The modes and ranges the fallocate(2) manual page lets succeed: a
      collapse ends before the end of the file, an insert starts before it, and
      both work on whole blocks. */
  predicate Accepts(f: Content, block: nat, mode: Mode, off: int, len: int)
  {
    && (mode.collapse || mode.insert ==> block > 0 && off % block == 0 && len % block == 0)
    && 0 <= off && 0 < len && off + len < OFF_MAX && OneOperation(mode)
    && (mode.collapse ==> off + len < |f|)
    && (mode.insert ==> off < |f| && |f| + len < OFF_MAX)
  }

  ghost predicate Tracked(s: State, fd: nat)
  {
    fd in s.fds && s.fds[fd].path in s.files && |s.fds[fd].path| < 4096
  }

  /** A state the run can be in: descriptors point at files, lengths are
      lengths a file can have, and every logged record is well formed. */
  ghost predicate Valid(s: State)
  {
    && (forall fd :: fd in s.fds ==> Tracked(s, fd))
    && (forall p :: p in s.files ==> |s.files[p]| < OFF_MAX)
    && (forall i :: 0 <= i < |s.records| ==> Fits(s.records[i]))
    && (forall fd :: fd in s.fds ==> s.fds[fd].pos < OFF_MAX)
  }

  /** Calls the program can make and answers the kernel can give. */
  ghost predicate Legal(s: State, c: Call)
  {
    match c
    case Open(fd, path, _, _, _) => fd < MAXFD && |path| < 4096
    case Seek(_, pos) => pos < OFF_MAX
    case Write(fd, buf, took) =>
      took.Some? && fd in s.fds && Tracked(s, fd) ==>
        took.value <= |buf| && WriteStart(s, fd) + took.value < OFF_MAX
    case PWriteAt(fd, buf, off, took) =>
      && -OFF_MAX <= off < OFF_MAX
      && (took.Some? && fd in s.fds && Tracked(s, fd) ==>
            took.value <= |buf| && 0 <= off && PWriteStart(s, fd, off) + took.value < OFF_MAX)
    case Truncate(_, len, ok) => -OFF_MAX <= len < OFF_MAX && (ok ==> 0 <= len)
    case Allocate(fd, mode, off, len, ok) =>
      && -OFF_MAX <= off < OFF_MAX && -OFF_MAX <= len < OFF_MAX
      && (ok && fd in s.fds && Tracked(s, fd) ==> Accepts(s.files[s.fds[fd].path], s.block, mode, off, len))
    case Sync(_, _) => true
    case Close(_) => true
  }

  ghost function WriteStart(s: State, fd: nat): nat
    requires fd in s.fds && Tracked(s, fd)
  {
    var d := s.fds[fd];
    if d.append then |s.files[d.path]| else d.pos
  }

  /** Where a positional write lands: on Linux an append descriptor appends
      whatever the offset. */
  ghost function PWriteStart(s: State, fd: nat, off: nat): nat
    requires fd in s.fds && Tracked(s, fd)
  {
    var d := s.fds[fd];
    if d.append then |s.files[d.path]| else off
  }

  /** Calls that change a file's content, made through a tracked descriptor. */
  ghost predicate Changes(s: State, c: Call)
  {
    (c.Write? || c.PWriteAt? || c.Truncate? || c.Allocate?) && c.fd in s.fds
  }

  /** The arguments of `save_range`: the record type, the offset, and the
      length, None for UINT64_MAX. */
  datatype Range = Range(kind: byte, off: nat, len: Option<nat>)

  function AllocateRange(mode: Mode, off: nat, len: nat): Range
  {
    if mode.collapse || mode.insert then Range(WRITE, off, None)
    else if mode.punchHole || mode.zeroRange || mode.unshare then Range(WRITE, off, Some(len))
    else Range(WRITE, off, Some(0))
  }

  /** The range a call saves before it changes anything. */
  ghost function SavedRange(s: State, c: Call): (r: Range)
    requires Legal(s, c) && Changes(s, c)
    ensures r.kind == WRITE || r.kind == TRUNCATE
  {
    match c
    case Write(fd, buf, _) => Range(WRITE, s.fds[fd].pos, Some(|buf|))
    case PWriteAt(_, buf, off, _) => Range(WRITE, Unsigned(off), Some(|buf|))
    case Truncate(_, len, _) => Range(TRUNCATE, Unsigned(len), None)
    case Allocate(_, mode, off, len, _) => AllocateRange(mode, Unsigned(off), Unsigned(len))
  }

  /** The undo records of a call. */
  ghost function Before(s: State, c: Call): seq<Record>
    requires Valid(s) && Legal(s, c)
  {
    if !Changes(s, c) then []
    else
      var path := s.fds[c.fd].path;
      var r := SavedRange(s, c);
      Saved(r.kind, path, s.files[path], s.fds[c.fd].readable, r.off, r.len)
  }

  /** The content the kernel leaves in the call's file. */
  ghost function NewContent(s: State, c: Call): Content
    requires Valid(s) && Legal(s, c) && Changes(s, c)
  {
    var f := s.files[s.fds[c.fd].path];
    match c
    case Write(fd, buf, took) => if took.Some? then PWrite(f, WriteStart(s, fd), buf[..took.value]) else f
    case PWriteAt(fd, buf, off, took) => if took.Some? then PWrite(f, PWriteStart(s, fd, off), buf[..took.value]) else f
    case Truncate(_, len, ok) => if ok then FTruncate(f, len) else f
    case Allocate(_, mode, off, len, ok) => if ok then Allocated(f, mode, off, len) else f
  }

  lemma WriteConfined(f: Content, start: nat, data: Content, off: nat, n: nat)
    requires |data| <= n && (start == off || start == |f|)
    ensures Agree(f, PWrite(f, start, data), off, RangeEnd(f, off, Some(n)))
  {
    PWriteShape(f, start, data);
    var w := PWrite(f, start, data);
    forall i | 0 <= i < |f| && !(off <= i < RangeEnd(f, off, Some(n)))
      ensures i < |w| && w[i] == f[i]
    {
      assert start == off ==> !(off <= i < off + |data|);
    }
  }

  lemma AllocateConfined(f: Content, mode: Mode, off: nat, len: nat)
    ensures var r := AllocateRange(mode, off, len);
            Agree(f, Allocated(f, mode, off, len), off, RangeEnd(f, off, r.len))
  {
    if !mode.collapse && !mode.insert {
      var g := if !mode.keepSize && |f| < off + len then FTruncate(f, off + len) else f;
      assert Agree(f, g, off, off);
      if (mode.punchHole || mode.zeroRange) && off < |g| {
        PWriteShape(g, off, Zeroes(Min(len, |g| - off)));
      }
    }
  }

  /** Nothing outside the saved range changes. */
  lemma CallConfined(s: State, c: Call)
    requires Valid(s) && Legal(s, c) && Changes(s, c)
    ensures var f, r := s.files[s.fds[c.fd].path], SavedRange(s, c);
            Agree(f, NewContent(s, c), r.off, RangeEnd(f, r.off, r.len))
  {
    hide PWrite, Allocated, RangeEnd;
    assert Tracked(s, c.fd);
    var f := s.files[s.fds[c.fd].path];
    var r := SavedRange(s, c);
    match c {
      case Write(fd, buf, took) =>
        if took.Some? {
          WriteConfined(f, WriteStart(s, fd), buf[..took.value], r.off, |buf|);
        }
      case PWriteAt(fd, buf, off, took) =>
        if took.Some? {
          WriteConfined(f, PWriteStart(s, fd, off), buf[..took.value], off, |buf|);
        }
      case Truncate(_, len, ok) =>
        if ok {
          TruncateConfined(f, len);
        }
      case Allocate(_, mode, off, len, ok) =>
        if ok {
          AllocateConfined(f, mode, off, len);
        }
    }
  }

  /** Whether a call's own records undo it. */
  ghost predicate Undone(s: State, c: Call)
    requires Valid(s) && Legal(s, c) && Changes(s, c)
  {
    UndoAll(NewContent(s, c), ActionsOf(Before(s, c))) == s.files[s.fds[c.fd].path]
  }

  /** The call, for some buffer and some answer, leaves byte i of its file other
      than it was, once the length is back: a write that does not append, a
      shrink that cuts off a byte that is not zero, or an allocation the kernel
      accepts that shifts another byte there, or punches or zeroes it. */
  ghost predicate CanChange(s: State, c: Call, i: nat)
    requires Valid(s) && Legal(s, c) && Changes(s, c) && i < |s.files[s.fds[c.fd].path]|
  {
    var f := s.files[s.fds[c.fd].path];
    match c
    case Write(fd, buf, _) => !s.fds[fd].append && s.fds[fd].pos <= i < s.fds[fd].pos + |buf|
    case PWriteAt(fd, buf, off, _) => !s.fds[fd].append && 0 <= off <= i < off + |buf|
    case Truncate(_, len, _) => 0 <= len <= i && f[i] != 0
    case Allocate(_, mode, off, len, _) =>
      Accepts(f, s.block, mode, off, len) && f[i] != AllocatedByte(f, mode, off, len, i)
  }

  /** Byte i of the file when the allocation is done and the length is back. */
  function AllocatedByte(f: Content, mode: Mode, off: nat, len: nat, i: nat): byte
    requires i < |f|
  {
    if i < off then f[i]
    else if mode.collapse then if i + len < |f| then f[i + len] else 0
    else if mode.insert then if i < off + len then 0 else f[i - len]
    else if (mode.punchHole || mode.zeroRange) && i < off + len then 0
    else f[i]
  }

  lemma AllocatedAt(f: Content, block: nat, mode: Mode, off: nat, len: nat, i: nat)
    requires Accepts(f, block, mode, off, len) && i < |f|
    ensures FTruncate(Allocated(f, mode, off, len), |f|)[i] == AllocatedByte(f, mode, off, len, i)
  {
    if !mode.collapse && !mode.insert {
      var g := if !mode.keepSize && |f| < off + len then FTruncate(f, off + len) else f;
      if (mode.punchHole || mode.zeroRange) && off < |g| {
        PWriteShape(g, off, Zeroes(Min(len, |g| - off)));
      }
    }
  }

  lemma TruncatedAt(f: Content, len: nat, i: nat)
    requires i < |f|
    ensures FTruncate(FTruncate(f, len), |f|)[i] == if i < len then f[i] else 0
  {}

  lemma WrittenAt(f: Content, start: nat, data: Content, i: nat)
    requires i < |f|
    ensures FTruncate(PWrite(f, start, data), |f|)[i] == if start <= i < start + |data| then data[i - start] else f[i]
  {
    PWriteShape(f, start, data);
  }

  lemma SameAt(f: Content, i: nat)
    requires i < |f|
    ensures FTruncate(f, |f|)[i] == f[i]
  {}

  /** The file after the call, with its length back. */
  ghost function Regrown(s: State, c: Call): (g: Content)
    requires Valid(s) && Legal(s, c) && Changes(s, c)
    ensures |g| == |s.files[s.fds[c.fd].path]|
  {
    FTruncate(NewContent(s, c), |s.files[s.fds[c.fd].path]|)
  }

  /** A byte the call cannot change it does not change. */
  lemma RegrownSame(s: State, c: Call, i: nat)
    requires Valid(s) && Legal(s, c) && Changes(s, c) && i < |s.files[s.fds[c.fd].path]| && !CanChange(s, c, i)
    ensures Regrown(s, c)[i] == s.files[s.fds[c.fd].path][i]
  {
    hide FTruncate, PWrite, Allocated, Accepts, AllocatedByte;
    assert Tracked(s, c.fd);
    var f := s.files[s.fds[c.fd].path];
    SameAt(f, i);
    match c {
      case Write(fd, buf, took) =>
        if took.Some? {
          WrittenAt(f, WriteStart(s, fd), buf[..took.value], i);
        }
      case PWriteAt(fd, buf, off, took) =>
        if took.Some? {
          WrittenAt(f, PWriteStart(s, fd, off), buf[..took.value], i);
        }
      case Truncate(_, len, ok) =>
        if ok {
          TruncatedAt(f, len, i);
        }
      case Allocate(_, mode, off, len, ok) =>
        if ok {
          AcceptedRange(f, s.block, mode, off, len);
          AllocatedAt(f, s.block, mode, off, len, i);
        }
    }
  }

  /** The same call with any buffer of its size and any answer. */
  ghost predicate SameCall(c: Call, d: Call)
  {
    match c
    case Write(fd, buf, _) => d.Write? && d.fd == fd && |d.buf| == |buf|
    case PWriteAt(fd, buf, off, _) => d.PWriteAt? && d.fd == fd && |d.buf| == |buf| && d.off == off
    case Truncate(fd, len, _) => d.Truncate? && d.fd == fd && d.len == len
    case Allocate(fd, mode, off, len, _) =>
      d.Allocate? && d.fd == fd && d.mode == mode && d.off == off && d.len == len
    case _ => c == d
  }

  lemma SameCanChange(s: State, c: Call, d: Call)
    requires Valid(s) && Legal(s, c) && Changes(s, c) && SameCall(c, d) && Legal(s, d)
    ensures Changes(s, d) && d.fd == c.fd
    ensures forall i: nat :: i < |s.files[s.fds[c.fd].path]| ==> (CanChange(s, c, i) <==> CanChange(s, d, i))
  {}

  /** A byte it can change it does change, for some buffer and some answer. */
  lemma RegrownOther(s: State, c: Call, i: nat) returns (d: Call)
    requires Valid(s) && Legal(s, c) && Changes(s, c) && i < |s.files[s.fds[c.fd].path]| && CanChange(s, c, i)
    ensures SameCall(c, d) && Legal(s, d) && Changes(s, d)
    ensures Regrown(s, d)[i] != s.files[s.fds[c.fd].path][i]
  {
    hide FTruncate, PWrite, Allocated, Accepts, AllocatedByte;
    assert Tracked(s, c.fd);
    var f := s.files[s.fds[c.fd].path];
    var b: byte := if f[i] == 0 then 1 else 0;
    match c {
      case Write(fd, buf, _) =>
        var other := seq(|buf|, k => b);
        d := Call.Write(fd, other, Some(i + 1 - s.fds[fd].pos));
        WrittenAt(f, s.fds[fd].pos, other[..i + 1 - s.fds[fd].pos], i);
      case PWriteAt(fd, buf, off, _) =>
        var other := seq(|buf|, k => b);
        d := Call.PWriteAt(fd, other, off, Some(i + 1 - off));
        WrittenAt(f, off, other[..i + 1 - off], i);
      case Truncate(fd, len, _) =>
        d := Call.Truncate(fd, len, true);
        TruncatedAt(f, len, i);
      case Allocate(fd, mode, off, len, _) =>
        d := Call.Allocate(fd, mode, off, len, true);
        AcceptedRange(f, s.block, mode, off, len);
        AllocatedAt(f, s.block, mode, off, len, i);
    }
  }

  lemma AcceptedRange(f: Content, block: nat, mode: Mode, off: int, len: int)
    requires Accepts(f, block, mode, off, len)
    ensures off >= 0 && len > 0
  {}

  /** What a call's own records give back: the file whole when its descriptor
      can be read, the length alone when not. */
  lemma RecordsUndo(s: State, c: Call)
    requires Valid(s) && Legal(s, c) && Changes(s, c)
    ensures UndoAll(NewContent(s, c), ActionsOf(Before(s, c))) ==
            if s.fds[c.fd].readable then s.files[s.fds[c.fd].path] else Regrown(s, c)
  {
    hide UndoAll, NewContent, RangeEnd, Saved, SavedRange, FTruncate;
    assert Tracked(s, c.fd);
    var path := s.fds[c.fd].path;
    var f := s.files[path];
    var r := SavedRange(s, c);
    if s.fds[c.fd].readable {
      CallConfined(s, c);
      UndoSaved(r.kind, path, f, NewContent(s, c), r.off, r.len);
    } else {
      UndoUnread(r.kind, path, f, NewContent(s, c), r.off, r.len);
    }
  }

  /** The descriptor can be read, or the call can change no byte. */
  ghost predicate Safe(s: State, c: Call)
    requires Valid(s) && Legal(s, c) && Changes(s, c)
  {
    s.fds[c.fd].readable || forall i: nat :: i < |s.files[s.fds[c.fd].path]| ==> !CanChange(s, c, i)
  }

  /** A safe call is undone by its own records. */
  lemma CallUndone(s: State, c: Call)
    requires Valid(s) && Legal(s, c) && Changes(s, c) && Safe(s, c)
    ensures Undone(s, c)
  {
    hide UndoAll, NewContent, Before, Regrown, CanChange;
    RecordsUndo(s, c);
    if !s.fds[c.fd].readable {
      forall i: nat | i < |s.files[s.fds[c.fd].path]|
        ensures Regrown(s, c)[i] == s.files[s.fds[c.fd].path][i]
      {
        RegrownSame(s, c, i);
      }
    }
  }

  ghost predicate AlwaysUndone(s: State, c: Call)
    requires Valid(s) && Legal(s, c) && Changes(s, c)
  {
    forall d :: SameCall(c, d) && Legal(s, d) ==> Undone(s, d)
  }

  /** A call is undone by its own records for every buffer and every answer
      exactly when it is safe. */
  lemma UndoneExactly(s: State, c: Call)
    requires Valid(s) && Legal(s, c) && Changes(s, c)
    ensures AlwaysUndone(s, c) <==> Safe(s, c)
  {
    hide UndoAll, NewContent, Before, Regrown, CanChange, SameCall, Legal;
    if Safe(s, c) {
      forall d | SameCall(c, d) && Legal(s, d)
        ensures Changes(s, d) && Undone(s, d)
      {
        SameCanChange(s, c, d);
        CallUndone(s, d);
      }
    } else {
      var i: nat :| i < |s.files[s.fds[c.fd].path]| && CanChange(s, c, i);
      var d := RegrownOther(s, c, i);
      SameCanChange(s, c, d);
      RecordsUndo(s, d);
      assert !Undone(s, d);
    }
  }

  lemma TruncateConfined(f: Content, len: nat)
    ensures Agree(f, FTruncate(f, len), len, RangeEnd(f, len, None))
  {}

  // ------------------------------------------------------------------
  // Bytes that records already logged will put right.

  /** Some action puts its own byte there, or cuts the file before it. */
  ghost predicate Forgets(acts: seq<Action>, i: nat)
  {
    exists k :: 0 <= k < |acts| && ForgottenBy(acts[k], i)
  }

  ghost predicate ForgottenBy(a: Action, i: nat)
  {
    a.prev <= i || a.off <= i < a.off + |a.data|
  }

  lemma UndoAt(a: Action, f: Content)
    ensures |Undo(a, f)| == a.prev
    ensures forall i :: 0 <= i < a.prev ==>
              Undo(a, f)[i] == if a.off <= i < a.off + |a.data| then a.data[i - a.off] else if i < |f| then f[i] else 0
  {
    PWriteShape(f, a.off, a.data[..Kept(a)]);
  }

  /** Files that differ only in forgotten bytes are undone to the same. */
  lemma {:induction false} UndoAllSame(f: Content, g: Content, acts: seq<Action>)
    requires |f| == |g| && forall i :: 0 <= i < |f| ==> f[i] == g[i] || Forgets(acts, i)
    ensures UndoAll(f, acts) == UndoAll(g, acts)
    decreases |acts|
  {
    hide Undo;
    if acts == [] {
      assert f == g;
    } else {
      var n := |acts| - 1;
      var f', g' := Undo(acts[n], f), Undo(acts[n], g);
      UndoAt(acts[n], f);
      UndoAt(acts[n], g);
      forall i | 0 <= i < |f'|
        ensures f'[i] == g'[i] || Forgets(acts[..n], i)
      {
        if f'[i] != g'[i] {
          var k :| 0 <= k < |acts| && ForgottenBy(acts[k], i);
          assert acts[..n][k] == acts[k];
        }
      }
      UndoAllSame(f', g', acts[..n]);
    }
  }

  /** A byte no action forgets stays. */
  lemma {:induction false} UndoAllStays(f: Content, acts: seq<Action>, i: nat)
    requires i < |f| && !Forgets(acts, i)
    ensures i < |UndoAll(f, acts)| && UndoAll(f, acts)[i] == f[i]
    decreases |acts|
  {
    hide Undo;
    if acts != [] {
      var n := |acts| - 1;
      UndoAt(acts[n], f);
      assert !ForgottenBy(acts[n], i);
      forall k | 0 <= k < n
        ensures !ForgottenBy(acts[..n][k], i)
      {
        assert acts[..n][k] == acts[k];
      }
      UndoAllStays(Undo(acts[n], f), acts[..n], i);
    }
  }

  /** The record a call logs once it is done: a created file, a successful
      sync. */
  ghost function After(s: State, c: Call): seq<Record>
  {
    match c
    case Open(_, path, creat, _, _) => if path !in s.files && creat then [Record(CREATE, path, 0, 0, [])] else []
    case Sync(fd, ok) => if ok && fd in s.fds then [Record(SYNC, s.fds[fd].path, 0, 0, [])] else []
    case _ => []
  }

  ghost function NewFiles(s: State, c: Call): Files
    requires Valid(s) && Legal(s, c)
  {
    if Changes(s, c) then s.files[s.fds[c.fd].path := NewContent(s, c)]
    else if c.Open? && c.path !in s.files && c.creat then s.files[c.path := []]
    else s.files
  }

  /** The descriptors after a call: only a write moves an offset. */
  ghost function NewFds(s: State, c: Call): map<nat, Descriptor>
    requires Valid(s) && Legal(s, c)
  {
    match c
    case Open(fd, path, creat, append, readable) =>
      if path in s.files || creat then s.fds[fd := Descriptor(path, 0, append, readable)] else s.fds
    case Seek(fd, pos) => if fd in s.fds then s.fds[fd := s.fds[fd].(pos := pos)] else s.fds
    case Write(fd, _, took) =>
      if fd in s.fds && took.Some? then s.fds[fd := s.fds[fd].(pos := WriteStart(s, fd) + took.value)] else s.fds
    case Close(fd) => s.fds - {fd}
    case _ => s.fds
  }

  /** One whole call. */
  ghost function Step(s: State, c: Call): State
    requires Valid(s) && Legal(s, c)
  {
    State(NewFiles(s, c), NewFds(s, c), s.records + Before(s, c) + After(s, c), s.block)
  }

  /** A write moves the offset past its bytes: two whole writes in a row leave
      what one write of both would. */
  lemma WritesJoin(s: State, fd: nat, a: Content, b: Content)
    requires Valid(s) && fd in s.fds && Legal(s, Call.Write(fd, a + b, Some(|a + b|)))
    ensures var first, second := Call.Write(fd, a, Some(|a|)), Call.Write(fd, b, Some(|b|));
            && Legal(s, first) && Valid(Step(s, first)) && Legal(Step(s, first), second)
            && NewContent(Step(s, first), second) == NewContent(s, Call.Write(fd, a + b, Some(|a + b|)))
  {
    hide Before, PWrite, After;
    assert Tracked(s, fd);
    var first := Call.Write(fd, a, Some(|a|));
    var f, start := s.files[s.fds[fd].path], WriteStart(s, fd);
    StepValid(s, first);
    assert a[..|a|] == a && b[..|b|] == b && (a + b)[..|a + b|] == a + b;
    PWritesJoin(f, start, a, b);
  }

  lemma PWritesJoin(f: Content, off: nat, a: Content, b: Content)
    ensures PWrite(PWrite(f, off, a), off + |a|, b) == PWrite(f, off, a + b)
    ensures |PWrite(f, |f|, a)| == |f| + |a|
  {
    PWriteShape(f, |f|, a);
    if a == [] {
      assert a + b == b && PWrite(f, off, a) == f;
    } else if b == [] {
      assert a + b == a;
    } else {
      PWritesMeet(f, off, a, b);
    }
  }

  lemma PWritesMeet(f: Content, off: nat, a: Content, b: Content)
    requires a != [] && b != []
    ensures PWrite(PWrite(f, off, a), off + |a|, b) == PWrite(f, off, a + b)
  {
    hide PWrite;
    var g := PWrite(f, off, a);
    PWriteShape(f, off, a);
    PWriteShape(g, off + |a|, b);
    PWriteShape(f, off, a + b);
    var one, two := PWrite(f, off, a + b), PWrite(g, off + |a|, b);
    assert |one| == |two|;
    forall i | 0 <= i < |one|
      ensures one[i] == two[i]
    {
      if off <= i < off + |a| {
        assert (a + b)[i - off] == a[i - off];
      } else if off + |a| <= i < off + |a| + |b| {
        assert (a + b)[i - off] == b[i - off - |a|];
      }
    }
  }

  /** What a power cut may not take: each file's content at its last sync. */
  ghost function NewDurable(durable: Files, s: State, c: Call): Files
    requires Valid(s)
  {
    if c.Sync? && c.ok && c.fd in s.fds then
      assert Tracked(s, c.fd);
      durable[s.fds[c.fd].path := s.files[s.fds[c.fd].path]]
    else durable
  }

  // ------------------------------------------------------------------
  // Every call keeps the log able to rewind the files.

  ghost function BookOf(s: State): Book
  {
    NoteAll(NOTHING, s.records)
  }

  /** Replaying the log gives the durable contents. */
  ghost predicate Rewindable(s: State, durable: Files)
  {
    && Rewound(s.files, BookOf(s)) == durable
    && BookOf(s).created <= BookOf(s).pending.Keys <= s.files.Keys
  }

  lemma ContentLength(s: State, c: Call)
    requires Valid(s) && Legal(s, c) && Changes(s, c)
    ensures |NewContent(s, c)| < OFF_MAX
  {
    assert Tracked(s, c.fd);
    var f := s.files[s.fds[c.fd].path];
    match c {
      case Write(fd, buf, took) =>
        if took.Some? {
          PWriteShape(f, WriteStart(s, fd), buf[..took.value]);
        }
      case PWriteAt(fd, buf, off, took) =>
        if took.Some? {
          PWriteShape(f, PWriteStart(s, fd, off), buf[..took.value]);
        }
      case Truncate(_, len, ok) =>
      case Allocate(_, mode, off, len, ok) =>
        if ok {
          AllocatedLength(f, mode, off, len);
        }
    }
  }

  lemma AllocatedLength(f: Content, mode: Mode, off: nat, len: nat)
    requires |f| < OFF_MAX && off + len < OFF_MAX && (mode.insert ==> |f| + len < OFF_MAX)
    ensures |Allocated(f, mode, off, len)| < OFF_MAX
  {
    if !mode.collapse && !mode.insert {
      var g := if !mode.keepSize && |f| < off + len then FTruncate(f, off + len) else f;
      if off < |g| {
        PWriteShape(g, off, Zeroes(Min(len, |g| - off)));
      }
    }
  }

  lemma BeforeFits(s: State, c: Call)
    requires Valid(s) && Legal(s, c)
    ensures forall i :: 0 <= i < |Before(s, c)| ==>
              var r := Before(s, c)[i];
              Fits(r) && Changes(s, c) && r.path == s.fds[c.fd].path && (r.kind == WRITE || r.kind == TRUNCATE)
  {
    hide Saved;
    if Changes(s, c) {
      assert Tracked(s, c.fd);
      var path := s.fds[c.fd].path;
      var r := SavedRange(s, c);
      assert r.off < U64;
      SavedFit(r.kind, path, s.files[path], s.fds[c.fd].readable, r.off, r.len);
      assert Before(s, c) == Saved(r.kind, path, s.files[path], s.fds[c.fd].readable, r.off, r.len);
    } else {
      assert Before(s, c) == [];
    }
  }

  lemma StepValid(s: State, c: Call)
    requires Valid(s) && Legal(s, c)
    ensures Valid(Step(s, c))
  {
    hide NewContent, Before, After;
    var t := Step(s, c);
    BeforeFits(s, c);
    AfterFits(s, c);
    if Changes(s, c) {
      ContentLength(s, c);
    }
    forall fd | fd in t.fds
      ensures Tracked(t, fd) && t.fds[fd].pos < OFF_MAX
    {
      if fd in s.fds {
        assert Tracked(s, fd);
      }
    }
  }

  lemma AfterFits(s: State, c: Call)
    requires Valid(s) && Legal(s, c)
    ensures forall i :: 0 <= i < |After(s, c)| ==> Fits(After(s, c)[i])
  {
    if c.Sync? && c.fd in s.fds {
      assert Tracked(s, c.fd);
    }
  }

  /** Recording changes to one file only touches that file's actions. */
  lemma {:induction false} NoteChanges(b: Book, path: Path, rs: seq<Record>)
    requires forall i :: 0 <= i < |rs| ==> rs[i].path == path && (rs[i].kind == WRITE || rs[i].kind == TRUNCATE)
    ensures rs == [] ==> NoteAll(b, rs) == b
    ensures rs != [] ==> NoteAll(b, rs) == b.(pending := b.pending[path := PendingFor(b, path) + ActionsOf(rs)])
  {
    if rs != [] {
      var n := |rs| - 1;
      NoteChanges(b, path, rs[..n]);
      var b' := NoteAll(b, rs[..n]);
      NoteCases(b', rs[n]);
      assert ActionsOf(rs) == ActionsOf(rs[..n]) + [ActionOf(rs[n])];
      assert PendingFor(b', path) == PendingFor(b, path) + ActionsOf(rs[..n]);
      assert PendingFor(b', path) + [ActionOf(rs[n])] == PendingFor(b, path) + ActionsOf(rs);
      var pending := PendingFor(b, path) + ActionsOf(rs);
      assert b'.pending[path := pending] == b.pending[path := pending];
    }
  }

  /** Changing one file after saving what the change destroys leaves the
      rewound files as they were. */
  lemma ChangeRewinds(files: Files, b: Book, path: Path, g: Content, rs: seq<Record>)
    requires path in files && b.created <= b.pending.Keys <= files.Keys
    requires forall i :: 0 <= i < |rs| ==> rs[i].path == path && (rs[i].kind == WRITE || rs[i].kind == TRUNCATE)
    requires UndoAll(UndoAll(g, ActionsOf(rs)), PendingFor(b, path)) == UndoAll(files[path], PendingFor(b, path))
    requires rs == [] ==> g == files[path]
    ensures var b' := NoteAll(b, rs);
            && b'.created <= b'.pending.Keys <= files.Keys
            && Rewound(files[path := g], b') == Rewound(files, b)
  {
    hide UndoAll, NoteAll;
    NoteChanges(b, path, rs);
    if rs == [] {
      assert files[path := g] == files;
    } else {
      UndoAllConcat(g, PendingFor(b, path), ActionsOf(rs));
      UndoNone(files[path]);
    }
  }

  /** What happens to a file that replay removes does not matter. */
  lemma CreatedRewinds(files: Files, b: Book, path: Path, g: Content, rs: seq<Record>)
    requires path in files && path in b.created && b.created <= b.pending.Keys <= files.Keys
    requires forall i :: 0 <= i < |rs| ==> rs[i].path == path && (rs[i].kind == WRITE || rs[i].kind == TRUNCATE)
    ensures var b' := NoteAll(b, rs);
            && b'.created <= b'.pending.Keys <= files.Keys
            && Rewound(files[path := g], b') == Rewound(files, b)
  {
    hide UndoAll, NoteAll;
    NoteChanges(b, path, rs);
  }

  lemma CreateRewinds(files: Files, b: Book, path: Path)
    requires path !in files && b.created <= b.pending.Keys <= files.Keys
    ensures var b' := NoteAll(b, [Record(CREATE, path, 0, 0, [])]);
            && b'.created <= b'.pending.Keys <= files[path := []].Keys
            && Rewound(files[path := []], b') == Rewound(files, b)
  {
    hide UndoAll;
    NoteSingle(b, Record(CREATE, path, 0, 0, []));
  }

  lemma NoteSingle(b: Book, r: Record)
    ensures NoteAll(b, [r]) == Note(b, r)
  {
    assert [r][..0] == [];
    assert NoteAll(b, []) == b;
  }

  lemma SyncRewinds(files: Files, b: Book, path: Path)
    requires path in files && b.created <= b.pending.Keys <= files.Keys
    ensures var b' := NoteAll(b, [Record(SYNC, path, 0, 0, [])]);
            && b'.created <= b'.pending.Keys <= files.Keys
            && Rewound(files, b') == Rewound(files, b)[path := files[path]]
  {
    hide UndoAll;
    NoteSingle(b, Record(SYNC, path, 0, 0, []));
  }

  /** A call the log can rewind: it changes no content, its descriptor can be
      read, its file was created and never synced, so that replay removes it, or
      records already logged will put right every byte it can change. */
  ghost predicate Keeps(s: State, c: Call)
    requires Valid(s) && Legal(s, c)
  {
    Changes(s, c) ==>
      var path := s.fds[c.fd].path;
      || s.fds[c.fd].readable
      || path in BookOf(s).created
      || forall i: nat :: i < |s.files[path]| && CanChange(s, c, i) ==> Forgets(PendingFor(BookOf(s), path), i)
  }

  /** Such a change is undone, down to what was durable. */
  lemma KeptUndo(s: State, c: Call)
    requires Valid(s) && Legal(s, c) && Changes(s, c) && Keeps(s, c) && s.fds[c.fd].path !in BookOf(s).created
    ensures var path := s.fds[c.fd].path;
            var acts := PendingFor(BookOf(s), path);
            UndoAll(UndoAll(NewContent(s, c), ActionsOf(Before(s, c))), acts) == UndoAll(s.files[path], acts)
  {
    hide UndoAll, NewContent, Before, Regrown, CanChange, BookOf, PendingFor, Forgets;
    var path := s.fds[c.fd].path;
    var acts := PendingFor(BookOf(s), path);
    RecordsUndo(s, c);
    if !s.fds[c.fd].readable {
      forall i: nat | i < |s.files[path]|
        ensures Regrown(s, c)[i] == s.files[path][i] || Forgets(acts, i)
      {
        if !CanChange(s, c, i) {
          RegrownSame(s, c, i);
        }
      }
      UndoAllSame(Regrown(s, c), s.files[path], acts);
    }
  }

  /** Every such call keeps the log able to rewind the files to what is durable. */
  lemma StepRewinds(s: State, durable: Files, c: Call)
    requires Valid(s) && Legal(s, c) && Rewindable(s, durable) && Keeps(s, c)
    ensures Rewindable(Step(s, c), NewDurable(durable, s, c))
  {
    hide Rewound, Before, NewContent, NoteAll, Keeps, UndoAll, PendingFor;
    var b := BookOf(s);
    NoteAllConcat(NOTHING, s.records, Before(s, c) + After(s, c));
    assert s.records + (Before(s, c) + After(s, c)) == Step(s, c).records;
    NoteAllConcat(b, Before(s, c), After(s, c));
    BeforeFits(s, c);
    if Changes(s, c) {
      assert Tracked(s, c.fd);
      if s.fds[c.fd].path in b.created {
        CreatedRewinds(s.files, b, s.fds[c.fd].path, NewContent(s, c), Before(s, c));
      } else {
        KeptUndo(s, c);
        BeforeNonempty(s, c);
        ChangeRewinds(s.files, b, s.fds[c.fd].path, NewContent(s, c), Before(s, c));
      }
      NoteNothing(NoteAll(b, Before(s, c)));
    } else {
      NoteNothing(b);
      BeforeEmpty(s, c);
      if c.Open? && c.path !in s.files && c.creat {
        CreateRewinds(s.files, b, c.path);
      } else if c.Sync? && c.ok && c.fd in s.fds {
        assert Tracked(s, c.fd);
        SyncRewinds(s.files, b, s.fds[c.fd].path);
      }
    }
  }

  lemma NoteNothing(b: Book)
    ensures NoteAll(b, []) == b
  {}

  lemma BeforeEmpty(s: State, c: Call)
    requires Valid(s) && Legal(s, c) && !Changes(s, c)
    ensures Before(s, c) == []
  {}

  lemma BeforeNonempty(s: State, c: Call)
    requires Valid(s) && Legal(s, c) && Changes(s, c)
    ensures Before(s, c) != []
  {}

  // ------------------------------------------------------------------
  // Whole runs and the kill.

  ghost predicate LegalRun(s: State, calls: seq<Call>)
    requires Valid(s)
    decreases |calls|
  {
    calls == [] || (Legal(s, calls[0]) && (StepValid(s, calls[0]); LegalRun(Step(s, calls[0]), calls[1..])))
  }

  /** Every call of the run is one the log can rewind. */
  ghost predicate KeepsRun(s: State, calls: seq<Call>)
    requires Valid(s) && LegalRun(s, calls)
    decreases |calls|
  {
    calls == [] || (Keeps(s, calls[0]) && (StepValid(s, calls[0]); KeepsRun(Step(s, calls[0]), calls[1..])))
  }

  ghost function Run(s: State, calls: seq<Call>): (t: State)
    requires Valid(s) && LegalRun(s, calls)
    ensures Valid(t)
    decreases |calls|
  {
    if calls == [] then s
    else
      StepValid(s, calls[0]);
      Run(Step(s, calls[0]), calls[1..])
  }

  ghost function DurableAfter(durable: Files, s: State, calls: seq<Call>): Files
    requires Valid(s) && LegalRun(s, calls)
    decreases |calls|
  {
    if calls == [] then durable
    else
      StepValid(s, calls[0]);
      DurableAfter(NewDurable(durable, s, calls[0]), Step(s, calls[0]), calls[1..])
  }

  /** The start of a run: some files, no descriptors, an empty log. */
  ghost predicate Initial(s: State)
  {
    s.fds == map[] && s.records == [] && forall p :: p in s.files ==> |s.files[p]| < OFF_MAX
  }

  lemma {:induction false} RunRewinds(s: State, durable: Files, calls: seq<Call>)
    requires Valid(s) && Rewindable(s, durable) && LegalRun(s, calls) && KeepsRun(s, calls)
    ensures Rewindable(Run(s, calls), DurableAfter(durable, s, calls))
    decreases |calls|
  {
    hide Rewindable, Legal, Step, NewDurable, Valid, Keeps;
    if calls != [] {
      StepValid(s, calls[0]);
      StepRewinds(s, durable, calls[0]);
      RunRewinds(Step(s, calls[0]), NewDurable(durable, s, calls[0]), calls[1..]);
    }
  }

  lemma InitialRewindable(s: State)
    requires Initial(s)
    ensures Valid(s) && Rewindable(s, s.files)
  {}

  /** Any number of bytes of a run of records is some whole records and a torn
      one. */
  lemma {:induction false} CutLog(rs: seq<Record>, n: nat) returns (k: nat, tail: seq<byte>)
    requires (forall i :: 0 <= i < |rs| ==> Fits(rs[i])) && n <= |EncodeAll(rs)|
    ensures k <= |rs| && TornTail(tail)
    ensures EncodeAll(rs)[..n] == EncodeAll(rs[..k]) + tail
  {
    hide Encode;
    if rs == [] {
      k, tail := 0, [];
    } else if n < |Encode(rs[0])| {
      k, tail := 0, Encode(rs[0])[..n];
      assert EncodeAll(rs)[..n] == tail;
    } else {
      var e := Encode(rs[0]);
      k, tail := CutLog(rs[1..], n - |e|);
      k := k + 1;
      assert rs[..k][1..] == rs[1..][..k - 1];
      assert EncodeAll(rs)[..n] == e + EncodeAll(rs[1..])[..n - |e|];
    }
  }

  /** The log's bytes when the kill comes n bytes into a call's undo records. */
  ghost function KilledLog(s: State, c: Call, n: nat): seq<byte>
    requires Valid(s) && Legal(s, c) && n <= |EncodeAll(Before(s, c))|
  {
    EncodeAll(s.records) + EncodeAll(Before(s, c))[..n]
  }

  lemma ReplayKilled(s: State, durable: Files, c: Call, n: nat)
    requires Valid(s) && Legal(s, c) && Rewindable(s, durable) && n <= |EncodeAll(Before(s, c))|
    ensures Rewound(s.files, NoteAll(NOTHING, Parse(KilledLog(s, c, n)))) == durable
  {
    hide Rewound, Before, NoteAll, Parse, EncodeAll;
    BeforeFits(s, c);
    var k, tail := CutLog(Before(s, c), n);
    var kept := Before(s, c)[..k];
    EncodeAllConcat(s.records, kept);
    assert KilledLog(s, c, n) == EncodeAll(s.records + kept) + tail;
    ParseEncoded(s.records + kept, tail);
    NoteAllConcat(NOTHING, s.records, kept);
    if Changes(s, c) {
      assert Tracked(s, c.fd);
      var path := s.fds[c.fd].path;
      KeptUndone(s, c, k);
      ChangeRewinds(s.files, BookOf(s), path, s.files[path], kept);
      assert s.files[path := s.files[path]] == s.files;
    } else {
      BeforeEmpty(s, c);
      NoteNothing(BookOf(s));
    }
  }

  lemma KeptUndone(s: State, c: Call, k: nat)
    requires Valid(s) && Legal(s, c) && Changes(s, c) && k <= |Before(s, c)|
    ensures var f := s.files[s.fds[c.fd].path];
            UndoAll(f, ActionsOf(Before(s, c)[..k])) == f
  {
    hide UndoAll, Harmless, Saved;
    assert Tracked(s, c.fd);
    var path := s.fds[c.fd].path;
    var r := SavedRange(s, c);
    SavedHarmless(r.kind, path, s.files[path], s.fds[c.fd].readable, r.off, r.len);
    HarmlessUndoAll(s.files[path], ActionsOf(Before(s, c)[..k]));
  }

  /** The shim's promise: kill any run of calls the log can rewind during its
      next call, whatever that is, after any number of bytes of that call's undo
      records and before its change, and replaying the log gives every file its
      content at its last sync, or at the start, and removes the files created
      and never synced. */
  lemma PowerLoss(start: State, calls: seq<Call>, c: Call, n: nat)
    requires Initial(start) && Valid(start) && LegalRun(start, calls) && KeepsRun(start, calls)
    requires Legal(Run(start, calls), c)
    requires n <= |EncodeAll(Before(Run(start, calls), c))|
    ensures var s := Run(start, calls);
            Rewound(s.files, NoteAll(NOTHING, Parse(KilledLog(s, c, n)))) == DurableAfter(start.files, start, calls)
  {
    hide *;
    InitialRewindable(start);
    RunRewinds(start, start.files, calls);
    ReplayKilled(Run(start, calls), DurableAfter(start.files, start, calls), c, n);
  }

  // ------------------------------------------------------------------
  // What a descriptor that cannot be read loses.

  /** Any other call, with some buffer and some answer, leaves a log that does
      not rewind its file. */
  lemma NotKeptLoses(s: State, durable: Files, c: Call) returns (d: Call)
    requires Valid(s) && Legal(s, c) && Rewindable(s, durable) && !Keeps(s, c)
    ensures SameCall(c, d) && Legal(s, d) && Changes(s, d) && !Rewindable(Step(s, d), NewDurable(durable, s, d))
  {
    hide NoteAll, UndoAll, Before, NewContent, Regrown, CanChange, Forgets, SameCall;
    assert Tracked(s, c.fd);
    var b, path := BookOf(s), s.fds[c.fd].path;
    var acts := PendingFor(b, path);
    var i: nat :| i < |s.files[path]| && CanChange(s, c, i) && !Forgets(acts, i);
    d := RegrownOther(s, c, i);
    SameCanChange(s, c, d);
    RecordsUndo(s, d);
    NoteAllConcat(NOTHING, s.records, Before(s, d));
    assert Step(s, d).records == s.records + Before(s, d);
    BeforeFits(s, d);
    BeforeNonempty(s, d);
    NoteChanges(b, path, Before(s, d));
    UndoAllConcat(NewContent(s, d), acts, ActionsOf(Before(s, d)));
    UndoAllStays(s.files[path], acts, i);
    UndoAllStays(Regrown(s, d), acts, i);
    UndoNone(s.files[path]);
    assert path in durable && i < |durable[path]| && durable[path][i] == s.files[path][i];
  }

  /** So the condition is exact: a call keeps the log able to rewind the files,
      for every buffer and every answer, exactly when it holds. */
  lemma StepRewindsExactly(s: State, durable: Files, c: Call)
    requires Valid(s) && Legal(s, c) && Rewindable(s, durable)
    ensures (forall d :: SameCall(c, d) && Legal(s, d) ==> Rewindable(Step(s, d), NewDurable(durable, s, d))) <==>
              Keeps(s, c)
  {
    hide Rewindable, Step, NewDurable, Valid, Legal;
    if Keeps(s, c) {
      forall d | SameCall(c, d) && Legal(s, d)
        ensures Rewindable(Step(s, d), NewDurable(durable, s, d))
      {
        SameKeeps(s, c, d);
        StepRewinds(s, durable, d);
      }
    } else {
      var d := NotKeptLoses(s, durable, c);
    }
  }

  lemma SameKeeps(s: State, c: Call, d: Call)
    requires Valid(s) && Legal(s, c) && SameCall(c, d) && Legal(s, d) && Keeps(s, c)
    ensures Keeps(s, d)
  {
    hide BookOf, PendingFor, Forgets, Valid, Legal, CanChange;
    if Changes(s, d) {
      SameCanChange(s, c, d);
    }
  }

  /** A synced file of one byte, cut to nothing and written over through a
      descriptor opened for writing only. */
  function WriteOnlyStart(p: Path): State
  {
    State(map[p := [7]], map[3 := Descriptor(p, 0, false, false)], [], 1)
  }

  lemma WriteOnlyLoses(p: Path)
    requires |p| < 4096
    ensures var s := WriteOnlyStart(p);
            var cut, over := Call.Truncate(3, 0, true), Call.Write(3, [8], Some(1));
            var start, open := State(map[p := [7]], map[], [], 1), Call.Open(3, p, false, false, false);
            && Initial(start) && Valid(start) && Legal(start, open) && s == Step(start, open)
            && Valid(s) && Rewindable(s, s.files) && Legal(s, cut) && Legal(s, over)
            && Rewound(Step(s, cut).files, BookOf(Step(s, cut))) == map[p := [0]]
            && Rewound(Step(s, over).files, BookOf(Step(s, over))) == map[p := [8]]
  {
    hide Initial, Valid, Legal, Step, Rewindable, Rewound, BookOf, NewContent, FTruncate;
    var s := WriteOnlyStart(p);
    WriteOnlyOpen(p);
    WriteOnlyCalls(p);
    WriteOnlyReplay(s, Call.Truncate(3, 0, true), p);
    WriteOnlyReplay(s, Call.Write(3, [8], Some(1)), p);
  }

  lemma WriteOnlyOpen(p: Path)
    requires |p| < 4096
    ensures var start, open := State(map[p := [7]], map[], [], 1), Call.Open(3, p, false, false, false);
            && Initial(start) && Valid(start) && Legal(start, open)
            && WriteOnlyStart(p) == Step(start, open) && Valid(WriteOnlyStart(p))
  {}

  lemma WriteOnlyCalls(p: Path)
    requires Valid(WriteOnlyStart(p))
    ensures var s := WriteOnlyStart(p);
            var cut, over := Call.Truncate(3, 0, true), Call.Write(3, [8], Some(1));
            && Legal(s, cut) && Legal(s, over)
            && FTruncate(NewContent(s, cut), 1) == [0] && FTruncate(NewContent(s, over), 1) == [8]
  {
    var s := WriteOnlyStart(p);
    assert NewContent(s, Call.Truncate(3, 0, true)) == [];
    assert NewContent(s, Call.Write(3, [8], Some(1))) == [8];
  }

  lemma WriteOnlyReplay(s: State, c: Call, p: Path)
    requires |p| < 4096 && s == WriteOnlyStart(p) && Valid(s) && Legal(s, c) && Changes(s, c)
    ensures Rewindable(s, s.files)
    ensures Rewound(Step(s, c).files, BookOf(Step(s, c))) == map[p := FTruncate(NewContent(s, c), 1)]
  {
    hide UndoAll, NewContent, Before, Legal, FTruncate, NoteAll, Rewound, Step, BookOf, ActionsOf;
    WriteOnlyBook(s, c, p);
    RewoundOne(p, NewContent(s, c), ActionsOf(Before(s, c)));
    RecordsUndo(s, c);
  }

  lemma WriteOnlyBook(s: State, c: Call, p: Path)
    requires |p| < 4096 && s == WriteOnlyStart(p) && Valid(s) && Legal(s, c) && Changes(s, c)
    ensures Rewindable(s, s.files) && Step(s, c).files == map[p := NewContent(s, c)]
    ensures BookOf(Step(s, c)) == Book(map[p := ActionsOf(Before(s, c))], {})
  {
    hide NewContent, Before, Legal, NoteAll, Rewound, Valid, Step, ActionsOf;
    NoteNothing(NOTHING);
    RewoundNone(s.files);
    WriteOnlyStep(s, c, p);
    BeforeFits(s, c);
    BeforeNonempty(s, c);
    NoteChanges(NOTHING, p, Before(s, c));
    assert [] + ActionsOf(Before(s, c)) == ActionsOf(Before(s, c));
  }

  lemma WriteOnlyStep(s: State, c: Call, p: Path)
    requires |p| < 4096 && s == WriteOnlyStart(p) && Valid(s) && Legal(s, c) && Changes(s, c)
    ensures Step(s, c).files == map[p := NewContent(s, c)] && Step(s, c).records == Before(s, c)
  {
    hide NewContent, Before, Legal, Valid;
    assert s.records + Before(s, c) == Before(s, c) && After(s, c) == [];
  }

  lemma RewoundNone(files: Files)
    ensures Rewound(files, NOTHING) == files
  {}

  lemma RewoundOne(p: Path, g: Content, acts: seq<Action>)
    ensures Rewound(map[p := g], Book(map[p := acts], {})) == map[p := UndoAll(g, acts)]
  {}

  /** A kill inside a sync's own record loses the sync: the files go back to
      what was durable before it. */
  lemma KilledInSyncRecord(s: State, durable: Files, c: Call, n: nat)
    requires Valid(s) && Legal(s, c) && Rewindable(s, durable) && c.Sync? && After(s, c) != []
    requires n < |Encode(After(s, c)[0])|
    ensures Rewound(s.files, NoteAll(NOTHING, Parse(EncodeAll(s.records) + Encode(After(s, c)[0])[..n]))) == durable
  {
    hide Rewound, NoteAll, Parse, EncodeAll, Encode;
    AfterFits(s, c);
    ParseEncoded(s.records, Encode(After(s, c)[0])[..n]);
  }

  /** A kill between a create and the end of its record leaves the new file
      behind, empty: the one file the replay then does not remove. */
  lemma KilledInCreateRecord(s: State, durable: Files, c: Call, n: nat)
    requires Valid(s) && Legal(s, c) && Rewindable(s, durable) && c.Open? && After(s, c) != []
    requires n < |Encode(After(s, c)[0])|
    ensures c.path !in durable
    ensures Rewound(NewFiles(s, c), NoteAll(NOTHING, Parse(EncodeAll(s.records) + Encode(After(s, c)[0])[..n])))
            == durable[c.path := []]
  {
    hide NoteAll, Parse, EncodeAll, Encode, UndoAll;
    AfterFits(s, c);
    ParseEncoded(s.records, Encode(After(s, c)[0])[..n]);
  }

  // ------------------------------------------------------------------
  // What "durable" means, said by the run's last sync of each file.

  ghost predicate Syncs(s: State, c: Call, p: Path)
  {
    c.Sync? && c.ok && c.fd in s.fds && s.fds[c.fd].path == p
  }

  ghost predicate NoSync(s: State, calls: seq<Call>, p: Path)
    requires Valid(s) && LegalRun(s, calls)
    decreases |calls|
  {
    calls == [] ||
    (!Syncs(s, calls[0], p) && (StepValid(s, calls[0]); NoSync(Step(s, calls[0]), calls[1..], p)))
  }

  lemma {:induction false} NeverSynced(durable: Files, s: State, calls: seq<Call>, p: Path)
    requires Valid(s) && LegalRun(s, calls) && NoSync(s, calls, p)
    ensures var after := DurableAfter(durable, s, calls);
            (p in after <==> p in durable) && (p in durable ==> after[p] == durable[p])
    decreases |calls|
  {
    hide Valid, Legal, Step;
    if calls != [] {
      StepValid(s, calls[0]);
      NeverSynced(NewDurable(durable, s, calls[0]), Step(s, calls[0]), calls[1..], p);
    }
  }

  lemma {:induction false} RunConcat(durable: Files, s: State, a: seq<Call>, b: seq<Call>)
    requires Valid(s) && LegalRun(s, a + b)
    ensures LegalRun(s, a) && LegalRun(Run(s, a), b)
    ensures Run(s, a + b) == Run(Run(s, a), b)
    ensures DurableAfter(durable, s, a + b) == DurableAfter(DurableAfter(durable, s, a), Run(s, a), b)
    decreases |a|
  {
    hide Valid, Legal, Step, NewDurable;
    if a == [] {
      assert a + b == b;
    } else {
      assert (a + b)[1..] == a[1..] + b;
      StepValid(s, a[0]);
      RunConcat(NewDurable(durable, s, a[0]), Step(s, a[0]), a[1..], b);
    }
  }

  /** A file synced in a run and not again later is durable with the content
      it had at that sync. */
  lemma LastSync(durable: Files, s: State, before: seq<Call>, c: Call, later: seq<Call>, p: Path)
    requires Valid(s) && LegalRun(s, before + ([c] + later))
    requires LegalRun(s, before) && Syncs(Run(s, before), c, p)
    requires Legal(Run(s, before), c) && Valid(Step(Run(s, before), c))
    requires LegalRun(Step(Run(s, before), c), later) && NoSync(Step(Run(s, before), c), later, p)
    ensures var after := DurableAfter(durable, s, before + ([c] + later));
            p in after && p in Run(s, before).files && after[p] == Run(s, before).files[p]
  {
    hide Legal, Step, LegalRun;
    RunConcat(durable, s, before, [c] + later);
    var t := Run(s, before);
    assert Tracked(t, c.fd);
    assert ([c] + later)[0] == c && ([c] + later)[1..] == later;
    NeverSynced(NewDurable(DurableAfter(durable, s, before), t, c), Step(t, c), later, p);
  }
}
