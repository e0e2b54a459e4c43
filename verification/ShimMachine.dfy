/** The shim as it runs: file contents, the descriptor table and the log's
    bytes, changed in place by the interposed calls. */
module ShimMachine {
  import opened LogFormat
  import opened Replay
  import opened Shim
  import opened Options

  class Machine {
    const block: nat
    var files: Files
    var fds: map<nat, Descriptor>
    var log: seq<byte>
    ghost var records: seq<Record>
    ghost var durable: Files

    ghost function View(): State
      reads this
    {
      State(files, fds, records, block)
    }

    /** A valid state and the bytes of its log. */
    ghost predicate Ok()
      reads this
    {
      Valid(View()) && log == EncodeAll(records)
    }

    /** The log rewinds the files to what is durable. */
    ghost predicate Rewinds()
      reads this
    {
      Rewindable(View(), durable)
    }

    constructor (files: Files, block: nat)
      requires forall p :: p in files ==> |files[p]| < OFF_MAX
      ensures Ok() && Rewinds() && Initial(View()) && View().files == files && durable == files
    {
      this.files := files;
      this.block := block;
      fds := map[];
      log := [];
      records := [];
      durable := files;
      new;
      InitialRewindable(View());
    }

    /** `emit`: one record appended, unless it would not fit the buffer. */
    method Emit(kind: byte, path: Path, off: nat, data: Content, prevLen: nat)
      requires log == EncodeAll(records) && off < U64 && prevLen < U64
      modifies `log, `records
      ensures log == EncodeAll(records)
      ensures REC_HDR + |path| + |data| <= REC_MAX ==>
                var r := Record(kind, path, off, prevLen, data);
                records == old(records) + [r] && Fits(r)
      ensures REC_HDR + |path| + |data| > REC_MAX ==> records == old(records)
    {
      if REC_HDR + |path| + |data| > REC_MAX {
        return;
      }
      var buf := [kind];
      buf := buf + Le(|path|, 2);
      buf := buf + path;
      buf := buf + Le(off, 8);
      buf := buf + Le(|data|, 4);
      buf := buf + Le(prevLen, 8);
      buf := buf + data;
      log := log + buf;
      ghost var r := Record(kind, path, off, prevLen, data);
      EncodeAllConcat(records, [r]);
      EncodeAllOne(r);
      records := records + [r];
    }

    /** `save_range`: what the coming change destroys, chunk by chunk. */
    method SaveRange(kind: byte, fd: nat, off: nat, len: Option<nat>)
      requires Ok() && off < U64
      modifies `log, `records
      ensures log == EncodeAll(records)
      ensures fd !in fds ==> records == old(records)
      ensures fd in fds ==>
                records == old(records) + Saved(kind, fds[fd].path, files[fds[fd].path], fds[fd].readable, off, len)
    {
      hide EncodeAll, Fits, Valid, Chunks;
      if fd !in fds {
        return;
      }
      Descriptors(View(), fd);
      var path := fds[fd].path;
      var f := files[path];
      var readable := fds[fd].readable;
      var prevLen := |f|;
      var chunk := REC_MAX - REC_HDR - |path|;
      var end := off;
      if off < prevLen {
        end := match len case None => prevLen case Some(n) => if prevLen - off < n then prevLen else off + n;
      }
      if end == off {
        Emit(kind, path, off, [], prevLen);
        return;
      }
      var pos := off;
      ghost var all := Chunks(kind, path, f, readable, off, end);
      while pos < end
        invariant log == EncodeAll(records)
        invariant off <= pos && records + Chunks(kind, path, f, readable, pos, end) == old(records) + all
        decreases end - pos
      {
        var keep := if end - pos < chunk then end - pos else chunk;
        ghost var rest := Chunks(kind, path, f, readable, pos + chunk, end);
        ghost var before := records;
        var bytes := KeptBytes(f, readable, pos, keep);
        Emit(kind, path, pos, bytes, prevLen);
        ChunksStep(kind, path, f, readable, pos, end);
        assert records + rest == before + Chunks(kind, path, f, readable, pos, end);
        pos := pos + chunk;
      }
      ChunksStep(kind, path, f, readable, pos, end);
    }

    /** `open` of a tracked path: a file the open creates is logged after. */
    method Open(fd: nat, path: Path, creat: bool, append: bool, readable: bool)
      requires Ok() && fd < MAXFD && |path| < 4096
      modifies this
      ensures Ok() && View() == Step(old(View()), Call.Open(fd, path, creat, append, readable))
      ensures durable == NewDurable(old(durable), old(View()), Call.Open(fd, path, creat, append, readable))
      ensures old(Rewinds()) ==> Rewinds()
    {
      hide Valid, EncodeAll, Rewindable, NewDurable;
      ghost var s, c := View(), Call.Open(fd, path, creat, append, readable);
      Stepped(s, durable, c);
      durable := NewDurable(durable, s, c);
      BeforeEmpty(s, c);
      var created := creat && path !in files;
      if created {
        files := files[path := []];
      }
      if path in files {
        fds := fds[fd := Descriptor(path, 0, append, readable)];
        if created {
          Emit(CREATE, path, 0, [], 0);
        }
      }
      assert records == s.records + Before(s, c) + After(s, c);
    }

    method Seek(fd: nat, pos: nat)
      requires Ok() && pos < OFF_MAX
      modifies this
      ensures Ok() && View() == Step(old(View()), Call.Seek(fd, pos))
      ensures durable == NewDurable(old(durable), old(View()), Call.Seek(fd, pos))
      ensures old(Rewinds()) ==> Rewinds()
    {
      hide EncodeAll, Rewindable;
      ghost var s, c := View(), Call.Seek(fd, pos);
      Stepped(s, durable, c);
      durable := NewDurable(durable, s, c);
      if fd in fds {
        fds := fds[fd := fds[fd].(pos := pos)];
      }
      assert records == s.records + Before(s, c) + After(s, c);
    }

    /** `write` and `writev`: saved at the file offset, which an append
        ignores. The kernel takes some of the bytes, or the write fails. */
    method Write(fd: nat, buf: Content, took: Option<nat>)
      requires Ok() && Legal(View(), Call.Write(fd, buf, took))
      modifies this
      ensures Ok() && View() == Step(old(View()), Call.Write(fd, buf, took))
      ensures durable == NewDurable(old(durable), old(View()), Call.Write(fd, buf, took))
      ensures old(Rewinds()) && Keeps(old(View()), Call.Write(fd, buf, took)) ==> Rewinds()
    {
      hide Saved, EncodeAll, PWrite, Rewindable, Valid, Keeps, NewDurable;
      ghost var s, c := View(), Call.Write(fd, buf, took);
      Stepped(s, durable, c);
      durable := NewDurable(durable, s, c);
      if fd in fds {
        Descriptors(s, fd);
        SaveRange(WRITE, fd, fds[fd].pos, Some(|buf|));
        assert records == s.records + Before(s, c) + After(s, c);
        if took.Some? {
          var d := fds[fd];
          var start := if d.append then |files[d.path]| else d.pos;
          files := files[d.path := PWrite(files[d.path], start, buf[..took.value])];
          fds := fds[fd := d.(pos := start + took.value)];
        } else {
          assert files[fds[fd].path := files[fds[fd].path]] == files;
        }
      }
    }

    /** `pwrite`, `pwritev` and their 64-bit and v2 forms at an offset; the v2
        forms at offset -1 are `Write`. */
    method PWriteAt(fd: nat, buf: Content, off: int, took: Option<nat>)
      requires Ok() && Legal(View(), Call.PWriteAt(fd, buf, off, took))
      modifies this
      ensures Ok() && View() == Step(old(View()), Call.PWriteAt(fd, buf, off, took))
      ensures durable == NewDurable(old(durable), old(View()), Call.PWriteAt(fd, buf, off, took))
      ensures old(Rewinds()) && Keeps(old(View()), Call.PWriteAt(fd, buf, off, took)) ==> Rewinds()
    {
      hide Saved, EncodeAll, PWrite, Rewindable, Valid, Keeps, NewDurable;
      ghost var s, c := View(), Call.PWriteAt(fd, buf, off, took);
      Stepped(s, durable, c);
      durable := NewDurable(durable, s, c);
      if fd in fds {
        Descriptors(s, fd);
        SaveRange(WRITE, fd, Unsigned(off), Some(|buf|));
        assert records == s.records + Before(s, c) + After(s, c);
        var path := fds[fd].path;
        if took.Some? {
          var start := if fds[fd].append then |files[path]| else off;
          files := files[path := PWrite(files[path], start, buf[..took.value])];
        } else {
          assert files[path := files[path]] == files;
        }
      }
    }

    /** `ftruncate` and `ftruncate64`. */
    method Truncate(fd: nat, len: int, ok: bool)
      requires Ok() && Legal(View(), Call.Truncate(fd, len, ok))
      modifies this
      ensures Ok() && View() == Step(old(View()), Call.Truncate(fd, len, ok))
      ensures durable == NewDurable(old(durable), old(View()), Call.Truncate(fd, len, ok))
      ensures old(Rewinds()) && Keeps(old(View()), Call.Truncate(fd, len, ok)) ==> Rewinds()
    {
      hide Saved, EncodeAll, FTruncate, Rewindable, Valid, Keeps, NewDurable;
      ghost var s, c := View(), Call.Truncate(fd, len, ok);
      Stepped(s, durable, c);
      durable := NewDurable(durable, s, c);
      if fd in fds {
        Descriptors(s, fd);
        SaveRange(TRUNCATE, fd, Unsigned(len), None);
        assert records == s.records + Before(s, c) + After(s, c);
        var path := fds[fd].path;
        if ok {
          files := files[path := FTruncate(files[path], len)];
        } else {
          assert files[path := files[path]] == files;
        }
      }
    }

    /** `fallocate` and `fallocate64`. */
    method Allocate(fd: nat, mode: Mode, off: int, len: int, ok: bool)
      requires Ok() && Legal(View(), Call.Allocate(fd, mode, off, len, ok))
      modifies this
      ensures Ok() && View() == Step(old(View()), Call.Allocate(fd, mode, off, len, ok))
      ensures durable == NewDurable(old(durable), old(View()), Call.Allocate(fd, mode, off, len, ok))
      ensures old(Rewinds()) && Keeps(old(View()), Call.Allocate(fd, mode, off, len, ok)) ==> Rewinds()
    {
      hide Saved, EncodeAll, Allocated, Rewindable, Valid, Keeps, NewDurable;
      ghost var s, c := View(), Call.Allocate(fd, mode, off, len, ok);
      Stepped(s, durable, c);
      durable := NewDurable(durable, s, c);
      if fd in fds {
        Descriptors(s, fd);
        if mode.collapse || mode.insert {
          SaveRange(WRITE, fd, Unsigned(off), None);
        } else if mode.punchHole || mode.zeroRange || mode.unshare {
          SaveRange(WRITE, fd, Unsigned(off), Some(Unsigned(len)));
        } else {
          SaveRange(WRITE, fd, Unsigned(off), Some(0));
        }
        assert records == s.records + Before(s, c) + After(s, c);
        var path := fds[fd].path;
        if ok {
          files := files[path := Allocated(files[path], mode, off, len)];
        } else {
          assert files[path := files[path]] == files;
        }
      }
    }

    /** `fsync` and `fdatasync`: a successful one is logged. */
    method Sync(fd: nat, ok: bool)
      requires Ok()
      modifies this
      ensures Ok() && View() == Step(old(View()), Call.Sync(fd, ok))
      ensures durable == NewDurable(old(durable), old(View()), Call.Sync(fd, ok))
      ensures old(Rewinds()) ==> Rewinds()
    {
      hide EncodeAll, Valid, Rewindable;
      ghost var s, c := View(), Call.Sync(fd, ok);
      Stepped(s, durable, c);
      durable := NewDurable(durable, s, c);
      BeforeEmpty(s, c);
      if ok && fd in fds {
        assert Tracked(s, fd) by { Descriptors(s, fd); }
        Emit(SYNC, fds[fd].path, 0, [], 0);
      }
      assert records == s.records + Before(s, c) + After(s, c);
    }

    method Close(fd: nat)
      requires Ok()
      modifies this
      ensures Ok() && View() == Step(old(View()), Call.Close(fd))
      ensures durable == NewDurable(old(durable), old(View()), Call.Close(fd))
      ensures old(Rewinds()) ==> Rewinds()
    {
      hide EncodeAll, Rewindable;
      ghost var s, c := View(), Call.Close(fd);
      Stepped(s, durable, c);
      durable := NewDurable(durable, s, c);
      fds := fds - {fd};
      assert records == s.records + Before(s, c) + After(s, c);
    }

    /** The power cut, after whole calls: what the replay of this machine's
        log leaves on its disk. */
    method PowerCut() returns (disk: Files)
      requires Ok()
      ensures disk == Rewound(files, BookOf(View()))
      ensures Rewinds() ==> disk == durable
    {
      hide Rewound, EncodeAll, Parse;
      disk := ReplayLog(log, files);
      assert log + [] == log;
      ParseEncoded(records, []);
    }
  }

  lemma Stepped(s: State, durable: Files, c: Call)
    requires Valid(s) && Legal(s, c)
    ensures Valid(Step(s, c))
    ensures Rewindable(s, durable) && Keeps(s, c) ==> Rewindable(Step(s, c), NewDurable(durable, s, c))
  {
    StepValid(s, c);
    if Rewindable(s, durable) && Keeps(s, c) {
      StepRewinds(s, durable, c);
    }
  }

  lemma Descriptors(s: State, fd: nat)
    requires Valid(s) && fd in s.fds
    ensures Tracked(s, fd) && |s.files[s.fds[fd].path]| < OFF_MAX && s.fds[fd].pos < U64
  {}

  lemma ChunksStep(kind: byte, path: Path, f: Content, readable: bool, pos: nat, end: nat)
    requires |path| < 4096 && end <= |f|
    ensures pos >= end ==> Chunks(kind, path, f, readable, pos, end) == []
    ensures pos < end ==>
              var keep := Min(end - pos, ChunkSize(path));
              Chunks(kind, path, f, readable, pos, end) ==
              [Record(kind, path, pos, |f|, KeptBytes(f, readable, pos, keep))]
              + Chunks(kind, path, f, readable, pos + ChunkSize(path), end)
  {}
}
