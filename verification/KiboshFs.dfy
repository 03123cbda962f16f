/**
 The file system object: the control file (open, release) and the data path (read, write).
 Each operation is tied to the steps of the control protocol that it performs.
 */
module KiboshFs {
  import opened CText
  import opened Fault
  import opened FaultParser
  import opened FaultEngine
  import opened Io
  import opened Control
  import opened ControlRuns
  import FaultText
  import FaultPrinter
  import JsonGrammar

  const EIO := 5

  // ---- the transfer loops of the data path

  /** What the loop of kibosh_read leaves in `ret`, with `off` of `total` bytes read and `last` the latest transfer. */
  function ReadResult(total: nat, size: nat, off: nat, last: int, script: seq<Transfer>): int
    requires off <= total <= size
    decreases total - off, |script|
  {
    if off == size then last
    else if off == total then off
    else
      var n := Moves(script, total - off);
      if n < 0 then n else ReadResult(total, size, off + n, n, Later(script, total - off))
  }

  /** A request that several transfers fill reports only the last of them. */
  lemma {:induction false} ReadsLast(total: nat, off: nat, last: int, script: seq<Transfer>)
    requires 0 < off < total && Smooth(script)
    ensures 0 < ReadResult(total, total, off, last, script) < total
    decreases total - off
  {
    var n := Moves(script, total - off);
    if off + n < total {
      ReadsLast(total, off + n, n, Later(script, total - off));
    }
  }

  lemma {:induction false} ReadsToEnd(total: nat, size: nat, off: nat, last: int, script: seq<Transfer>)
    requires off <= total < size && Smooth(script)
    ensures ReadResult(total, size, off, last, script) == total
    decreases total - off
  {
    if off < total {
      var n := Moves(script, total - off);
      ReadsToEnd(total, size, off + n, n, Later(script, total - off));
    }
  }

  /** kibosh_read reports all bytes it found exactly when it met the end of the file or filled the request at once. */
  lemma ReadReportsAll(total: nat, size: nat, script: seq<Transfer>)
    requires total <= size && Smooth(script)
    ensures ReadResult(total, size, 0, 0, script) == total <==> total < size || Moves(script, total) == total
  {
    if total < size {
      ReadsToEnd(total, size, 0, 0, script);
    } else if total > 0 {
      var n := Moves(script, total);
      assert n > 0;
      assert ReadResult(total, size, 0, 0, script) == ReadResult(total, size, n, n, Later(script, total));
      if n < total {
        ReadsLast(total, n, n, Later(script, total));
      }
    }
  }

  /** Two bytes, read one at a time, are reported as one. */
  lemma ReadMisreports()
    ensures Smooth([Short(1)]) && ReadResult(2, 2, 0, 0, [Short(1)]) == 1
  {
    assert Later([Short(1)], 2) == [];
    assert ReadResult(2, 2, 1, 1, []) == ReadResult(2, 2, 2, 1, []) == 1;
  }

  /** How many of n bytes are unread after these transfers, each of which moves at least one byte. */
  function Unread(n: nat, shorts: seq<Transfer>): (r: nat)
    requires Smooth(shorts)
    ensures r <= n
  {
    if n == 0 || shorts == [] then n
    else
      var limit := shorts[0].limit;
      Unread(if limit < 1 then n - 1 else if n < limit then 0 else n - limit, shorts[1..])
  }

  /** A transfer that fails while bytes are unread decides the result, whatever was read before it. */
  lemma {:induction false} ReadFails(total: nat, size: nat, off: nat, last: int, shorts: seq<Transfer>, f: Transfer,
                                     more: seq<Transfer>)
    requires off <= total <= size && Smooth(shorts) && !f.Short? && Unread(total - off, shorts) > 0
    ensures ReadResult(total, size, off, last, shorts + [f] + more) == if f.Interrupted? then -EINTR else 0 - f.errno
    decreases |shorts|
  {
    var script := shorts + [f] + more;
    if shorts != [] {
      var n := Moves(script, total - off);
      assert script[0] == shorts[0] && script[1..] == shorts[1..] + [f] + more;
      ReadFails(total, size, off + n, n, shorts[1..], f, more);
    }
  }

  /** The loop of kibosh_read: the bytes found, and the result of ReadResult for them. */
  method PreadLoop(k: Kernel, fd: int, buf: array<char>, size: nat, offset: nat) returns (ret: int, off: nat)
    requires fd in k.files && size <= buf.Length
    modifies k`script, buf
    ensures var found := Found(k.files[fd].bytes, offset, size);
            && ret == ReadResult(|found|, size, 0, 0, old(k.script))
            && off <= |found| && (ret >= 0 ==> off == |found| && ret <= off)
            && buf[..] == found[..off] + old(buf[off..])
  {
    hide Found, Moves, Later, ReadResult, Filled;
    ghost var bytes := k.files[fd].bytes;
    ghost var found, before := Found(bytes, offset, size), buf[..];
    ret, off := 0, 0;
    FilledNothing(bytes, offset, size, before);
    FilledIs(bytes, offset, size, 0, before, buf[..]);
    while off < size
      invariant off <= |found| <= size && 0 <= ret <= off
      invariant ReadResult(|found|, size, 0, 0, old(k.script)) == ReadResult(|found|, size, off, ret, k.script)
      invariant Filled(bytes, offset, size, off, before, buf[..])
      decreases size - off
    {
      ReadTurn(|found|, size, off, ret, k.script);
      var n := PreadChunk(k, fd, buf, size, offset, off, before);
      ret := n;
      FilledIs(bytes, offset, size, if ret < 0 then off else off + ret, before, buf[..]);
      if ret < 0 {
        return;
      } else if ret == 0 {
        ret := off;
        return;
      }
      off := off + ret;
    }
    ReadTurn(|found|, size, off, ret, k.script);
    FilledIs(bytes, offset, size, off, before, buf[..]);
  }

  lemma FilledIs(bytes: string, offset: nat, size: nat, off: nat, before: string, now: string)
    requires Filled(bytes, offset, size, off, before, now)
    ensures var found := Found(bytes, offset, size);
            off <= |found| <= size <= |before| && now == found[..off] + before[off..]
  {
    hide Found;
  }

  method PreadChunk(k: Kernel, fd: int, buf: array<char>, size: nat, offset: nat, off: nat, ghost before: string)
    returns (ret: int)
    requires fd in k.files && size <= buf.Length && off < size
    requires Filled(k.files[fd].bytes, offset, size, off, before, buf[..])
    modifies k`script, buf
    ensures var found := Found(k.files[fd].bytes, offset, size);
            && ret == Moves(old(k.script), |found| - off) && k.script == Later(old(k.script), |found| - off)
            && Filled(k.files[fd].bytes, offset, size, if ret < 0 then off else off + ret, before, buf[..])
  {
    hide Found, Moves, Later, Filled;
    ghost var was := buf[..];
    ret := k.Pread(fd, buf, off, size - off, offset + off);
    FilledMore(k.files[fd].bytes, offset, size, off, before, was, if ret < 0 then 0 else ret, buf[..]);
  }

  lemma ReadTurn(total: nat, size: nat, off: nat, last: int, script: seq<Transfer>)
    requires off <= total <= size
    ensures ReadResult(total, size, off, last, script) ==
            if off == size then last
            else if off == total then off
            else
              var n := Moves(script, total - off);
              if n < 0 then n else ReadResult(total, size, off + n, n, Later(script, total - off))
  {
  }

  /** The loop of kibosh_write: any error ends it, and what was written by then is reported. */
  method PwriteLoop(k: Kernel, fd: int, buf: array<char>, size: nat, offset: nat) returns (off: nat)
    requires fd in k.files && size <= buf.Length
    modifies k`script, k`files
    ensures off <= size && Wrote(old(k.files), offset, k.files, fd, buf[..off])
    ensures Smooth(old(k.script)) ==> off == size
  {
    hide Overwrite, Later;
    ghost var files := k.files;
    WriteNothing(files[fd].bytes, offset);
    assert buf[..0] == "";
    off := 0;
    while off < size
      invariant off <= size && fd in k.files && Wrote(files, offset, k.files, fd, buf[..off])
      invariant Smooth(old(k.script)) ==> Smooth(k.script)
      decreases size - off
    {
      ghost var mid := k.files;
      SmoothLater(k.script, size - off);
      var ret := k.Pwrite(fd, buf, off, size - off, offset + off);
      if ret < 0 {
        break;
      }
      WroteMore(files, offset, mid, k.files, fd, buf[..off], buf[off..off + ret]);
      assert buf[..off] + buf[off..off + ret] == buf[..off + ret];
      off := off + ret;
    }
  }

  lemma SmoothLater(script: seq<Transfer>, n: nat)
    ensures Smooth(script) ==> Smooth(Later(script, n)) && Moves(script, n) >= 0
  {
  }

  // ---- the file system

  class FileSystem {
    const k: Kernel
    const rng: Rng
    var controlFd: int
    var faults: seq<Fault>
    var curControlJson: string
    const controlBuf: array<char>
    /** The live kibosh_file objects, by address. */
    var handles: map<int, Handle>

    ghost predicate Valid()
      reads this, k, rng
    {
      controlBuf.Length == CONTROL_BUF_LEN && k.offsets.Keys == k.files.Keys && Descriptors(State())
    }

    /** The state of the control protocol. */
    ghost function State(): Fs
      reads this, k, rng
    {
      Fs(k.files, controlFd, curControlJson, faults, handles, rng.next)
    }

    constructor (k: Kernel, rng: Rng, controlFd: int, text: string)
      ensures this.k == k && this.rng == rng && this.controlFd == controlFd && curControlJson == text
      ensures faults == [] && handles == map[] && fresh(controlBuf) && controlBuf.Length == CONTROL_BUF_LEN
    {
      this.k := k;
      this.rng := rng;
      this.controlFd := controlFd;
      this.faults := [];
      this.curControlJson := text;
      this.handles := map[];
      this.controlBuf := new char[CONTROL_BUF_LEN];
    }

    /** kibosh_fs_alloc: either the initial state, or an error and no descriptor left open. */
    static method Alloc(k: Kernel, rng: Rng, fd: int, g: real -> JsonGrammar.Numeral)
      returns (ret: int, fs: Option<FileSystem>)
      requires k.files == map[] && k.offsets == map[]
      modifies k
      ensures ret < 0 ==> fs.None? && k.files == map[] && k.offsets == map[]
      ensures ret >= 0 ==>
                && fs.Some? && fresh(fs.value) && fs.value.k == k && fs.value.rng == rng && fs.value.Valid()
                && fresh(fs.value.controlBuf) && fs.value.State() == Initial(fd, rng.next)
      ensures Reliable(old(k.script)) ==> ret >= 0
    {
      hide FaultText.FaultsUnparse, Overwrite, Reliable;
      k.MemfdCreate(fd);
      var buf := FaultPrinter.UnparseFaults([], g);
      FaultText.UnparseNothing(g);
      assert buf[..buf.Length - 1] == EMPTY_TEXT;
      ret := SafeWrite(k, fd, buf, buf.Length - 1);
      if ret < 0 {
        k.Close(fd);
        assert k.files == map[] && k.offsets == map[];
        return ret, None;
      }
      var it := new FileSystem(k, rng, fd, buf[..buf.Length - 1]);
      OverwriteEmpty(EMPTY_TEXT);
      assert k.files == map[fd := File(EMPTY_TEXT, true)];
      return 0, Some(it);
    }

    /** kibosh_fs_accessor_fd_alloc: a new memfd, holding what the control file holds if it is to be populated. */
    method AccessorAlloc(populate: bool, fd: int) returns (ret: int)
      requires Valid() && fd >= 0 && fd !in k.files
      modifies k
      ensures k.offsets.Keys == k.files.Keys
      ensures ret < 0 ==> k.files == old(k.files)
      ensures ret >= 0 ==>
                && ret == fd
                && k.files == old(k.files)[fd := File(if populate then old(k.files)[controlFd].bytes else "", true)]
      ensures Reliable(old(k.script)) ==> ret >= 0
    {
      hide Overwrite, Reliable;
      k.MemfdCreate(fd);
      if populate {
        k.Rewind(controlFd);
        ret := Duplicate(k, fd, controlFd);
        if ret < 0 {
          k.Close(fd);
          assert k.files == old(k.files);
          return;
        }
        OverwriteEmpty(old(k.files)[controlFd].bytes);
        assert Rest(old(k.files)[controlFd].bytes, 0) == old(k.files)[controlFd].bytes;
        k.Rewind(fd);
      }
      return fd;
    }

    /**
     kibosh_open_control_file_impl. Its failure exit frees the file object and then returns the descriptor field of
     it; `freed` is what that memory holds by then, which may be anything.
     */
    method OpenControl(path: string, trunc: bool, h: int, fd: int, freed: int) returns (ret: int)
      requires Valid() && fd >= 0 && fd !in k.files && h !in handles
      modifies this`handles, k
      ensures Valid()
      ensures h in handles ==>
                && ret == 0 && Enabled(old(State()), MemfdCreate(h, fd, path))
                && var s := Step(rng.o, old(State()), MemfdCreate(h, fd, path));
                   var e := if trunc then LeaveEmpty(h) else Populate(h);
                   Enabled(s, e) && State() == Step(rng.o, s, e)
      ensures h !in handles ==> State() == old(State()) && ret == freed
      ensures Reliable(old(k.script)) ==> h in handles
    {
      hide Reliable;
      ghost var s := State();
      var r := AccessorAlloc(!trunc, fd);
      if r < 0 {
        assert State() == s;
        return freed;
      }
      handles := handles[h := Handle(Accessor, path, r)];
      AddKeeps(s, h, fd, handles[h], k.files[fd]);
      return 0;
    }

    /** kibosh_fs_accessor_fd_release: closes one descriptor, and installs exactly when the verdict says so. */
    method AccessorRelease(fd: int) returns (ret: int)
      requires Valid() && fd in k.files && fd != controlFd
      modifies this`faults, this`curControlJson, this`controlFd, k, controlBuf
      ensures ret <= 0 && k.offsets.Keys == k.files.Keys
      ensures var verdict := Verdict(old(curControlJson), old(k.files)[fd].bytes);
              if ret == 0 && verdict.Some? then
                && curControlJson == TextOf(old(k.files)[fd].bytes) && faults == verdict.value && controlFd == fd
                && k.files == old(k.files) - {old(controlFd)}
              else
                && curControlJson == old(curControlJson) && faults == old(faults) && controlFd == old(controlFd)
                && k.files == old(k.files) - {fd}
      ensures var text := TextOf(old(k.files)[fd].bytes);
              Reliable(old(k.script)) ==>
                ret == if text == old(curControlJson) || FaultsParse(text).Some? then 0 else -EIO
    {
      hide FaultsParse, CString, Reliable;
      k.Rewind(fd);
      ret := ReadString(k, fd, controlBuf);
      var toClose := fd;
      if ret == 0 {
        var text := CString(controlBuf[..]);
        if curControlJson != text {
          var r, log := ParseFaults(text);
          if r.None? {
            ret := -EIO;
          } else {
            curControlJson := text;
            faults := r.value;
            toClose, controlFd := controlFd, toClose;
          }
        }
      }
      k.Close(toClose);
    }

    /** kibosh_release: the steps Release and Close of the protocol; data files are just closed. */
    method Release(h: int) returns (ret: int)
      requires Valid() && h in handles && handles[h].stage in {Accessor, Normal}
      modifies this, k, controlBuf
      ensures Valid() && ret <= 0
      ensures var s := old(State());
              if s.handles[h].stage == Normal then State() == Drop(s, h)
              else exists failed :: State() == Drop(Released(s, h, failed), h)
      ensures old(handles)[h].stage == Accessor && ret == 0 ==> State() == Drop(Released(old(State()), h, false), h)
    {
      hide Verdict, TextOf, Descriptors;
      ghost var s := State();
      HandleOpen(s, h);
      var fd := handles[h].fd;
      if handles[h].stage == Normal {
        k.Close(fd);
        ret := 0;
        handles := handles - {h};
        DropKeeps(s, h);
      } else {
        ret := AccessorRelease(fd);
        handles := handles - {h};
        ghost var failed := ret != 0;
        ReleaseState(s, State(), h, ret == 0);
        DescriptorsKept(rng.o, s, Control.Release(h, failed));
        DropKeeps(Released(s, h, failed), h);
        assert State() == Drop(Released(s, h, failed), h);
      }
    }

    /** The section of kibosh_read under the lock, on the first `got` bytes of buf. */
    method InjectRead(h: int, buf: array<char>, got: nat) returns (ret: int, delayMs: int)
      requires Valid() && h in handles && handles[h].stage in {Accessor, Normal} && 0 < got <= buf.Length
               && buf != controlBuf
      modifies this`faults, rng, buf
      ensures Valid() && Enabled(old(State()), FaultRead(h, old(buf[..got])))
      ensures State() == Step(rng.o, old(State()), FaultRead(h, old(buf[..got])))
      ensures Served(buf[..got], ret, delayMs) == Serve(rng.o, old(State()), h, FaultEngine.Read, old(buf[..got]))
      ensures buf[got..] == old(buf[got..])
    {
      hide Descriptors, ReadApplied, WriteApplied, First;
      ghost var s := State();
      HandleOpen(s, h);
      ret, delayMs := got, 0;
      var r := FindFirst(faults, handles[h].path, FaultEngine.Read, rng);
      HitFound(rng.o, s, h, FaultEngine.Read, r, rng.next);
      if r.Some? {
        var f;
        f, ret, delayMs := ApplyRead(faults[r.value], buf, got, rng);
        faults := faults[r.value := f];
      }
      SameHandlesKeeps(s, State());
    }

    /** kibosh_read: nothing is injected, drawn or counted down unless bytes were read. */
    method Read(h: int, buf: array<char>, size: nat, offset: nat) returns (ret: int, delayMs: int)
      requires Valid() && h in handles && handles[h].stage in {Accessor, Normal} && size <= buf.Length
               && buf != controlBuf
      modifies this`faults, k`script, rng, buf
      ensures Valid()
      ensures var s := old(State());
              var found := Found(s.files[s.handles[h].fd].bytes, offset, size);
              var got := ReadResult(|found|, size, 0, 0, old(k.script));
              if got <= 0 then ret == got && delayMs == 0 && State() == s
              else
                && got <= |found| && Enabled(s, FaultRead(h, found[..got]))
                && State() == Step(rng.o, s, FaultRead(h, found[..got]))
                && var served := Serve(rng.o, s, h, FaultEngine.Read, found[..got]);
                   && ret == served.ret && delayMs == served.delayMs
                   && buf[..] == served.buf + found[got..] + old(buf[|found|..])
      ensures var s := old(State());
              var found := Found(s.files[s.handles[h].fd].bytes, offset, size);
              var got := ReadResult(|found|, size, 0, 0, old(k.script));
              got > 0 ==> Reads(rng.o, s, h, found, got, old(buf[|found|..]), ret, delayMs, buf[..])
      ensures var s := old(State());
              var found := Found(s.files[s.handles[h].fd].bytes, offset, size);
              var got := ReadResult(|found|, size, 0, 0, old(k.script));
              got > 0 && Spared(s, h, FaultEngine.Read) ==>
                ret == got && delayMs == 0 && buf[..] == found + old(buf[|found|..]) && State() == s
    {
      hide Found, ReadResult, Descriptors, Serve, Step, Enabled, Reads, Touches;
      HandleOpen(State(), h);
      ghost var found := Found(k.files[handles[h].fd].bytes, offset, size);
      var off;
      ret, off := PreadLoop(k, handles[h].fd, buf, size, offset);
      delayMs := 0;
      if ret <= 0 {
        return;
      }
      ghost var got, was := ret, buf[..];
      Sliced(found, old(buf[|found|..]), was, got);
      ret, delayMs := InjectRead(h, buf, ret);
      Joined(buf[..], got, found[got..], old(buf[|found|..]));
      ServedReads(rng.o, old(State()), h, found, got, old(buf[|found|..]), ret, delayMs, buf[..]);
      UntouchedRead(rng.o, old(State()), h, found, got, old(buf[|found|..]), ret, delayMs, buf[..]);
    }

    /** The section of kibosh_write under the lock; the bytes to write are the caller's or a private copy. */
    method InjectWrite(h: int, buf: array<char>) returns (effective: array<char>, ret: int, delayMs: int)
      requires Valid() && h in handles && handles[h].stage in {Accessor, Normal}
      modifies this`faults, rng
      ensures Valid() && Enabled(old(State()), FaultWrite(h, buf[..]))
      ensures State() == Step(rng.o, old(State()), FaultWrite(h, buf[..]))
      ensures var served := Serve(rng.o, old(State()), h, FaultEngine.Write, buf[..]);
              && effective[..] == served.buf && effective.Length == buf.Length && delayMs == served.delayMs
              && (ret < 0 <==> served.ret < 0) && (ret < 0 ==> ret == served.ret)
    {
      hide Descriptors, ReadApplied, WriteApplied, First;
      ghost var s := State();
      HandleOpen(s, h);
      effective, ret, delayMs := buf, 0, 0;
      var r := FindFirst(faults, handles[h].path, FaultEngine.Write, rng);
      HitFound(rng.o, s, h, FaultEngine.Write, r, rng.next);
      if r.Some? {
        var f;
        f, effective, ret, delayMs := ApplyWrite(faults[r.value], buf, rng);
        faults := faults[r.value := f];
      }
      ServeWrite(rng.o, s, h, buf[..]);
      SameHandlesKeeps(s, State());
    }

    /** kibosh_write: if no fault refuses it, exactly the first `ret` bytes of the effective buffer are in the file. */
    method Write(h: int, buf: array<char>, offset: nat) returns (ret: int, delayMs: int)
      requires Valid() && h in handles && handles[h].stage in {Accessor, Normal}
      modifies this`faults, k`script, k`files, rng
      ensures Valid()
      ensures var s := old(State());
              && Enabled(s, FaultWrite(h, buf[..]))
              && var served, s' := Serve(rng.o, s, h, FaultEngine.Write, buf[..]),
                 Step(rng.o, s, FaultWrite(h, buf[..]));
                 && delayMs == served.delayMs && |served.buf| == buf.Length
                 && if served.ret < 0 then ret == served.ret && State() == s'
                    else
                      && 0 <= ret <= buf.Length && Enabled(s', Pwrite(h, offset, served.buf[..ret]))
                      && State() == Step(rng.o, s', Pwrite(h, offset, served.buf[..ret]))
                      && (Smooth(old(k.script)) ==> ret == buf.Length)
      ensures Writes(rng.o, old(State()), h, buf[..], offset, ret, delayMs, State().files)
      ensures var s := old(State());
              Spared(s, h, FaultEngine.Write) ==>
                && 0 <= ret <= buf.Length && delayMs == 0 && (Smooth(old(k.script)) ==> ret == buf.Length)
                && State().faults == s.faults && Stored(s, h, offset, buf[..ret], State().files)
    {
      hide Descriptors, Serve, Injected, Overwrite, Smooth, Writes, Touches;
      HandleOpen(State(), h);
      var effective;
      effective, ret, delayMs := InjectWrite(h, buf);
      InjectedFrame(rng.o, old(State()), h, FaultEngine.Write, buf[..]);
      if ret < 0 {
        ServedWrites(rng.o, old(State()), h, buf[..], offset, ret, delayMs, State().files);
        UntouchedWrite(rng.o, old(State()), h, buf[..]);
        return;
      }
      ghost var s' := State();
      HandleOpen(s', h);
      ret := PwriteLoop(k, handles[h].fd, effective, buf.Length, offset);
      SameHandlesKeeps(s', State());
      ServedWrites(rng.o, old(State()), h, buf[..], offset, ret, delayMs, State().files);
      UntouchedWrite(rng.o, old(State()), h, buf[..]);
    }
  }

  lemma Sliced(found: string, rest: string, was: string, got: nat)
    requires was == found[..|found|] + rest && got <= |found|
    ensures was[..got] == found[..got] && was[got..] == found[got..] + rest
  {
  }

  lemma Joined(now: string, got: nat, more: string, rest: string)
    requires got <= |now| && now[got..] == more + rest
    ensures now == now[..got] + more + rest
  {
    assert now == now[..got] + now[got..];
  }

  /** What an operation hands on: the bytes, the result and the delay. */
  datatype Served = Served(buf: string, ret: int, delayMs: int)

  function Serve(o: Oracle, s: Fs, h: int, op: Op, buf: string): Served
    requires h in s.handles
  {
    var (r, n) := Hit(o, s, h, op);
    match r
    case None => Served(buf, |buf|, 0)
    case Some(i) =>
      var a := if op == FaultEngine.Read then ReadApplied(s.faults[i], buf, o, n)
               else WriteApplied(s.faults[i], buf, o, n);
      Served(a.buf, a.ret, a.delayMs)
  }

  lemma HitFound(o: Oracle, s: Fs, h: int, op: Op, r: Option<nat>, n: nat)
    requires h in s.handles && IsFirst(s.faults, s.handles[h].path, op, o, s.next, r, n)
    ensures Hit(o, s, h, op) == (r, n)
  {
    hide IsFirst, First;
    FirstIsFirst(s.faults, s.handles[h].path, op, o, s.next, 0);
    var f := First(s.faults, s.handles[h].path, op, o, s.next, 0);
    FirstUnique(s.faults, s.handles[h].path, op, o, s.next, r, n, f.0, f.1);
  }

  // ---- the outcomes in terms of prefixes, suffixes and draws

  /** r is the earliest fault that acts on this operation, `after` the draws made by then. */
  ghost predicate Meets(o: Oracle, s: Fs, h: int, op: Op, r: Option<nat>, after: nat)
    requires h in s.handles
  {
    Earliest(s.faults, s.handles[h].path, op, o, s.next, r, after)
  }

  lemma MeetsIs(o: Oracle, s: Fs, h: int, op: Op, r: Option<nat>, after: nat)
    requires h in s.handles
    ensures Meets(o, s, h, op, r, after) <==> Hit(o, s, h, op) == (r, after)
  {
    hide First, IsFirst, Earliest;
    var f := First(s.faults, s.handles[h].path, op, o, s.next, 0);
    FirstIsFirst(s.faults, s.handles[h].path, op, o, s.next, 0);
    FirstIsEarliest(s.faults, s.handles[h].path, op, o, s.next, f.0, f.1);
    FirstIsEarliest(s.faults, s.handles[h].path, op, o, s.next, r, after);
    if Meets(o, s, h, op, r, after) {
      FirstUnique(s.faults, s.handles[h].path, op, o, s.next, r, after, f.0, f.1);
    }
  }

  /** What is served: everything at once if no fault acts, and otherwise the answer of the earliest that does. */
  ghost predicate Serves(o: Oracle, s: Fs, h: int, op: Op, bytes: string, out: string, ret: int, delayMs: int)
    requires h in s.handles
  {
    exists r, after ::
      && Meets(o, s, h, op, r, after)
      && match r
         case None => out == bytes && ret == |bytes| && delayMs == 0
         case Some(i) => i < |s.faults| && Answers(s.faults[i], bytes, o, after, out, ret, delayMs)
  }

  /** There is exactly one outcome of the search. */
  lemma MeetsOne(o: Oracle, s: Fs, h: int, op: Op) returns (r: Option<nat>, after: nat)
    requires h in s.handles
    ensures Meets(o, s, h, op, r, after)
    ensures forall r', after' :: Meets(o, s, h, op, r', after') ==> r' == r && after' == after
  {
    hide Meets, Hit;
    r, after := Hit(o, s, h, op).0, Hit(o, s, h, op).1;
    MeetsIs(o, s, h, op, r, after);
    forall r', after' | Meets(o, s, h, op, r', after')
      ensures r' == r && after' == after
    {
      MeetsIs(o, s, h, op, r', after');
    }
  }

  lemma ServeIs(o: Oracle, s: Fs, h: int, op: Op, bytes: string)
    requires h in s.handles
    ensures var v := Serve(o, s, h, op, bytes); Serves(o, s, h, op, bytes, v.buf, v.ret, v.delayMs)
  {
    hide Answers, ReadApplied, WriteApplied, First, Earliest;
    var v := Serve(o, s, h, op, bytes);
    var (r, after) := Hit(o, s, h, op);
    MeetsIs(o, s, h, op, r, after);
    if r.Some? {
      FirstIsEarliest(s.faults, s.handles[h].path, op, o, s.next, r, after);
      FirstConcerns(s.faults, s.handles[h].path, op, o, s.next, r, after);
      AppliedAnswers(s.faults[r.value], bytes, o, after);
    }
  }

  /** The buffer after a read that got `got` of the bytes found: what is served of them, then the rest. */
  ghost predicate Reads(o: Oracle, s: Fs, h: int, found: string, got: nat, rest: string, ret: int, delayMs: int,
                        now: string)
    requires h in s.handles && got <= |found|
  {
    exists out ::
      && Serves(o, s, h, FaultEngine.Read, found[..got], out, ret, delayMs)
      && now == out + found[got..] + rest
  }

  lemma ServedReads(o: Oracle, s: Fs, h: int, found: string, got: nat, rest: string, ret: int, delayMs: int,
                    now: string)
    requires h in s.handles && got <= |found|
    requires var v := Serve(o, s, h, FaultEngine.Read, found[..got]);
             ret == v.ret && delayMs == v.delayMs && now == v.buf + found[got..] + rest
    ensures Reads(o, s, h, found, got, rest, ret, delayMs, now)
  {
    hide Serve, Serves;
    ServeIs(o, s, h, FaultEngine.Read, found[..got]);
  }

  ghost predicate Spared(s: Fs, h: int, op: Op)
    requires h in s.handles
  {
    forall j :: 0 <= j < |s.faults| ==> !Touches(s.faults[j], s.handles[h].path, op)
  }

  /** An operation on a path that no fault touches: everything is served, and nothing is drawn or counted down. */
  lemma SparedServes(o: Oracle, s: Fs, h: int, op: Op, bytes: string)
    requires h in s.handles && Spared(s, h, op)
    ensures Serve(o, s, h, op, bytes) == Served(bytes, |bytes|, 0) && Injected(o, s, h, op, bytes) == s
  {
    hide Earliest, Touches;
    Untouched(s.faults, s.handles[h].path, op, o, s.next);
    MeetsIs(o, s, h, op, None, s.next);
  }

  lemma UntouchedRead(o: Oracle, s: Fs, h: int, found: string, got: nat, rest: string, ret: int, delayMs: int,
                      now: string)
    requires h in s.handles && 0 < got <= |found|
    requires var v := Serve(o, s, h, FaultEngine.Read, found[..got]);
             ret == v.ret && delayMs == v.delayMs && now == v.buf + found[got..] + rest
    requires Enabled(s, FaultRead(h, found[..got]))
    ensures Spared(s, h, FaultEngine.Read) ==>
              && ret == got && delayMs == 0 && now == found + rest
              && Step(o, s, FaultRead(h, found[..got])) == s
  {
    if Spared(s, h, FaultEngine.Read) {
      hide Spared, Serve, Injected;
      SparedServes(o, s, h, FaultEngine.Read, found[..got]);
      assert found[..got] + found[got..] == found;
    }
  }

  /** The handle's file is overwritten with `data`, and no other file changes. */
  ghost predicate Stored(s: Fs, h: int, offset: nat, data: string, files: map<int, File>)
    requires h in s.handles && s.handles[h].fd in s.files
  {
    Wrote(s.files, offset, files, s.handles[h].fd, data)
  }

  /** A write: refused with an error and nothing stored, or the first `ret` bytes of what is served are stored. */
  ghost predicate Writes(o: Oracle, s: Fs, h: int, bytes: string, offset: nat, ret: int, delayMs: int,
                         files: map<int, File>)
    requires h in s.handles && s.handles[h].fd in s.files
  {
    exists out, code ::
      && Serves(o, s, h, FaultEngine.Write, bytes, out, code, delayMs)
      && if code < 0 then ret == code && files == s.files
         else 0 <= ret <= |out| == |bytes| && Stored(s, h, offset, out[..ret], files)
  }

  lemma ServedWrites(o: Oracle, s: Fs, h: int, bytes: string, offset: nat, ret: int, delayMs: int,
                     files: map<int, File>)
    requires h in s.handles && s.handles[h].fd in s.files
    requires var v := Serve(o, s, h, FaultEngine.Write, bytes);
             && delayMs == v.delayMs
             && if v.ret < 0 then ret == v.ret && files == s.files
                else 0 <= ret <= |v.buf| == |bytes| && Stored(s, h, offset, v.buf[..ret], files)
    ensures Writes(o, s, h, bytes, offset, ret, delayMs, files)
  {
    hide Serve, Serves, Stored;
    ServeIs(o, s, h, FaultEngine.Write, bytes);
  }

  lemma UntouchedWrite(o: Oracle, s: Fs, h: int, bytes: string)
    requires h in s.handles
    ensures Spared(s, h, FaultEngine.Write) ==>
              Serve(o, s, h, FaultEngine.Write, bytes) == Served(bytes, |bytes|, 0) &&
              Injected(o, s, h, FaultEngine.Write, bytes) == s
  {
    if Spared(s, h, FaultEngine.Write) {
      SparedServes(o, s, h, FaultEngine.Write, bytes);
    }
  }

  lemma ServeWrite(o: Oracle, s: Fs, h: int, buf: string)
    requires h in s.handles
    ensures |Serve(o, s, h, FaultEngine.Write, buf).buf| == |buf|
  {
    hide First, Corrupted;
    var (r, n) := Hit(o, s, h, FaultEngine.Write);
    if r.Some? && s.faults[r.value].WriteCorrupt? {
      var f := Counted(s.faults[r.value]);
      CorruptedLength(buf, f.mode, f.fraction, o, n);
    }
  }

  /**
   A write fault that drops only reports less to the code, which looks at the report only for an error: the protocol's
   steps store the caller's bytes unchanged, all of them if no transfer fails.
   */
  lemma DroppedWriteStored(o: Oracle, s: Fs, h: int, offset: nat, buf: string, k: nat)
    requires Enabled(s, FaultWrite(h, buf)) && Hit(o, s, h, FaultEngine.Write).0.Some? && k <= |buf|
    requires var f := Counted(s.faults[Hit(o, s, h, FaultEngine.Write).0.value]);
             f.WriteCorrupt? && f.mode == CORRUPT_DROP
    ensures var served := Serve(o, s, h, FaultEngine.Write, buf);
            served.buf == buf && 0 <= served.ret && (buf != "" ==> served.ret < |buf|)
    ensures var fd, e := s.handles[h].fd, Pwrite(h, offset, Serve(o, s, h, FaultEngine.Write, buf).buf[..k]);
            var s' := Step(o, s, FaultWrite(h, buf));
            && Enabled(s', e) && fd in Step(o, s', e).files
            && Step(o, s', e).files[fd].bytes == Overwrite(s.files[fd].bytes, offset, buf[..k])
            && (k == |buf| ==> Step(o, s', e).files[fd].bytes == Overwrite(s.files[fd].bytes, offset, buf))
  {
    hide First, Corrupted, Overwrite;
    var (r, n) := Hit(o, s, h, FaultEngine.Write);
    var f := Counted(s.faults[r.value]);
    CorruptedLength(buf, f.mode, f.fraction, o, n);
    InjectedFrame(o, s, h, FaultEngine.Write, buf);
    assert buf[..|buf|] == buf;
  }

  lemma HandleOpen(s: Fs, h: int)
    requires Descriptors(s) && h in s.handles
    ensures s.handles[h].fd in s.files && s.handles[h].fd != s.control
  {
  }

  lemma ReleaseState(s: Fs, s': Fs, h: int, ok: bool)
    requires Descriptors(s) && h in s.handles && s'.next == s.next && s'.handles == s.handles - {h}
    requires var fd := s.handles[h].fd;
             var verdict := Verdict(s.text, s.files[fd].bytes);
             if ok && verdict.Some? then
               && s'.text == TextOf(s.files[fd].bytes) && s'.faults == verdict.value && s'.control == fd
               && s'.files == s.files - {s.control}
             else s'.text == s.text && s'.faults == s.faults && s'.control == s.control && s'.files == s.files - {fd}
    ensures s' == Drop(Released(s, h, !ok), h)
  {
    hide Verdict, TextOf;
  }
}
