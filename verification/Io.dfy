/**
 Descriptors, and the loops that move whole buffers through them in spite of short
 transfers, interruptions and errors.
 */
module Io {
  import opened CText

  const EINTR := 4

  /** An error other than an interruption. */
  type Errno = e: int | e > 0 && e != EINTR witness 5

  /** What the kernel does with the next transfer: moves at most max(limit, 1) bytes, or fails. */
  datatype Transfer = Short(limit: nat) | Interrupted | Failed(errno: Errno)

  datatype File = File(bytes: string, memfd: bool)

  // ---- the effect of writing

  /** `bytes` with `data` written at `at`; a gap behind the end reads as zeros. */
  function Overwrite(bytes: string, at: nat, data: string): (r: string)
    ensures |r| == if data == [] || at + |data| < |bytes| then |bytes| else at + |data|
  {
    if data == [] then bytes
    else if |bytes| < at then bytes + seq(at - |bytes|, _ => NUL) + data
    else bytes[..at] + data + if at + |data| < |bytes| then bytes[at + |data|..] else []
  }

  /** Exactly the bytes of `data` change. */
  lemma OverwriteAt(bytes: string, at: nat, data: string, i: nat)
    requires i < |Overwrite(bytes, at, data)|
    ensures Overwrite(bytes, at, data)[i] ==
            if at <= i < at + |data| then data[i - at] else if i < |bytes| then bytes[i] else NUL
  {
  }

  /** Two writes that meet are one write. */
  lemma OverwriteMore(bytes: string, at: nat, data: string, more: string)
    ensures Overwrite(Overwrite(bytes, at, data), at + |data|, more) == Overwrite(bytes, at, data + more)
  {
    var l, r := Overwrite(Overwrite(bytes, at, data), at + |data|, more), Overwrite(bytes, at, data + more);
    if more == [] {
      assert data + more == data;
    } else {
      assert |l| == |r|;
      forall i | 0 <= i < |l|
        ensures l[i] == r[i]
      {
        OverwriteAt(bytes, at, data + more, i);
        OverwriteAt(Overwrite(bytes, at, data), at + |data|, more, i);
        if i < |Overwrite(bytes, at, data)| {
          OverwriteAt(bytes, at, data, i);
        }
      }
    }
  }

  function Min(a: nat, b: nat): nat {
    if a < b then a else b
  }

  /** The bytes a read of `n` bytes at `at` can find. */
  function Found(bytes: string, at: nat, n: nat): (r: string)
    ensures |r| <= n
  {
    if at >= |bytes| then [] else bytes[at..at + Min(n, |bytes| - at)]
  }

  /** What is found are the bytes of the file from the offset on, up to the count or the end of the file. */
  lemma FoundAt(bytes: string, at: nat, n: nat)
    ensures var found := Found(bytes, at, n);
            && |found| == (if at >= |bytes| then 0 else if n < |bytes| - at then n else |bytes| - at)
            && forall i :: 0 <= i < |found| ==> found[i] == bytes[at + i]
  {
  }

  /** A read that stops short finds the rest in the next one. */
  lemma FoundMore(bytes: string, at: nat, n: nat, k: nat)
    requires k <= |Found(bytes, at, n)|
    ensures Found(bytes, at, n) == Found(bytes, at, n)[..k] + Found(bytes, at + k, n - k)
  {
  }

  // ---- the kernel

  /** Transfers may be short or interrupted, but none fails for good. */
  predicate Reliable(script: seq<Transfer>) {
    forall i :: 0 <= i < |script| ==> !script[i].Failed?
  }

  /** What the next transfer makes of n bytes: how many it moves, or a negative error. */
  function Moves(script: seq<Transfer>, n: nat): (res: int)
    ensures res <= n && (res == 0 <==> n == 0)
    ensures Reliable(script) && res < 0 ==> res == -EINTR
  {
    if n == 0 then 0
    else if script == [] then n
    else
      match script[0]
      case Short(limit) => if limit < 1 then 1 else Min(limit, n)
      case Interrupted => -EINTR
      case Failed(errno) => 0 - errno
  }

  /** The script afterwards; asking for nothing does not use it up. */
  function Later(script: seq<Transfer>, n: nat): (r: seq<Transfer>)
    ensures |r| <= |script|
    ensures Moves(script, n) < 0 ==> |r| < |script|
    ensures Reliable(script) ==> Reliable(r)
  {
    if n == 0 || script == [] then script else script[1..]
  }

  /** No transfer fails. */
  predicate Smooth(script: seq<Transfer>) {
    forall i :: 0 <= i < |script| ==> script[i].Short?
  }

  /** Open descriptors and the script of the transfers to come; after the script all transfers are full. */
  class Kernel {
    var files: map<int, File>
    var offsets: map<int, nat>
    var script: seq<Transfer>

    constructor (script: seq<Transfer>)
      ensures files == map[] && offsets == map[] && this.script == script
    {
      files := map[];
      offsets := map[];
      this.script := script;
    }

    ghost predicate Open(fd: int)
      reads this
    {
      fd in files && fd in offsets
    }

    method Next(n: nat) returns (res: int)
      modifies this`script
      ensures res == Moves(old(script), n) && script == Later(old(script), n)
    {
      if n == 0 {
        return 0;
      }
      if script == [] {
        return n;
      }
      match script[0] {
        case Short(limit) => res := if limit < 1 then 1 else Min(limit, n);
        case Interrupted => res := -EINTR;
        case Failed(errno) => res := 0 - errno;
      }
      script := script[1..];
    }

    /** pread: reads into buf[pos..], up to n bytes at `at`. */
    method Pread(fd: int, buf: array<char>, pos: nat, n: nat, at: nat) returns (res: int)
      requires fd in files && pos + n <= buf.Length
      modifies this`script, buf
      ensures res < 0 ==> buf[..] == old(buf[..])
      ensures var found := Found(files[fd].bytes, at, n);
              && res == Moves(old(script), |found|) && script == Later(old(script), |found|)
              && (res >= 0 ==> buf[..] == old(buf[..pos]) + found[..res] + old(buf[pos + res..]))
    {
      var data := Found(files[fd].bytes, at, n);
      res := Next(|data|);
      if res > 0 {
        forall i | 0 <= i < res {
          buf[pos + i] := data[i];
        }
      }
    }

    /** pwrite */
    method Pwrite(fd: int, buf: array<char>, pos: nat, n: nat, at: nat) returns (res: int)
      requires fd in files && pos + n <= buf.Length
      modifies this`script, this`files
      ensures res == Moves(old(script), n) && script == Later(old(script), n)
      ensures res < 0 ==> files == old(files)
      ensures res >= 0 ==>
                var file := old(files)[fd];
                files == old(files)[fd := file.(bytes := Overwrite(file.bytes, at, buf[pos..pos + res]))]
    {
      res := Next(n);
      if res >= 0 {
        files := files[fd := files[fd].(bytes := Overwrite(files[fd].bytes, at, buf[pos..pos + res]))];
      }
    }

    /** read */
    method Read(fd: int, buf: array<char>, pos: nat, n: nat) returns (res: int)
      requires Open(fd) && pos + n <= buf.Length
      modifies this`script, this`offsets, buf
      ensures res < 0 ==> buf[..] == old(buf[..]) && offsets == old(offsets)
      ensures var found := Found(files[fd].bytes, old(offsets)[fd], n);
              && res == Moves(old(script), |found|) && script == Later(old(script), |found|)
              && (res >= 0 ==> buf[..] == old(buf[..pos]) + found[..res] + old(buf[pos + res..]))
      ensures res >= 0 ==> offsets == old(offsets)[fd := old(offsets)[fd] + res]
    {
      res := Pread(fd, buf, pos, n, offsets[fd]);
      if res >= 0 {
        offsets := offsets[fd := offsets[fd] + res];
      }
    }

    /** write */
    method Write(fd: int, buf: array<char>, pos: nat, n: nat) returns (res: int)
      requires Open(fd) && pos + n <= buf.Length
      modifies this
      ensures res == Moves(old(script), n) && script == Later(old(script), n)
      ensures res < 0 ==> files == old(files) && offsets == old(offsets)
      ensures res >= 0 ==>
                var file, at := old(files)[fd], old(offsets)[fd];
                && files == old(files)[fd := file.(bytes := Overwrite(file.bytes, at, buf[pos..pos + res]))]
                && offsets == old(offsets)[fd := old(offsets)[fd] + res]
    {
      res := Pwrite(fd, buf, pos, n, offsets[fd]);
      if res >= 0 {
        offsets := offsets[fd := offsets[fd] + res];
      }
    }

    /** lseek (fd, 0, SEEK_SET) */
    method Rewind(fd: int)
      requires Open(fd)
      modifies this`offsets
      ensures offsets == old(offsets)[fd := 0]
    {
      offsets := offsets[fd := 0];
    }

    /** memfd_create: some descriptor that is not open. */
    method MemfdCreate(fd: int)
      requires fd !in files
      modifies this`files, this`offsets
      ensures files == old(files)[fd := File("", true)] && offsets == old(offsets)[fd := 0]
    {
      files := files[fd := File("", true)];
      offsets := offsets[fd := 0];
    }

    method Close(fd: int)
      requires Open(fd)
      modifies this`files, this`offsets
      ensures files == old(files) - {fd} && offsets == old(offsets) - {fd}
    {
      files := files - {fd};
      offsets := offsets - {fd};
    }
  }

  // ---- whole transfers

  /** `now` is `before` after `data` was written through fd. */
  ghost predicate Wrote(before: map<int, File>, at: nat, now: map<int, File>, fd: int, data: string)
    requires fd in before
  {
    now == before[fd := before[fd].(bytes := Overwrite(before[fd].bytes, at, data))]
  }

  lemma WroteMore(before: map<int, File>, at: nat, mid: map<int, File>, now: map<int, File>, fd: int, data: string,
                  more: string)
    requires fd in before && Wrote(before, at, mid, fd, data) && Wrote(mid, at + |data|, now, fd, more)
    ensures Wrote(before, at, now, fd, data + more)
  {
    OverwriteMore(before[fd].bytes, at, data, more);
  }

  /** safe_write: all of the buffer, or an error after a part of it. */
  method SafeWrite(k: Kernel, fd: int, buf: array<char>, count: nat) returns (ret: int)
    requires k.Open(fd) && count <= buf.Length
    modifies k
    ensures ret <= 0 && (Reliable(old(k.script)) ==> ret == 0 && Reliable(k.script))
    ensures ret == 0 ==> Wrote(old(k.files), old(k.offsets)[fd], k.files, fd, buf[..count])
                         && k.offsets == old(k.offsets)[fd := old(k.offsets)[fd] + count]
    ensures ret < 0 ==> exists n: nat :: n < count && Wrote(old(k.files), old(k.offsets)[fd], k.files, fd, buf[..n])
    ensures ret < 0 ==> k.offsets.Keys == old(k.offsets).Keys
  {
    hide Overwrite, Moves, Later, Reliable;
    ghost var files, at := k.files, k.offsets[fd];
    assert Wrote(files, at, k.files, fd, buf[..0]) by {
      assert Overwrite(files[fd].bytes, at, "") == files[fd].bytes by {
        WriteNothing(files[fd].bytes, at);
      }
      assert buf[..0] == "";
    }
    var pos := 0;
    while pos < count
      invariant pos <= count && k.Open(fd) && (Reliable(old(k.script)) ==> Reliable(k.script))
      invariant Wrote(files, at, k.files, fd, buf[..pos])
      invariant k.offsets == old(k.offsets)[fd := at + pos]
      decreases count - pos, |k.script|
    {
      ghost var mid := k.files;
      var res := k.Write(fd, buf, pos, count - pos);
      if res < 0 {
        assert Wrote(files, at, k.files, fd, buf[..pos]);
        if res != -EINTR {
          return res;
        }
      } else {
        WroteMore(files, at, mid, k.files, fd, buf[..pos], buf[pos..pos + res]);
        assert buf[..pos] + buf[pos..pos + res] == buf[..pos + res];
        pos := pos + res;
      }
    }
    return 0;
  }

  lemma WriteNothing(bytes: string, at: nat)
    ensures Overwrite(bytes, at, "") == bytes
  {
  }

  /** safe_read: all there is up to the size of the buffer, or an error. */
  method SafeRead(k: Kernel, fd: int, buf: array<char>, count: nat) returns (ret: int)
    requires k.Open(fd) && count <= buf.Length
    modifies k`script, k`offsets, buf
    ensures Reliable(old(k.script)) ==> ret >= 0 && Reliable(k.script)
    ensures var found := Found(k.files[fd].bytes, old(k.offsets)[fd], count);
            ret >= 0 ==> && ret == |found| && buf[..] == found + old(buf[ret..])
                         && k.offsets == old(k.offsets)[fd := old(k.offsets)[fd] + ret]
    ensures ret < 0 ==> k.offsets.Keys == old(k.offsets).Keys && buf[count..] == old(buf[count..])
  {
    hide Found, Moves, Later, Reliable, Filled;
    ghost var bytes, at := k.files[fd].bytes, k.offsets[fd];
    ghost var found := Found(bytes, at, count);
    var cnt := 0;
    FilledNothing(bytes, at, count, buf[..]);
    while cnt < count
      invariant cnt <= |found| <= count && k.Open(fd) && (Reliable(old(k.script)) ==> Reliable(k.script))
      invariant Filled(bytes, at, count, cnt, old(buf[..]), buf[..])
      invariant k.offsets == old(k.offsets)[fd := at + cnt]
      decreases count - cnt, |k.script|
    {
      ghost var was := buf[..];
      var res := k.Read(fd, buf, cnt, count - cnt);
      FilledMore(bytes, at, count, cnt, old(buf[..]), was, if res < 0 then 0 else res, buf[..]);
      if res <= 0 {
        if res == 0 {
          FilledAll(bytes, at, count, cnt, old(buf[..]), buf[..]);
          return cnt;
        }
        if res != -EINTR {
          FilledKeeps(bytes, at, count, cnt, old(buf[..]), buf[..]);
          return res;
        }
      } else {
        cnt := cnt + res;
      }
    }
    FilledAll(bytes, at, count, cnt, old(buf[..]), buf[..]);
    return cnt;
  }

  /** The first `off` bytes found have been read. */
  ghost predicate Filled(bytes: string, offset: nat, size: nat, off: nat, before: string, now: string) {
    var found := Found(bytes, offset, size);
    && off <= |found| && size <= |before| && found == found[..off] + Found(bytes, offset + off, size - off)
    && now == found[..off] + before[off..]
  }

  lemma FilledNothing(bytes: string, offset: nat, size: nat, before: string)
    requires size <= |before|
    ensures Filled(bytes, offset, size, 0, before, before)
  {
    hide Found;
  }

  /** A transfer of n bytes more; n is 0 only if none are left, or if it failed. */
  lemma FilledMore(bytes: string, offset: nat, size: nat, off: nat, before: string, was: string, n: nat, now: string)
    requires Filled(bytes, offset, size, off, before, was)
    requires var rest := Found(bytes, offset + off, size - off);
             n <= |rest| && (n > 0 ==> now == was[..off] + rest[..n] + was[off + n..]) && (n == 0 ==> now == was)
    ensures |Found(bytes, offset + off, size - off)| == |Found(bytes, offset, size)| - off
    ensures Filled(bytes, offset, size, off + n, before, now)
  {
    hide Found;
    if n > 0 {
      FoundMore(bytes, offset, size, off + n);
      ReadStep(Found(bytes, offset, size), Found(bytes, offset + off, size - off), off, n, was, before, now);
    }
  }

  /** Nothing is left to read. */
  lemma FilledAll(bytes: string, offset: nat, size: nat, off: nat, before: string, now: string)
    requires Filled(bytes, offset, size, off, before, now)
             && (off == size || Found(bytes, offset + off, size - off) == "")
    ensures off == |Found(bytes, offset, size)| && now == Found(bytes, offset, size) + before[off..]
  {
    hide Found;
  }

  lemma FilledKeeps(bytes: string, offset: nat, size: nat, off: nat, before: string, now: string)
    requires Filled(bytes, offset, size, off, before, now)
    ensures |now| == |before| && now[size..] == before[size..]
  {
    hide Found;
  }

  lemma ReadStep(found: string, rest: string, cnt: nat, res: nat, was: string, before: string, now: string)
    requires cnt <= |found| && found == found[..cnt] + rest && res <= |rest| && |found| <= |before|
    requires was == found[..cnt] + before[cnt..]
    requires now == was[..cnt] + rest[..res] + was[cnt + res..]
    ensures now == found[..cnt + res] + before[cnt + res..]
  {
    assert found[..cnt + res] == found[..cnt] + rest[..res];
  }

  /** read_string_from_fd: a C string of at most length - 1 bytes. */
  method ReadString(k: Kernel, fd: int, buf: array<char>) returns (ret: int)
    requires k.Open(fd) && buf.Length >= 1
    modifies k`script, k`offsets, buf
    ensures ret <= 0 && k.offsets.Keys == old(k.offsets).Keys
    ensures Reliable(old(k.script)) ==> ret == 0 && Reliable(k.script)
    ensures ret == 0 ==>
              && NUL in buf[..]
              && CString(buf[..]) == CString(Found(k.files[fd].bytes, old(k.offsets)[fd], buf.Length - 1))
  {
    hide Found, Reliable;
    var n := SafeRead(k, fd, buf, buf.Length - 1);
    if n < 0 {
      return n;
    }
    buf[n] := NUL;
    ghost var found := Found(k.files[fd].bytes, old(k.offsets)[fd], buf.Length - 1);
    assert buf[..] == found + [NUL] + buf[n + 1..];
    CStringCut(found, buf[n + 1..]);
    assert buf[..][n] == NUL;
    return 0;
  }

  /** One round of duplicate_fd: the number of bytes moved, or an error. */
  method CopyChunk(k: Kernel, dest: int, src: int, buf: array<char>) returns (ret: int)
    requires k.Open(dest) && k.Open(src) && dest != src && buf.Length == 128
    modifies k, buf
    ensures k.offsets.Keys == old(k.offsets).Keys && (Reliable(old(k.script)) ==> ret >= 0 && Reliable(k.script))
    ensures var found := Found(old(k.files)[src].bytes, old(k.offsets)[src], 128);
            ret >= 0 ==> && ret == |found| && Wrote(old(k.files), old(k.offsets)[dest], k.files, dest, found)
                         && k.offsets[src] == old(k.offsets)[src] + ret && k.offsets[dest] == old(k.offsets)[dest] + ret
    ensures ret < 0 ==> exists data :: Wrote(old(k.files), old(k.offsets)[dest], k.files, dest, data)
  {
    hide Overwrite, Found, Reliable;
    WriteNothing(k.files[dest].bytes, k.offsets[dest]);
    assert Wrote(k.files, k.offsets[dest], k.files, dest, "");
    ret := SafeRead(k, src, buf, 128);
    if ret > 0 {
      assert buf[..ret] == Found(old(k.files)[src].bytes, old(k.offsets)[src], 128);
      var res := SafeWrite(k, dest, buf, ret);
      if res < 0 {
        ret := res;
      }
    }
  }

  /** duplicate_fd: everything from the offset of src on is written to dest. */
  method Duplicate(k: Kernel, dest: int, src: int) returns (ret: int)
    requires k.Open(dest) && k.Open(src) && dest != src
    modifies k
    ensures ret <= 0 && k.offsets.Keys == old(k.offsets).Keys
    ensures Reliable(old(k.script)) ==> ret == 0 && Reliable(k.script)
    ensures ret == 0 ==>
              Wrote(old(k.files), old(k.offsets)[dest], k.files, dest,
                Rest(old(k.files)[src].bytes, old(k.offsets)[src]))
    ensures ret < 0 ==> exists data :: Wrote(old(k.files), old(k.offsets)[dest], k.files, dest, data)
  {
    hide Overwrite, Found, Rest, Reliable;
    var buf := new char[128];
    ghost var files, at, bytes, start := k.files, k.offsets[dest], k.files[src].bytes, k.offsets[src];
    ghost var data := "";
    WriteNothing(files[dest].bytes, at);
    ret := 1;
    while ret > 0
      invariant k.Open(dest) && k.Open(src) && k.offsets.Keys == old(k.offsets).Keys
      invariant Reliable(old(k.script)) ==> ret >= 0 && Reliable(k.script)
      invariant ret >= 0 ==>
                  && k.files[src].bytes == bytes
                  && k.offsets[dest] == at + |data| && k.offsets[src] == start + |data|
      invariant Wrote(files, at, k.files, dest, data)
      invariant ret >= 0 ==> Rest(bytes, start) == data + Rest(bytes, start + |data|)
      invariant ret == 0 ==> Rest(bytes, start) == data
      decreases ret > 0, |bytes| - (start + |data|)
    {
      ghost var mid, from := k.files, start + |data|;
      ret := CopyChunk(k, dest, src, buf);
      ghost var moved := if ret < 0 then Moved(mid, at + |data|, k.files, dest) else Found(bytes, from, 128);
      WroteMore(files, at, mid, k.files, dest, data, moved);
      if ret >= 0 {
        RestStep(bytes, from, 128);
        Regroup(Rest(bytes, start), data, moved, Rest(bytes, from + |moved|), Rest(bytes, from));
      }
      data := data + moved;
    }
  }

  ghost function Moved(before: map<int, File>, at: nat, now: map<int, File>, fd: int): (data: string)
    requires fd in before && exists data :: Wrote(before, at, now, fd, data)
    ensures Wrote(before, at, now, fd, data)
  {
    var data :| Wrote(before, at, now, fd, data);
    data
  }

  lemma Regroup(all: string, data: string, moved: string, tail: string, rest: string)
    requires all == data + rest && rest == moved + tail && (moved == "" ==> rest == "")
    ensures all == data + moved + tail && (moved == "" ==> all == data + moved)
  {
  }

  function Rest(bytes: string, at: nat): string {
    if at >= |bytes| then "" else bytes[at..]
  }

  lemma RestStep(bytes: string, at: nat, n: nat)
    ensures var found := Found(bytes, at, n);
            && Rest(bytes, at) == found + Rest(bytes, at + |found|)
            && (found != "" ==> at + |found| <= |bytes|)
            && (found == "" && n > 0 ==> Rest(bytes, at) == "")
  {
  }
}
