/** The split-file image reader of payload/storage_ext.c:338-581. */
module DiscIso {
  import opened Common
  import opened DiscImage

  const READ_BUF_SIZE: nat := 256 * 1024

  /** discfd: the open part and its file position. */
  datatype Descriptor = Descriptor(file: nat, pos: nat)

  /** Every part holds base bytes and then as many as were recorded for it. */
  predicate Fits(parts: seq<seq<byte>>, sizes: seq<nat>, base: nat) {
    |parts| == |sizes| && forall i :: 0 <= i < |parts| ==> base + sizes[i] <= |parts[i]|
  }

  /** The disc data of the first n part files, in order. */
  function Joined(parts: seq<seq<byte>>, sizes: seq<nat>, base: nat, n: nat): (r: seq<byte>)
    requires n <= |parts| == |sizes| && Fits(parts, sizes, base)
  {
    if n == 0 then [] else Joined(parts, sizes, base, n - 1) + parts[n - 1][base..base + sizes[n - 1]]
  }

  lemma {:induction false} JoinedPrefix(parts: seq<seq<byte>>, sizes: seq<nat>, base: nat, n: nat, m: nat)
    requires n <= m <= |parts| && Fits(parts, sizes, base)
    ensures Joined(parts, sizes, base, n) <= Joined(parts, sizes, base, m)
    decreases m
  {
    if n < m {
      JoinedPrefix(parts, sizes, base, n, m - 1);
    }
  }

  lemma PartPlace(parts: seq<seq<byte>>, sizes: seq<nat>, base: nat, i: nat)
    requires i < |parts| && Fits(parts, sizes, base)
    ensures Joined(parts, sizes, base, i) + parts[i][base..base + sizes[i]] <= Joined(parts, sizes, base, |parts|)
  {
    JoinedPrefix(parts, sizes, base, i + 1, |parts|);
  }

  lemma SliceOfPrefix(img: seq<byte>, before: seq<byte>, part: seq<byte>, off: nat, n: nat)
    requires before + part <= img && |before| <= off && off + n <= |before| + |part|
    ensures Slice(img, off, n) == part[off - |before|..off - |before| + n]
  {
    SliceInside(img, off, n);
    assert img[off..off + n] == (before + part)[off..off + n];
  }

  /** The disc data of part i starts where the parts before it end. */
  lemma PartInImage(parts: seq<seq<byte>>, sizes: seq<nat>, base: nat, i: nat, off: nat, n: nat)
    requires i < |parts| && Fits(parts, sizes, base)
    requires var start := |Joined(parts, sizes, base, i)|; start <= off && off + n <= start + sizes[i]
    ensures var fpos := base + off - |Joined(parts, sizes, base, i)|;
      fpos + n <= |parts[i]| && Slice(Joined(parts, sizes, base, |parts|), off, n) == parts[i][fpos..fpos + n]
  {
    var part := parts[i][base..base + sizes[i]];
    PartPlace(parts, sizes, base, i);
    hide *;
    SliceOfPrefix(Joined(parts, sizes, base, |parts|), Joined(parts, sizes, base, i), part, off, n);
  }

  datatype ReadCmd = ReadCmd(iskernel: bool, offset: nat, size: nat)

  lemma TailKept(a: seq<byte>, b: seq<byte>, n: nat, m: nat)
    requires n <= m <= |a| == |b| && b[n..] == a[n..]
    ensures b[m..] == a[m..]
  {
    assert b[m..] == b[n..][m - n..] && a[m..] == a[n..][m - n..];
  }

  lemma NothingStored(b: seq<byte>, img: seq<byte>, start: nat)
    ensures b == Stored(b, 0, Slice(img, start, 0))
  {
  }

  /** Storing the next piece behind what was stored before. */
  lemma StoredMore(b: seq<byte>, img: seq<byte>, start: nat, done: nat, n: nat)
    requires done + n <= |b|
    ensures Stored(Stored(b, 0, Slice(img, start, done)), done, Slice(img, start + done, n))
         == Stored(b, 0, Slice(img, start, done + n))
  {
    SliceSplit(img, start, done, n);
  }

  lemma WholeAndTail(b: seq<byte>, d: seq<byte>)
    requires |d| <= |b|
    ensures d[0..|d|] == d && Stored(b, 0, d)[0..|d|] == d && Stored(b, 0, d)[|d|..] == b[|d|..]
  {
  }

  lemma TailOfStored(b0: seq<byte>, d: seq<byte>, b: seq<byte>, n: nat, size: nat)
    requires |d| <= n <= size <= |b0| == |b| && b[n..] == Stored(b0, 0, d)[n..]
    ensures b[size..] == b0[size..]
  {
    assert b[size..] == b[n..][size - n..];
    assert Stored(b0, 0, d)[n..][size - n..] == b0[size..];
  }

  class IsoDrive {
    /** The contents of the part files; the disc data starts at baseOffset in each. */
    const parts: seq<seq<byte>>
    const baseOffset: nat
    const sizes: seq<nat>
    const emuPs3: bool
    var activefile: nat
    var discfd: Option<Descriptor>
    var cachedSector: array?<byte>
    var cachedOffset: nat

    /** An open descriptor belongs to the part active. */
    ghost predicate Opened(active: nat)
      reads this`discfd
    {
      discfd.Some? ==> discfd.value.file == active < |parts|
    }

    ghost function Image(): seq<byte>
      requires Fits(parts, sizes, baseOffset)
    {
      Joined(parts, sizes, baseOffset, |parts|)
    }

    /** A cached sector equals the image at cachedOffset. */
    ghost predicate CacheAgrees()
      requires Fits(parts, sizes, baseOffset)
      reads this`cachedSector, this`cachedOffset, cachedSector
    {
      cachedSector != null ==> cachedSector.Length == 2048 && cachedSector[..] == Slice(Image(), cachedOffset, 2048)
    }

    ghost predicate Valid()
      reads this`activefile, this`discfd, this`cachedSector, this`cachedOffset, cachedSector
    {
      Fits(parts, sizes, baseOffset) && Opened(activefile) && CacheAgrees()
    }

    constructor (parts: seq<seq<byte>>, baseOffset: nat, sizes: seq<nat>, emuPs3: bool)
      requires Fits(parts, sizes, baseOffset)
      ensures Valid() && this.parts == parts && this.sizes == sizes && this.baseOffset == baseOffset
      ensures this.emuPs3 == emuPs3
    {
      this.parts, this.baseOffset, this.sizes, this.emuPs3 := parts, baseOffset, sizes, emuPs3;
      activefile, discfd, cachedSector, cachedOffset := 0, None, null, 0;
    }

    /** Where the disc data of a part starts in the image. */
    ghost function Start(i: nat): nat
      requires Fits(parts, sizes, baseOffset) && i <= |parts|
    {
      |Joined(parts, sizes, baseOffset, i)|
    }

    lemma StartEnds()
      requires Fits(parts, sizes, baseOffset)
      ensures |sizes| == |parts| && Start(0) == 0 && Start(|parts|) == |Image()|
    {
    }

    lemma StartNext(i: nat)
      requires Fits(parts, sizes, baseOffset) && i < |parts| == |sizes|
      ensures Start(i + 1) == Start(i) + sizes[i]
    {
    }

    /** n bytes of the image from off on are those of part i from fileoffset on, behind its base offset. */
    ghost predicate Serves(i: nat, off: nat, fileoffset: nat, n: nat)
      requires Fits(parts, sizes, baseOffset)
    {
      && i < |parts| && Start(i) <= off < |Image()|
      && fileoffset == off - Start(i) && fileoffset + n <= sizes[i]
      && baseOffset + fileoffset + n <= |parts[i]|
      && Slice(Image(), off, n) == parts[i][baseOffset + fileoffset..baseOffset + fileoffset + n]
    }

    lemma PartServes(i: nat, off: nat, n: nat)
      requires Fits(parts, sizes, baseOffset) && i < |parts| == |sizes|
      requires Start(i) <= off < Start(i) + sizes[i] && off + n <= Start(i) + sizes[i]
      ensures Serves(i, off, off - Start(i), n)
    {
      PartInImage(parts, sizes, baseOffset, i, off, n);
      StartNext(i);
      JoinedPrefix(parts, sizes, baseOffset, i + 1, |parts|);
      hide Joined, Slice;
      assert baseOffset + off - Start(i) == baseOffset + (off - Start(i));
    }

    /** The offset inside part i, and how much of the request the part holds. */
    method ReadInPart(i: nat, base: nat, discoffset: nat, bufsize: nat) returns (fileoffset: nat, readsize: nat)
      requires Fits(parts, sizes, baseOffset) && i < |parts| == |sizes|
      requires base == Start(i) <= discoffset < base + sizes[i]
      ensures readsize <= bufsize && (bufsize > 0 ==> readsize > 0)
      ensures Serves(i, discoffset, fileoffset, readsize)
    {
      hide *;
      var maxfileread := base + sizes[i] - discoffset;
      readsize := if bufsize > maxfileread then maxfileread else bufsize;
      fileoffset := discoffset - base;
      PartServes(i, discoffset, readsize);
    }

    /** The part that holds an offset, the offset inside it, and how much of the request it holds. */
    method GetNextRead(discoffset: nat, bufsize: nat) returns (fileoffset: nat, readsize: nat, file: Option<nat>)
      requires Fits(parts, sizes, baseOffset)
      ensures readsize <= bufsize && (bufsize > 0 ==> readsize > 0)
      ensures file.None? ==> readsize == bufsize && |Image()| <= discoffset
      ensures file.Some? ==> Serves(file.value, discoffset, fileoffset, readsize)
    {
      hide *;
      StartEnds();
      ghost var n := |parts|;
      var base := 0;
      for i := 0 to |sizes|
        invariant i <= n == |parts| == |sizes| && base == Start(i) <= discoffset
      {
        StartNext(i);
        var last := base + sizes[i];
        if base <= discoffset < last {
          fileoffset, readsize := ReadInPart(i, base, discoffset, bufsize);
          return fileoffset, readsize, Some(i);
        }
        base := last;
      }
      return 0, bufsize, None;
    }

    // ----- the file system: every call may fail unless healthy -----

    method Open(i: nat, healthy: bool) returns (ok: bool)
      requires i < |parts|
      modifies this`discfd
      ensures healthy ==> ok
      ensures discfd == if ok then Some(Descriptor(i, 0)) else old(discfd)
    {
      var fine: bool := *;
      ok := healthy || fine;
      if ok {
        discfd := Some(Descriptor(i, 0));
      }
    }

    method Seek(pos: nat, healthy: bool) returns (ok: bool)
      requires discfd.Some?
      modifies this`discfd
      ensures healthy ==> ok
      ensures discfd == if ok then Some(Descriptor(old(discfd.value.file), pos)) else old(discfd)
    {
      var fine: bool := *;
      ok := healthy || fine;
      if ok {
        discfd := Some(discfd.value.(pos := pos));
      }
    }

    /** A successful read stores v bytes, which may be fewer than asked for; a healthy one stores all there are. */
    method Read(dst: array<byte>, off: nat, n: nat, healthy: bool) returns (ok: bool, v: nat)
      requires discfd.Some? && discfd.value.file < |parts| && off + n <= dst.Length
      modifies this`discfd, dst
      ensures var file, pos := parts[old(discfd.value.file)], old(discfd.value.pos);
        && v <= Available(file, pos, n) && (healthy ==> ok && v == Available(file, pos, n))
        && discfd == Some(Descriptor(old(discfd.value.file), pos + v))
        && dst[..] == Stored(old(dst[..]), off, if v > 0 then file[pos..pos + v] else [])
    {
      var file, pos := parts[discfd.value.file], discfd.value.pos;
      var fine: bool := *;
      var short: int := *;
      ok := healthy || fine;
      v := Available(file, pos, n);
      if !healthy && 0 <= short < v {
        v := short;
      }
      forall i | 0 <= i < v {
        dst[off + i] := file[pos + i];
      }
      discfd := Some(discfd.value.(pos := pos + v));
    }

    /** cellFsClose. */
    method Close()
      modifies this`discfd
      ensures discfd == None
    {
      discfd := None;
    }

    // ----- reading -----

    /** Reading can go on at offset without a seek: the descriptor stands there. */
    ghost predicate Positioned(active: nat, offset: nat)
      requires Fits(parts, sizes, baseOffset)
      reads this`discfd
    {
      && discfd.Some? && active < |parts| && Start(active) <= offset
      && discfd.value.pos == baseOffset + (offset - Start(active))
    }

    /** The look at the first 4096 bytes for a watermark moves the file position; the image is not encrypted. */
    method Sniff(healthy: bool)
      requires discfd.Some? && discfd.value.file < |parts|
      modifies this`discfd
      ensures discfd.Some? && discfd.value.file == old(discfd.value.file)
    {
      var header := new byte[4096](i => 0);
      var ok, v := Read(header, 0, 4096, healthy);
    }

    /** One pass of the read loop for a part file: switch to it if another one is open, seek, read. */
    method ReadPart(file: nat, filepos: nat, readsize: nat, active: nat, seek: bool, dst: array<byte>, off: nat,
            healthy: bool)
      returns (ret: Ret, active': nat, seek': bool)
      requires Fits(parts, sizes, baseOffset) && Opened(active) && file < |parts| && filepos + readsize <= sizes[file]
      requires off + readsize <= dst.Length
      requires !seek && file == active ==> Positioned(active, Start(file) + filepos)
      modifies this`discfd, dst
      ensures Opened(active') && (healthy ==> ret == SUCCEEDED)
      ensures ret == SUCCEEDED ==>
                && active' == file && !seek' && Positioned(active', Start(file) + filepos + readsize)
                && dst[..] == Stored(old(dst[..]), off,
                                     parts[file][baseOffset + filepos..baseOffset + filepos + readsize])
      ensures dst[..off] == old(dst[..off]) && dst[off + readsize..] == old(dst[off + readsize..])
    {
      hide Joined, Stored, Start;
      ret, active', seek' := SUCCEEDED, active, seek;
      if discfd.None? || file != active' {
        if discfd.Some? {
          Close();
        }
        var ok := Open(file, healthy);
        if !ok {
          ret := Error(-1);
          return;
        }
        if filepos == 0 {
          Sniff(healthy);
        }
        active', seek' := file, true;
      }
      if seek' {
        var ok := Seek(baseOffset + filepos, healthy);
        if !ok {
          ret := Error(-1);
          return;
        }
        seek' := false;
      }
      var ok, v := Read(dst, off, readsize, healthy);
      ghost var d := parts[file][baseOffset + filepos..baseOffset + filepos + v];
      StoredParts(old(dst[..]), off, d);
      TailKept(old(dst[..]), dst[..], off + v, off + readsize);
      if !ok {
        ret := Error(-1);
      } else if v != readsize {
        ret := FAILED;
      }
    }

    /** The next piece of the request, at most max bytes: from one part file, or zeros past the end. */
    method Fill(offset: nat, max: nat, active: nat, seek: bool, dst: array<byte>, off: nat, healthy: bool)
      returns (ret: Ret, readsize: nat, active': nat, seek': bool)
      requires Fits(parts, sizes, baseOffset) && Opened(active) && 0 < max && off + max <= dst.Length
      requires !seek && offset < |Image()| ==> Positioned(active, offset)
      modifies this`discfd, dst
      ensures Opened(active') && 0 < readsize <= max && (healthy ==> ret == SUCCEEDED)
      ensures ret == SUCCEEDED ==>
                && dst[..] == Stored(old(dst[..]), off, Slice(Image(), offset, readsize))
                && (!seek' && offset + readsize < |Image()| ==> Positioned(active', offset + readsize))
      ensures dst[..off] == old(dst[..off]) && dst[off + max..] == old(dst[off + max..])
    {
      hide Joined, Stored, Slice, Zeros;
      var fileoffset, file;
      fileoffset, readsize, file := GetNextRead(offset, max);
      if file.Some? {
        ret, active', seek' := ReadPart(file.value, fileoffset, readsize, active, seek, dst, off, healthy);
        TailKept(old(dst[..]), dst[..], off + readsize, off + max);
      } else {
        Clear(dst, off, readsize);
        SliceBeyond(Image(), offset, readsize);
        StoredParts(old(dst[..]), off, Zeros(readsize));
        ret, active', seek' := SUCCEEDED, active, seek;
      }
    }

    /** copy_to_process of the bounce buffer. */
    method CopyOut(bounce: array<byte>, buf: array<byte>, at: nat, n: nat, healthy: bool) returns (ret: Ret)
      requires bounce != buf && n <= bounce.Length && at + n <= buf.Length
      modifies buf
      ensures healthy ==> ret == SUCCEEDED
      ensures buf[..] == if ret == SUCCEEDED then Stored(old(buf[..]), at, bounce[..n]) else old(buf[..])
    {
      var fine: bool := *;
      if healthy || fine {
        Copy(buf, at, bounce, 0, n);
        return SUCCEEDED;
      }
      return Error(-1);
    }

    /** The read loop: straight into the caller's buffer, or through a bounce buffer of bufsize bytes. */
    method ReadLoop(iskernel: bool, start: nat, size: nat, bufsize: nat, bounce: array<byte>, buf: array<byte>,
            active0: nat, healthy: bool)
      returns (ret: Ret, active: nat)
      requires Fits(parts, sizes, baseOffset) && Opened(active0) && size <= buf.Length && buf != bounce
      requires (size > 0 ==> bufsize > 0) && (iskernel || bufsize == bounce.Length)
      modifies this`discfd, buf, bounce
      ensures Opened(active) && (healthy ==> ret == SUCCEEDED)
      ensures ret == SUCCEEDED ==> buf[..] == Stored(old(buf[..]), 0, Slice(Image(), start, size))
      ensures buf[size..] == old(buf[size..])
    {
      hide Joined, Stored, Slice, Opened, Positioned;
      ghost var b0, img := buf[..], Image();
      var remaining, offset, done, seek := size, start, 0, true;
      ret, active := SUCCEEDED, active0;
      NothingStored(b0, img, start);
      while remaining > 0
        invariant 0 <= done && 0 <= remaining && done + remaining == size && offset == start + done && Opened(active)
        invariant ret == SUCCEEDED && buf[..] == Stored(b0, 0, Slice(img, start, done))
        invariant !seek && offset < |img| ==> Positioned(active, offset)
      {
        var maxreadsize := if remaining > bufsize then bufsize else remaining;
        var readsize;
        ghost var b1 := buf[..];
        if iskernel {
          ret, readsize, active, seek := Fill(offset, maxreadsize, active, seek, buf, done, healthy);
          if ret != SUCCEEDED {
            TailOfStored(b0, Slice(img, start, done), buf[..], done + maxreadsize, size);
            return;
          }
        } else {
          ghost var c1 := bounce[..];
          ret, readsize, active, seek := Fill(offset, maxreadsize, active, seek, bounce, 0, healthy);
          if ret != SUCCEEDED {
            TailOfStored(b0, Slice(img, start, done), buf[..], done, size);
            return;
          }
          ret := CopyOut(bounce, buf, done, readsize, healthy);
          if ret != SUCCEEDED {
            TailOfStored(b0, Slice(img, start, done), buf[..], done, size);
            return;
          }
          Front(c1, Slice(img, offset, readsize));
        }
        StoredMore(b0, img, start, done, readsize);
        offset, done, remaining := offset + readsize, done + readsize, remaining - readsize;
      }
      TailOfStored(b0, Slice(img, start, size), buf[..], size, size);
    }

    /** A cached read of the sector at this offset. */
    ghost predicate Hit(offset: nat, size: nat)
      reads this`cachedSector, this`cachedOffset
    {
      emuPs3 && size == 2048 && cachedSector != null && cachedOffset == offset
    }

    /** Read size bytes from offset into buf. Only 2048-byte reads of a PS3 disc are cached. */
    method ProcessReadIsoCmd(iskernel: bool, offset: nat, size: nat, buf: array<byte>, healthy: bool) returns (ret: Ret)
      requires Valid() && size <= buf.Length && buf != cachedSector
      modifies this`activefile, this`discfd, this`cachedSector, this`cachedOffset, buf
      ensures Valid() && (healthy ==> ret == SUCCEEDED)
      ensures ret == SUCCEEDED ==> buf[..] == Stored(old(buf[..]), 0, Slice(Image(), offset, size))
      ensures buf[size..] == old(buf[size..])
      ensures old(Hit(offset, size)) ==> ret == SUCCEEDED && discfd == old(discfd) && cachedSector == old(cachedSector)
      ensures !old(Hit(offset, size)) ==>
                if ret == SUCCEEDED && emuPs3 && size == 2048 then Hit(offset, size) && fresh(cachedSector)
                else cachedSector == null
    {
      hide Joined, Stored, Slice, Fits, Opened;
      var cache := emuPs3 && size == 2048;
      if cache && cachedSector != null && cachedOffset == offset {
        Copy(buf, 0, cachedSector, 0, 2048);
        WholeAndTail(old(buf[..]), old(cachedSector[..]));
        return SUCCEEDED;
      }
      cachedSector := null;
      var bufsize := size;
      if !iskernel {
        bufsize := if size > READ_BUF_SIZE then READ_BUF_SIZE else size;
        var fine: bool := *;
        if !healthy && !fine {
          return Error(-1);
        }
      }
      var bounce := new byte[if iskernel then 0 else bufsize](i => 0);
      ret, activefile := ReadLoop(iskernel, offset, size, bufsize, bounce, buf, activefile, healthy);
      if ret == SUCCEEDED && cache {
        var sector := new byte[2048](i => 0);
        WholeAndTail(old(buf[..]), Slice(Image(), offset, size));
        Whole(sector[..], buf[0..2048]);
        Copy(sector, 0, buf, 0, 2048);
        cachedSector, cachedOffset := sector, offset;
      }
    }

    /** Any run of successful reads returns what reading the joined image directly would. */
    method ServeReads(cmds: seq<ReadCmd>) returns (outs: seq<seq<byte>>)
      requires Valid()
      modifies this`activefile, this`discfd, this`cachedSector, this`cachedOffset
      ensures Valid() && |outs| == |cmds|
      ensures forall i :: 0 <= i < |cmds| ==> outs[i] == Slice(Image(), cmds[i].offset, cmds[i].size)
    {
      hide Joined, Stored, Slice, CacheAgrees, Opened;
      outs := [];
      for i := 0 to |cmds|
        invariant Valid() && |outs| == i
        invariant forall j :: 0 <= j < i ==> outs[j] == Slice(Image(), cmds[j].offset, cmds[j].size)
      {
        var c := cmds[i];
        var buf := new byte[c.size](k => 0);
        Whole(buf[..], Slice(Image(), c.offset, c.size));
        var ret := ProcessReadIsoCmd(c.iskernel, c.offset, c.size, buf, true);
        outs := outs + [buf[..]];
      }
    }
  }
}
