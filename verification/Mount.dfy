/** The mount machine of payload/storage_ext.c: which backing object is live. */
module Mount {
  import opened Common
  import opened Tracks
  import DiscCd
  import DiscIso

  const EMU_OFF: int := 0
  const EMU_PS3: int := 1
  const EMU_PS2_DVD: int := 2
  const EMU_PS2_CD: int := 3
  const EMU_PSX: int := 4
  const EMU_BD: int := 5
  const EMU_DVD: int := 6
  const EMU_MAX: int := 7

  const PNG_OFFSET: nat := 0x10000

  datatype Code = Success | EInval | ENoMem | EBusy | ENoSys | Failed | Io

  /** A part file: its name and the size that stat reports, if it can be stat'ed. */
  datatype Part = Part(name: string, size: Option<nat>)

  predicate IsPng(name: string) {
    |name| >= 4 && name[|name| - 4..] == ".PNG"
  }

  predicate GoodName(name: string) {
    4 <= |name| < MAX_PATH
  }

  ghost function BaseOf(parts: seq<Part>): nat {
    if exists i :: 0 <= i < |parts| && IsPng(parts[i].name) then PNG_OFFSET else 0
  }

  ghost function Sum(s: seq<nat>): nat {
    if s == [] then 0 else Sum(s[..|s| - 1]) + s[|s| - 1]
  }

  lemma SumAppend(s: seq<nat>, x: nat)
    ensures Sum(s + [x]) == Sum(s) + x
  {
    assert (s + [x])[..|s|] == s;
  }

  /** The parts whose names are looked at before the first bad one. */
  function Scanned(parts: seq<Part>): seq<Part> {
    if parts == [] || !GoodName(parts[0].name) then [] else [parts[0]] + Scanned(parts[1..])
  }

  lemma {:induction false} ScannedUpTo(parts: seq<Part>, i: nat)
    requires i <= |parts| && (forall j :: 0 <= j < i ==> GoodName(parts[j].name))
    requires i < |parts| ==> !GoodName(parts[i].name)
    ensures Scanned(parts) == parts[..i]
  {
    if i > 0 {
      ScannedUpTo(parts[1..], i - 1);
      assert parts[..i] == [parts[0]] + parts[1..][..i - 1];
    }
  }

  predicate GoodCount(parts: seq<Part>) { 1 <= |parts| <= 32 }

  predicate GoodNames(parts: seq<Part>) {
    forall i :: 0 <= i < |parts| ==> GoodName(parts[i].name)
  }

  /** The base offset in force after a mount of these parts was tried, whether it succeeded or not. */
  ghost function BaseAfter(parts: seq<Part>): nat {
    if GoodCount(parts) then BaseOf(Scanned(parts)) else 0
  }

  /** The first part that cannot be stat'ed or is too small decides. */
  function StatResult(parts: seq<Part>, base: nat): Code {
    if parts == [] then Success
    else if parts[0].size.None? then Io
    else if parts[0].size.value < 4096 + base then EInval
    else StatResult(parts[1..], base)
  }

  lemma {:induction false} StatResultAt(parts: seq<Part>, base: nat, i: nat)
    requires i <= |parts|
    requires forall j :: 0 <= j < i ==> parts[j].size.Some? && 4096 + base <= parts[j].size.value
    ensures StatResult(parts, base) == StatResult(parts[i..], base)
  {
    if i == 0 {
      assert parts[0..] == parts;
    } else {
      StatResultAt(parts[1..], base, i - 1);
      assert parts[1..][i - 1..] == parts[i..];
    }
  }

  /** What a mount of a split image returns while nothing is mounted. */
  ghost function MountResult(parts: seq<Part>, memory: bool): Code {
    if !GoodCount(parts) || !GoodNames(parts) then EInval
    else if !memory then ENoMem
    else StatResult(parts, BaseOf(parts))
  }

  lemma {:induction false} StatSuccess(parts: seq<Part>, base: nat)
    ensures StatResult(parts, base) == Success <==>
            forall i :: 0 <= i < |parts| ==> parts[i].size.Some? && 4096 + base <= parts[i].size.value
  {
    if parts != [] {
      StatSuccess(parts[1..], base);
      assert parts == [parts[0]] + parts[1..];
    }
  }

  /** The files a mount of a split image accepts. */
  ghost predicate Mountable(parts: seq<Part>) {
    && 1 <= |parts| <= 32
    && forall i :: 0 <= i < |parts| ==>
         GoodName(parts[i].name) && parts[i].size.Some? && 4096 + BaseOf(parts) <= parts[i].size.value
  }

  /** It succeeds exactly on mountable parts, and then the base offset is that of the parts. */
  lemma MountResultIs(parts: seq<Part>, memory: bool)
    ensures MountResult(parts, memory) == Success <==> Mountable(parts) && memory
    ensures GoodCount(parts) && GoodNames(parts) ==> BaseAfter(parts) == BaseOf(parts)
  {
    hide BaseOf;
    if GoodNames(parts) {
      ScannedUpTo(parts, |parts|);
      assert parts[..|parts|] == parts;
    }
    StatSuccess(parts, BaseOf(parts));
  }

  lemma {:induction false} NeverBusy(parts: seq<Part>, base: nat)
    ensures StatResult(parts, base) != EBusy
  {
    if parts != [] {
      NeverBusy(parts[1..], base);
    }
  }

  lemma {:induction false} JoinedLength(contents: seq<seq<byte>>, sizes: seq<nat>, base: nat, n: nat)
    requires DiscIso.Fits(contents, sizes, base) && n <= |contents|
    ensures |DiscIso.Joined(contents, sizes, base, n)| == Sum(sizes[..n])
  {
    if n > 0 {
      JoinedLength(contents, sizes, base, n - 1);
      SumAppend(sizes[..n - 1], sizes[n - 1]);
      assert sizes[..n] == sizes[..n - 1] + [sizes[n - 1]];
    }
  }

  /** The sizes a mount records fit the files, and the joined image has totalsize bytes. */
  lemma MountedImage(contents: seq<seq<byte>>, sizes: seq<nat>, base: nat)
    requires |sizes| == |contents| && forall i :: 0 <= i < |contents| ==> sizes[i] + base == |contents[i]|
    ensures DiscIso.Fits(contents, sizes, base)
    ensures |DiscIso.Joined(contents, sizes, base, |contents|)| == Sum(sizes)
  {
    JoinedLength(contents, sizes, base, |contents|);
    assert sizes[..|contents|] == sizes;
  }

  class DiscFile {
    const sizes: seq<nat>
    const totalsize: nat

    constructor (sizes: seq<nat>, totalsize: nat)
      ensures this.sizes == sizes && this.totalsize == totalsize
    {
      this.sizes, this.totalsize := sizes, totalsize;
    }
  }

  /** What the recorded sizes of mounted parts are. */
  ghost predicate Records(d: DiscFile, parts: seq<Part>, base: nat) {
    && |d.sizes| == |parts| && d.totalsize == Sum(d.sizes)
    && forall i :: 0 <= i < |parts| ==> parts[i].size.Some? && d.sizes[i] + base == parts[i].size.value
  }

  /** sectorSize is the sector size when the disc was mounted: the one its window was allocated for. */
  class DiscFileCd {
    const numSectors: nat
    const tracks: seq<Track>
    ghost const sectorSize: nat

    constructor (numSectors: nat, tracks: seq<Track>, ghost sectorSize: nat)
      ensures this.numSectors == numSectors && this.tracks == tracks && this.sectorSize == sectorSize
    {
      this.numSectors, this.tracks, this.sectorSize := numSectors, tracks, sectorSize;
    }
  }

  class DiscFileProxy {
    const size: nat
    const tracks: Option<seq<Track>>
    ghost const sectorSize: nat

    constructor (size: nat, tracks: Option<seq<Track>>, ghost sectorSize: nat)
      ensures this.size == size && this.tracks == tracks && this.sectorSize == sectorSize
    {
      this.size, this.tracks, this.sectorSize := size, tracks, sectorSize;
    }
  }

  /** What the file system answers while a CD image is mounted: the sizes of the image and of its .lsd and .sbi
      companions, whether the image opens, and the sector size recognised in it. */
  datatype CdIo = CdIo(image: Option<nat>, lsd: Option<nat>, sbi: Option<nat>, opens: bool, detected: Option<nat>)

  const SECTOR_SIZES := DiscCd.SECTOR_SIZES

  /** get_cd_sector_size: the sector size packed above the track count, 2352 when it is none of the known ones. */
  function SectorSizeOf(trackscount: nat): (r: nat)
    ensures r in SECTOR_SIZES
  {
    var hi := (trackscount / 256) % 0x1_0000;
    var s := if hi * 16 > 2448 then hi else hi * 16;
    if s in SECTOR_SIZES then s else 2352
  }

  lemma SmallPacked(s: nat, n: nat)
    requires s in SECTOR_SIZES && n < 256
    ensures (256 * s + n) / 256 == s && (16 * s + n % 16) / 256 == s / 16
  {
  }

  /** A size s is read back from a track count packed as 256 s + n, and from 16 s + n exactly when it is a multiple of
      16; packed that way 2328 reads as 2352 and 2340 as 2336. */
  lemma SectorSizePacked(s: nat, n: nat)
    requires s in SECTOR_SIZES && n < 256
    ensures SectorSizeOf(256 * s + n) == s
    ensures SectorSizeOf(16 * s + n % 16) == s <==> s % 16 == 0
  {
    SmallPacked(s, n);
  }

  /** The image is found, large enough, and its name and track count are in range. */
  predicate CdAccepted(file: string, trackscount: nat, io: CdIo) {
    |file| < MAX_PATH && trackscount % 256 < 100 && io.image.Some? && io.image.value >= 0x9930
  }

  /** The image can be stat'ed but not opened: the mount fails after its object was made. */
  predicate Leaks(file: string, trackscount: nat, io: CdIo) {
    CdAccepted(file, trackscount, io) && SectorSizeOf(trackscount) == 2352 && !io.opens
  }

  /** The size that the sector count is computed from: that of a companion file if there is one. */
  function CountedSize(trackscount: nat, io: CdIo): nat
    requires io.image.Some?
  {
    if SectorSizeOf(trackscount) != 2352 then io.image.value
    else if io.lsd.Some? then io.lsd.value
    else if io.sbi.Some? then io.sbi.value
    else io.image.value
  }

  /** The sectors are counted from the image's own size exactly when the track count names another sector size than
      2352, or there is no companion file, or the one that is looked at has that very size. */
  lemma CountedFromImage(trackscount: nat, io: CdIo)
    requires io.image.Some?
    ensures CountedSize(trackscount, io) == io.image.value <==>
            || SectorSizeOf(trackscount) != 2352
            || (io.lsd.None? && io.sbi.None?)
            || io.lsd == io.image
            || (io.lsd.None? && io.sbi == io.image)
  {
  }

  lemma SmallQuotient(x: nat, d: nat)
    requires d > 0
    ensures x / d == 0 <==> x < d
  {
  }

  /** Any companion file smaller than a sector makes a disc of no sectors at all. */
  lemma CompanionEmptiesDisc(trackscount: nat, io: CdIo, ss: nat)
    requires io.image.Some? && io.image.value >= 0x9930 && SectorSizeOf(trackscount) == 2352 && 0 < ss
    ensures CountedSize(trackscount, io) / ss == 0 <==> CountedSize(trackscount, io) < ss
    ensures ss in SECTOR_SIZES && CountedSize(trackscount, io) / ss == 0 ==> io.lsd.Some? || io.sbi.Some?
  {
    SmallQuotient(CountedSize(trackscount, io), ss);
  }

  /** The sector size of the image as it is mounted: a raw one is looked up in the image. */
  function MountedSize(trackscount: nat, io: CdIo): (r: nat)
    ensures r in SECTOR_SIZES
  {
    if SectorSizeOf(trackscount) == 2352 && io.opens && io.detected.Some? && io.detected.value in SECTOR_SIZES
    then io.detected.value
    else SectorSizeOf(trackscount)
  }

  /** What mounting a CD image returns while nothing is mounted. */
  function CdResult(file: string, trackscount: nat, io: CdIo): Code {
    if !CdAccepted(file, trackscount, io) then EInval else if Leaks(file, trackscount, io) then Io else Success
  }

  function OffsetOf(file: string): nat { if IsPng(file) then PNG_OFFSET else 0 }

  /** What a PS2 mount finds at 0x8000 of the image. */
  datatype Probe = NoOpen | NoRead | Short | Header(cd001: bool, cdToc: bool)

  /** A PS2 image that is taken for a raw CD. */
  predicate RawPs2(trackscount: nat, probe: Probe) {
    trackscount > 1 || (probe.Header? && !probe.cd001)
  }

  /** What mounting a PS2 image returns. */
  ghost function Ps2Result(parts: seq<Part>, memory: bool, trackscount: nat, probe: Probe, io: CdIo, busy: bool): Code {
    if |parts| != 1 then EInval
    else if trackscount <= 1 && (probe.NoOpen? || probe.NoRead?) then Io
    else if trackscount <= 1 && probe.Short? then EInval
    else if busy then EBusy
    else if RawPs2(trackscount, probe) then CdResult(parts[0].name, trackscount, io)
    else MountResult(parts, memory)
  }

  /** Which error a refused image gives: the arguments are tested first, then memory is asked for, and then the
      parts are looked at in order, the i-th being the first that is not found or is smaller than 4096 bytes behind
      the offset. */
  lemma MountRefused(parts: seq<Part>, memory: bool, i: nat)
    ensures !(1 <= |parts| <= 32) || (exists j :: 0 <= j < |parts| && !(4 <= |parts[j].name| < 0x420)) ==>
              MountResult(parts, memory) == EInval
    ensures 1 <= |parts| <= 32 && (forall j :: 0 <= j < |parts| ==> 4 <= |parts[j].name| < 0x420) ==>
              && (!memory ==> MountResult(parts, memory) == ENoMem)
              && (memory && i < |parts| && (parts[i].size.Some? ==> parts[i].size.value < 4096 + BaseOf(parts))
                  && (forall j :: 0 <= j < i ==> parts[j].size.Some? && 4096 + BaseOf(parts) <= parts[j].size.value) ==>
                    MountResult(parts, memory) == if parts[i].size.None? then Io else EInval)
  {
    hide BaseOf;
    if i < |parts| && forall j :: 0 <= j < i ==> parts[j].size.Some? && 4096 + BaseOf(parts) <= parts[j].size.value {
      StatResultAt(parts, BaseOf(parts), i);
      assert parts[i..][0] == parts[i];
    }
  }

  /** The offset of a picture in front of the image: 64 KB for names that end with .PNG. */
  lemma OffsetsAre(stem: string, file: string, parts: seq<Part>)
    ensures OffsetOf(stem + ".PNG") == 65536
    ensures OffsetOf(file) == (if |file| >= 4 && file[|file| - 4..] == ".PNG" then 65536 else 0)
    ensures BaseOf(parts) == (if exists i :: 0 <= i < |parts| && OffsetOf(parts[i].name) == 65536 then 65536 else 0)
  {
    assert (stem + ".PNG")[|stem|..] == ".PNG";
  }

  /** The sector size asked for: the two bytes above the track count, or 16 times them, if that is a known size, and
      otherwise 2352. A raw image that opens is mounted with the size recognised in it. */
  lemma SizesAre(trackscount: nat, io: CdIo)
    ensures var hi := trackscount / 256 % 65536;
      var known := {2048, 2328, 2336, 2340, 2352, 2368, 2448};
      && SectorSizeOf(trackscount) == (if hi in known then hi else if 16 * hi in known then 16 * hi else 2352)
      && (MountedSize(trackscount, io) != SectorSizeOf(trackscount) <==>
          && SectorSizeOf(trackscount) == 2352 && io.opens
          && io.detected.Some? && io.detected.value in known && io.detected.value != 2352)
      && (MountedSize(trackscount, io) != SectorSizeOf(trackscount) ==>
          io.detected == Some(MountedSize(trackscount, io)))
  {
    assert forall s: nat :: s in SECTOR_SIZES <==> s in {2048, 2328, 2336, 2340, 2352, 2368, 2448};
  }

  /** A PS2 image of one track with a CD001 header is mounted as a disc file, whatever the CD in it may be; one without
      that header, or of several tracks, as a raw CD. */
  lemma Ps2Accepted(parts: seq<Part>, memory: bool, trackscount: nat, probe: Probe, io: CdIo)
    requires |parts| == 1
    ensures trackscount <= 1 && probe.Header? && probe.cd001 ==>
              (Ps2Result(parts, memory, trackscount, probe, io, false) == Success <==> Mountable(parts) && memory)
    ensures trackscount > 1 || (probe.Header? && !probe.cd001) ==>
              (Ps2Result(parts, memory, trackscount, probe, io, false) == Success <==>
               && |parts[0].name| < 0x420 && trackscount % 256 < 100 && io.image.Some? && io.image.value >= 0x9930
               && (io.opens || SectorSizeOf(trackscount) != 2352))
    ensures trackscount <= 1 && !probe.Header? ==>
              Ps2Result(parts, memory, trackscount, probe, io, false) == if probe.Short? then EInval else Io
  {
    hide Mountable, MountResult, SectorSizeOf;
    MountResultIs(parts, memory);
  }

  datatype Caller = NoVsh | OtherProcess | Vsh

  predicate ProxyType(emuType: int) {
    EMU_OFF < emuType < EMU_MAX && emuType != EMU_PS2_CD && emuType != EMU_PS2_DVD
  }

  /** A proxy can stand for a PS3, PSX, BD or DVD disc. */
  lemma ProxyTypes(emuType: int)
    ensures ProxyType(emuType) <==> emuType in {1, 4, 5, 6}
  {
  }

  datatype Path = NoPath | RawPath | CookedPath | GenericPath

  datatype Op =
    | Ps3(parts: seq<Part>, memory: bool)
    | Dvd(parts: seq<Part>, memory: bool)
    | Bd(parts: seq<Part>, memory: bool)
    | Psx(file: string, trackscount: nat, tracks: seq<Track>, io: CdIo)
    | Ps2(parts: seq<Part>, memory: bool, trackscount: nat, tracks: seq<Track>, probe: Probe, io: CdIo)
    | Proxy(caller: Caller, emuType: int, size: nat, trackscount: nat, proxyTracks: Option<seq<Track>>, connects: bool)
    | Umount
  {
    /** The arguments the code reads without a check are there. */
    ghost predicate WellFormed() {
      && (Psx? ==> 4 <= |file| && trackscount % 256 <= |tracks|)
      && (Ps2? ==> trackscount % 256 <= |tracks| && (|parts| == 1 ==> 4 <= |parts[0].name|))
      && (Proxy? && proxyTracks.Some? ==> trackscount % 256 <= |proxyTracks.value|)
    }

    /** A proxy mount that gets as far as setting the sector size, whether or not it is then refused. */
    predicate SetsSize() {
      Proxy? && caller == Vsh && ProxyType(emuType)
    }

    /** A file that can be stat'ed can be opened. */
    ghost predicate Opens() {
      && (Psx? ==> !Leaks(file, trackscount, io))
      && (Ps2? && |parts| == 1 && RawPs2(trackscount, probe) ==> !Leaks(parts[0].name, trackscount, io))
    }
  }

  class Engine {
    var discEmulation: int
    var discfile: DiscFile?
    var discfileCd: DiscFileCd?
    var discfileProxy: DiscFileProxy?
    var baseOffset: nat
    var cdSectorSize: nat
    /** The objects allocated and not yet freed. */
    ghost var held: set<object>

    ghost function Live(): set<object>
      reads this
    {
      (if discfile != null then {discfile as object} else {})
      + (if discfileCd != null then {discfileCd as object} else {})
      + (if discfileProxy != null then {discfileProxy as object} else {})
    }

    /** No object while emulation is off, exactly one while it is on, of a kind that fits the emulated disc, and
        no other block of memory held. */
    ghost predicate Valid()
      reads this
    {
      && EMU_OFF <= discEmulation < EMU_MAX && cdSectorSize in SECTOR_SIZES
      && held == Live()
      && (discEmulation == EMU_OFF ==> discfile == null && discfileCd == null && discfileProxy == null)
      && (discEmulation != EMU_OFF ==>
            || (discfile != null && discfileCd == null && discfileProxy == null && discEmulation != EMU_PSX)
            || (discfile == null && discfileCd != null && discfileProxy == null
                && (discEmulation == EMU_PSX || discEmulation == EMU_PS2_CD))
            || (discfile == null && discfileCd == null && discfileProxy != null
                && (discEmulation == EMU_PSX <==> discfileProxy.tracks.Some?)
                && discEmulation != EMU_PS2_CD && discEmulation != EMU_PS2_DVD))
    }

    constructor ()
      ensures Valid() && discEmulation == EMU_OFF && baseOffset == 0
    {
      discEmulation, discfile, discfileCd, discfileProxy := EMU_OFF, null, null, null;
      baseOffset, cdSectorSize := 0, 2352;
      held := {};
    }

    ghost predicate Idle()
      reads this
    {
      Valid() && discEmulation == EMU_OFF
    }

    /** The sector size in force is the one the mounted CD was mounted with. */
    ghost predicate SizesAgree()
      reads this
    {
      && (discfileCd != null ==> discfileCd.sectorSize == cdSectorSize)
      && (discfileProxy != null ==> discfileProxy.sectorSize == cdSectorSize)
    }

    /** The first loop: name lengths, and whether the images carry a leading picture. */
    method CheckNames(parts: seq<Part>) returns (ok: bool)
      requires baseOffset == 0
      modifies this`baseOffset
      ensures ok == GoodNames(parts) && baseOffset == BaseOf(Scanned(parts))
    {
      for i := 0 to |parts|
        invariant forall j :: 0 <= j < i ==> GoodName(parts[j].name)
        invariant baseOffset == if exists j :: 0 <= j < i && IsPng(parts[j].name) then PNG_OFFSET else 0
      {
        var name := parts[i].name;
        if |name| >= MAX_PATH || |name| < 4 {
          ScannedUpTo(parts, i);
          return false;
        }
        if IsPng(name) {
          baseOffset := PNG_OFFSET;
        }
      }
      ScannedUpTo(parts, |parts|);
      return true;
    }

    /** The second loop: stat every part and add up the sizes. */
    method StatFiles(parts: seq<Part>) returns (ret: Code, sizes: seq<nat>, totalsize: nat)
      ensures ret == StatResult(parts, baseOffset)
      ensures ret == Success ==>
                && |sizes| == |parts| && totalsize == Sum(sizes)
                && forall i :: 0 <= i < |parts| ==> parts[i].size.Some? && sizes[i] + baseOffset == parts[i].size.value
    {
      sizes, totalsize := [], 0;
      for i := 0 to |parts|
        invariant |sizes| == i && totalsize == Sum(sizes)
        invariant forall j :: 0 <= j < i ==>
                    && parts[j].size.Some? && 4096 + baseOffset <= parts[j].size.value
                    && sizes[j] + baseOffset == parts[j].size.value
      {
        StatResultAt(parts, baseOffset, i);
        assert parts[i..][0] == parts[i];
        if parts[i].size.None? {
          ret := Io;
          return;
        }
        if parts[i].size.value < 4096 + baseOffset {
          ret := EInval;
          return;
        }
        var size := parts[i].size.value - baseOffset;
        SumAppend(sizes, size);
        sizes, totalsize := sizes + [size], totalsize + size;
      }
      StatResultAt(parts, baseOffset, |parts|);
      ret := Success;
    }

    method CheckFilesAndAllocate(parts: seq<Part>, memory: bool) returns (ret: Code)
      requires Idle()
      modifies this`discfile, this`baseOffset, this`held
      ensures ret == MountResult(parts, memory) && baseOffset == BaseAfter(parts)
      ensures ret != Success ==> Valid()
      ensures ret == Success ==>
                discfile != null && fresh(discfile) && held == {discfile} && Records(discfile, parts, baseOffset)
    {
      hide BaseOf, Sum, GoodNames, StatResult, Scanned;
      MountResultIs(parts, memory);
      baseOffset := 0;
      if |parts| == 0 || |parts| > 32 {
        return EInval;
      }
      var named := CheckNames(parts);
      if !named {
        return EInval;
      }
      if !memory {
        return ENoMem;
      }
      var sizes, totalsize;
      ret, sizes, totalsize := StatFiles(parts);
      if ret == Success {
        discfile := new DiscFile(sizes, totalsize);
        held := held + {discfile};
      }
    }

    /** mount_common. The base offset is that of the parts looked at, even when the mount is refused. */
    method MountCommon(parts: seq<Part>, memory: bool) returns (ret: Code)
      requires Valid()
      modifies this`discfile, this`baseOffset, this`held
      ensures discEmulation != EMU_OFF ==>
                ret == EBusy && Valid() && discfile == old(discfile) && baseOffset == old(baseOffset)
      ensures discEmulation == EMU_OFF ==>
                && ret == MountResult(parts, memory) && baseOffset == BaseAfter(parts)
                && (ret != Success ==> Valid())
                && (ret == Success ==>
                      discfile != null && fresh(discfile) && held == {discfile} && Records(discfile, parts, baseOffset))
    {
      if discEmulation != EMU_OFF {
        return EBusy;
      }
      ret := CheckFilesAndAllocate(parts, memory);
    }

    lemma BusyIsNoResult(parts: seq<Part>, memory: bool)
      ensures MountResult(parts, memory) != EBusy
    {
      NeverBusy(parts, BaseOf(parts));
    }

    /** What the three mounts of split images share: mount_common, and then the emulation is on. */
    method MountSplit(parts: seq<Part>, memory: bool, kind: int) returns (ret: Code)
      requires Valid() && (kind == EMU_PS3 || kind == EMU_DVD || kind == EMU_BD)
      modifies this`discEmulation, this`discfile, this`baseOffset, this`held
      ensures Valid() && (old(SizesAgree()) ==> SizesAgree())
      ensures old(discEmulation) == EMU_OFF ==> ret == MountResult(parts, memory) && baseOffset == BaseAfter(parts)
      ensures old(discEmulation) != EMU_OFF ==> ret == EBusy && baseOffset == old(baseOffset)
      ensures ret == Success ==>
                discEmulation == kind && discfile != null && fresh(discfile) && Records(discfile, parts, baseOffset)
      ensures ret != Success ==> discEmulation == old(discEmulation)
    {
      hide MountResult, BaseAfter, Records;
      ret := MountCommon(parts, memory);
      BusyIsNoResult(parts, memory);
      if ret == Success {
        discEmulation := kind;
      }
    }

    method MountPs3Discfile(parts: seq<Part>, memory: bool) returns (ret: Code)
      requires Valid()
      modifies this`discEmulation, this`discfile, this`baseOffset, this`held
      ensures Valid() && (old(SizesAgree()) ==> SizesAgree())
      ensures old(discEmulation) == EMU_OFF ==> ret == MountResult(parts, memory) && baseOffset == BaseAfter(parts)
      ensures old(discEmulation) != EMU_OFF ==> ret == EBusy && baseOffset == old(baseOffset)
      ensures ret == Success ==>
                discEmulation == EMU_PS3 && discfile != null && fresh(discfile) && Records(discfile, parts, baseOffset)
      ensures ret != Success ==> discEmulation == old(discEmulation)
    {
      ret := MountSplit(parts, memory, EMU_PS3);
    }

    method MountDvdDiscfile(parts: seq<Part>, memory: bool) returns (ret: Code)
      requires Valid()
      modifies this`discEmulation, this`discfile, this`baseOffset, this`held
      ensures Valid() && (old(SizesAgree()) ==> SizesAgree())
      ensures old(discEmulation) == EMU_OFF ==> ret == MountResult(parts, memory) && baseOffset == BaseAfter(parts)
      ensures old(discEmulation) != EMU_OFF ==> ret == EBusy && baseOffset == old(baseOffset)
      ensures ret == Success ==>
                discEmulation == EMU_DVD && discfile != null && fresh(discfile) && Records(discfile, parts, baseOffset)
      ensures ret != Success ==> discEmulation == old(discEmulation)
    {
      ret := MountSplit(parts, memory, EMU_DVD);
    }

    method MountBdDiscfile(parts: seq<Part>, memory: bool) returns (ret: Code)
      requires Valid()
      modifies this`discEmulation, this`discfile, this`baseOffset, this`held
      ensures Valid() && (old(SizesAgree()) ==> SizesAgree())
      ensures old(discEmulation) == EMU_OFF ==> ret == MountResult(parts, memory) && baseOffset == BaseAfter(parts)
      ensures old(discEmulation) != EMU_OFF ==> ret == EBusy && baseOffset == old(baseOffset)
      ensures ret == Success ==>
                discEmulation == EMU_BD && discfile != null && fresh(discfile) && Records(discfile, parts, baseOffset)
      ensures ret != Success ==> discEmulation == old(discEmulation)
    {
      ret := MountSplit(parts, memory, EMU_BD);
    }

    lemma SizesPositive()
      ensures forall ss :: ss in SECTOR_SIZES ==> ss > 0
    {
    }

    /** mount_ps_cd: the object is made even when the image could not be opened, and the base offset of an image
        without a leading picture is whatever was in force before. */
    method MountPsCd(file: string, trackscount: nat, tracks: seq<Track>, io: CdIo) returns (ret: Code)
      requires Valid() && 4 <= |file| && trackscount % 256 <= |tracks|
      modifies this`discfileCd, this`baseOffset, this`cdSectorSize, this`held
      ensures discEmulation != EMU_OFF ==>
                && ret == EBusy && Valid() && discfileCd == old(discfileCd)
                && cdSectorSize == old(cdSectorSize) && baseOffset == old(baseOffset)
      ensures discEmulation == EMU_OFF ==> ret == CdResult(file, trackscount, io) && cdSectorSize in SECTOR_SIZES
      ensures discEmulation == EMU_OFF && !CdAccepted(file, trackscount, io) ==>
                Valid() && baseOffset == old(baseOffset)
      ensures discEmulation == EMU_OFF && CdAccepted(file, trackscount, io) ==>
                && discfileCd != null && fresh(discfileCd) && held == {discfileCd}
                && discfileCd.tracks == tracks[..trackscount % 256]
                && cdSectorSize == discfileCd.sectorSize == MountedSize(trackscount, io)
                && cdSectorSize > 0 && discfileCd.numSectors == CountedSize(trackscount, io) / cdSectorSize
                && baseOffset == if IsPng(file) then PNG_OFFSET else old(baseOffset)
    {
      hide SectorSizeOf;
      SizesPositive();
      if discEmulation != EMU_OFF {
        return EBusy;
      }
      cdSectorSize := SectorSizeOf(trackscount);
      var count := trackscount % 256;
      if |file| >= MAX_PATH || count >= 100 || io.image.None? || io.image.value < 0x9930 {
        return EInval;
      }
      ret := Success;
      var statSize := io.image.value;
      if IsPng(file) {
        baseOffset := PNG_OFFSET;
      }
      if cdSectorSize == 2352 {
        if io.lsd.Some? {
          statSize := io.lsd.value;
        } else if io.sbi.Some? {
          statSize := io.sbi.value;
        }
        if io.opens {
          if io.detected.Some? && io.detected.value in SECTOR_SIZES {
            cdSectorSize := io.detected.value;
          }
        } else {
          ret := Io;
        }
      }
      discfileCd := new DiscFileCd(statSize / cdSectorSize, tracks[..count], cdSectorSize);
      held := held + {discfileCd};
    }

    /** The invariant survives exactly when the object made by a failing mount is not left behind. A mounted image is
        read at its own base offset exactly when it has a leading picture or no earlier offset was left in force. */
    method MountPsxDiscfile(file: string, trackscount: nat, tracks: seq<Track>, io: CdIo) returns (ret: Code)
      requires Valid() && 4 <= |file| && trackscount % 256 <= |tracks|
      modifies this`discEmulation, this`discfileCd, this`baseOffset, this`cdSectorSize, this`held
      ensures Valid() <==> !(old(discEmulation) == EMU_OFF && Leaks(file, trackscount, io))
      ensures ret == if old(discEmulation) != EMU_OFF then EBusy else CdResult(file, trackscount, io)
      ensures ret == Success ==>
                && discEmulation == EMU_PSX && discfileCd != null && discfileCd.tracks == tracks[..trackscount % 256]
                && discfileCd.sectorSize == MountedSize(trackscount, io)
                && baseOffset == if IsPng(file) then PNG_OFFSET else old(baseOffset)
      ensures ret == Success ==> (baseOffset == OffsetOf(file) <==> IsPng(file) || old(baseOffset) == 0)
      ensures ret != Success ==> discEmulation == old(discEmulation)
      ensures old(SizesAgree()) ==> SizesAgree()
    {
      hide SectorSizeOf;
      ret := MountPsCd(file, trackscount, tracks, io);
      if ret == Success {
        discEmulation := EMU_PSX;
      }
    }

    /** mount_ps2_discfile: several tracks, or no ISO 9660 header, mean a raw CD image. */
    method MountPs2Discfile(parts: seq<Part>, memory: bool, trackscount: nat, tracks: seq<Track>, probe: Probe,
            io: CdIo)
      returns (ret: Code)
      requires Valid() && trackscount % 256 <= |tracks| && (|parts| == 1 ==> 4 <= |parts[0].name|)
      modifies this`discEmulation, this`discfile, this`discfileCd, this`baseOffset, this`cdSectorSize, this`held
      ensures Valid() <==> !(old(discEmulation) == EMU_OFF && |parts| == 1 && RawPs2(trackscount, probe)
                             && Leaks(parts[0].name, trackscount, io))
      ensures ret == Ps2Result(parts, memory, trackscount, probe, io, old(discEmulation) != EMU_OFF)
      ensures ret == Success ==>
                if RawPs2(trackscount, probe) then
                  && discEmulation == EMU_PS2_CD && discfileCd != null
                  && discfileCd.tracks == tracks[..trackscount % 256]
                  && baseOffset == (if IsPng(parts[0].name) then PNG_OFFSET else old(baseOffset))
                  && (baseOffset == OffsetOf(parts[0].name) <==> IsPng(parts[0].name) || old(baseOffset) == 0)
                else
                  && discEmulation == (if probe.cdToc then EMU_PS2_CD else EMU_PS2_DVD)
                  && discfile != null && Records(discfile, parts, baseOffset) && baseOffset == BaseAfter(parts)
      ensures ret != Success ==> discEmulation == old(discEmulation)
      ensures old(SizesAgree()) ==> SizesAgree()
    {
      hide SectorSizeOf, MountResult, BaseAfter, Records;
      if |parts| != 1 {
        return EInval;
      }
      BusyIsNoResult(parts, memory);
      var isCd, is2352 := false, false;
      if trackscount > 1 {
        isCd, is2352 := true, true;
      } else {
        match probe
        case NoOpen => return Io;
        case NoRead => return Io;
        case Short => return EInval;
        case Header(cd001, cdToc) =>
          if cd001 {
            isCd := cdToc;
          } else {
            isCd, is2352 := true, true;
          }
      }
      if is2352 {
        ret := MountPsCd(parts[0].name, trackscount, tracks, io);
      } else {
        ret := MountCommon(parts, memory);
      }
      if ret == Success {
        discEmulation := if isCd then EMU_PS2_CD else EMU_PS2_DVD;
      }
    }

    /** sys_storage_ext_mount_discfile_proxy: PS2 discs are refused, and only PSX discs have tracks. The sector size is
        set before the mount is refused for a disc already there, whose own size is then no longer in force. */
    method MountProxy(caller: Caller, emuType: int, size: nat, trackscount: nat, tracks: Option<seq<Track>>,
            connects: bool)
      returns (ret: Code)
      requires Valid() && (tracks.Some? ==> trackscount % 256 <= |tracks.value|)
      modifies this`discEmulation, this`discfileProxy, this`cdSectorSize, this`held
      ensures Valid()
      ensures ret == Success <==>
                && caller == Vsh && old(discEmulation) == EMU_OFF && connects && ProxyType(emuType)
                && (emuType == EMU_PSX ==> trackscount % 256 < 100 && tracks.Some?)
      ensures cdSectorSize ==
        if caller == Vsh && ProxyType(emuType) then SectorSizeOf(trackscount) else old(cdSectorSize)
      ensures old(SizesAgree()) ==>
                (SizesAgree() <==>
                 !(&& old(discfileCd != null || discfileProxy != null) && caller == Vsh && ProxyType(emuType)
                   && SectorSizeOf(trackscount) != old(cdSectorSize)))
      ensures ret == Success ==>
                && discEmulation == emuType && discfileProxy != null && discfileProxy.size == size
                && discfileProxy.tracks == if emuType == EMU_PSX then Some(tracks.value[..trackscount % 256]) else None
      ensures ret != Success ==> discEmulation == old(discEmulation) && discfileProxy == old(discfileProxy)
    {
      hide SectorSizeOf;
      if caller == NoVsh {
        return EInval;
      }
      if caller != Vsh {
        return ENoSys;
      }
      if emuType <= EMU_OFF || emuType >= EMU_MAX || emuType == EMU_PS2_CD || emuType == EMU_PS2_DVD {
        return EInval;
      }
      cdSectorSize := SectorSizeOf(trackscount);
      var count := trackscount % 256;
      if emuType == EMU_PSX && (count >= 100 || tracks.None?) {
        return EInval;
      }
      if discEmulation != EMU_OFF {
        return EBusy;
      }
      if !connects {
        return Io;
      }
      var table := if emuType == EMU_PSX then Some(tracks.value[..count]) else None;
      discfileProxy := new DiscFileProxy(size, table, cdSectorSize);
      held := held + {discfileProxy};
      discEmulation := emuType;
      return Success;
    }

    /** dealloc: only an allocated object may be freed. */
    method Dealloc(ghost o: object)
      requires o in held
      modifies this`held
      ensures held == old(held) - {o}
    {
      held := held - {o};
    }

    /** umount_discfile. */
    method UmountDiscfile() returns (ret: Code)
      requires Valid()
      modifies this`discEmulation, this`discfile, this`discfileCd, this`discfileProxy, this`baseOffset, this`held
      ensures Idle() && held == {} && (ret == Success <==> old(discEmulation) != EMU_OFF)
      ensures ret == Success ==> baseOffset == 0
      ensures ret != Success ==> baseOffset == old(baseOffset)
      ensures SizesAgree() && cdSectorSize == old(cdSectorSize)
    {
      if discEmulation == EMU_OFF {
        return Failed;
      }
      if discfile != null {
        Dealloc(discfile);
        discfile := null;
      }
      if discfileCd != null {
        Dealloc(discfileCd);
        discfileCd := null;
      }
      if discfileProxy != null {
        Dealloc(discfileProxy);
        discfileProxy := null;
      }
      discEmulation, baseOffset := EMU_OFF, 0;
      return Success;
    }

    // ----- who serves a command: the casts and dereferences below need the object to be live -----

    /** CMD_READ_ISO in the dispatch thread. */
    method ReadIsoTarget() returns (o: object)
      requires Valid() && discEmulation != EMU_OFF
      ensures held == {o}
    {
      if discfileProxy != null {
        o := discfileProxy;
      } else if discfileCd != null {
        o := discfileCd;
      } else {
        o := discfile;
      }
    }

    /** The disc is one of raw sectors. */
    ghost predicate RawCd()
      reads this
    {
      discfileCd != null || (discfileProxy != null && discfileProxy.tracks.Some?)
    }

    /** CMD_READ_CD_ISO_2352 in the dispatch thread; only the raw-CD command path sends it. */
    method ReadCdTarget() returns (o: object)
      requires Valid() && RawCd()
      ensures held == {o} && o != discfile
    {
      if discfileProxy != null {
        o := discfileProxy;
      } else {
        o := discfileCd;
      }
    }

    /** The size query: the sectors of the disc, none when the real drive should answer. */
    method GetDeviceSize() returns (sectors: Option<nat>)
      requires Valid()
      ensures sectors.None? <==> discEmulation == EMU_OFF
      ensures discfileCd != null ==> sectors == Some(discfileCd.numSectors)
      ensures discfileProxy != null ==>
                sectors == Some(discfileProxy.size / if discfileProxy.tracks.Some? then cdSectorSize else 2048)
      ensures discfile != null ==> sectors == Some(discfile.totalsize / 2048)
    {
      if discEmulation == EMU_OFF {
        return None;
      }
      if discfileCd != null {
        sectors := Some(discfileCd.numSectors);
      } else if discfileProxy != null {
        sectors := Some(discfileProxy.size / (if discfileProxy.tracks.Some? then cdSectorSize else 2048));
      } else {
        sectors := Some(discfile.totalsize / 2048);
      }
    }

    /** Which code answers a native command. */
    method NativePath() returns (path: Path)
      requires Valid()
      ensures path == RawPath <==> RawCd()
      ensures path == CookedPath <==> discEmulation == EMU_PS2_CD && discfile != null
      ensures path == CookedPath ==> held == {discfile as object?}
    {
      if discEmulation == EMU_OFF {
        return NoPath;
      }
      if discfileCd != null || (discfileProxy != null && discfileProxy.tracks.Some?) {
        return RawPath;
      }
      if discEmulation == EMU_PS2_CD {
        return CookedPath;
      }
      return GenericPath;
    }

    /** The lead-out of READ TOC on the path that was chosen: the same sectors the size query reports. */
    method TocLeadOut(path: Path) returns (sectors: nat)
      requires Valid()
      requires (path == RawPath && RawCd()) || (path == CookedPath && discEmulation == EMU_PS2_CD && discfile != null)
      ensures discfileCd != null ==> sectors == discfileCd.numSectors
      ensures discfileProxy != null ==> sectors == discfileProxy.size / cdSectorSize
      ensures discfile != null ==> sectors == discfile.totalsize / 2048
    {
      if path == CookedPath {
        sectors := discfile.totalsize / 2048;
      } else if discfileProxy != null {
        sectors := discfileProxy.size / cdSectorSize;
      } else {
        sectors := discfileCd.numSectors;
      }
    }

    /** The size a host sees and the lead-out of the table of contents agree on every disc that has one. */
    method SizeAgreesWithToc() returns (size: nat, leadOut: nat)
      requires Valid() && (RawCd() || (discEmulation == EMU_PS2_CD && discfile != null))
      ensures size == leadOut
    {
      var path := NativePath();
      leadOut := TocLeadOut(path);
      var s := GetDeviceSize();
      size := s.value;
    }

    /** Every reachable state keeps the invariant, whatever succeeds or fails on the way; and the sector size in force
        stays that of the mounted disc unless a proxy mount sets it. */
    method Run(ops: seq<Op>)
      requires Valid() && forall op :: op in ops ==> op.WellFormed() && op.Opens()
      modifies this
      ensures Valid()
      ensures old(SizesAgree()) && (forall op :: op in ops ==> !op.SetsSize()) ==> SizesAgree()
    {
      hide SectorSizeOf, MountResult, BaseAfter, Records, Leaks, CdResult;
      for i := 0 to |ops|
        invariant Valid()
        invariant old(SizesAgree()) && (forall op :: op in ops ==> !op.SetsSize()) ==> SizesAgree()
      {
        var op := ops[i];
        assert op in ops;
        var ret;
        match op
        case Ps3(parts, memory) => ret := MountPs3Discfile(parts, memory);
        case Dvd(parts, memory) => ret := MountDvdDiscfile(parts, memory);
        case Bd(parts, memory) => ret := MountBdDiscfile(parts, memory);
        case Psx(file, n, tracks, io) => ret := MountPsxDiscfile(file, n, tracks, io);
        case Ps2(parts, memory, n, tracks, probe, io) => ret := MountPs2Discfile(parts, memory, n, tracks, probe, io);
        case Proxy(caller, emuType, size, n, tracks, connects) =>
          ret := MountProxy(caller, emuType, size, n, tracks, connects);
        case Umount => ret := UmountDiscfile();
      }
    }
  }

  /** A PS3 mount of one part with a leading picture that cannot be stat'ed is refused, and the plain CD image mounted
      next is read from the offset it leaves. */
  method StaleOffset(name: string, file: string, io: CdIo) returns (e: Engine)
    requires GoodName(name) && IsPng(name) && 4 <= |file| && !IsPng(file) && CdResult(file, 1, io) == Success
    ensures fresh(e) && e.Valid() && e.discEmulation == EMU_PSX && e.baseOffset == PNG_OFFSET != OffsetOf(file)
  {
    e := new Engine();
    var parts := [Part(name, None)];
    assert IsPng(parts[0].name);
    ScannedUpTo(parts, 1);
    assert parts[..1] == parts && BaseAfter(parts) == PNG_OFFSET;
    var ret := e.MountPs3Discfile(parts, true);
    assert ret == Io && e.baseOffset == PNG_OFFSET;
    ret := e.MountPsxDiscfile(file, 1, [Track(0x14, 1, 0)], io);
  }

  /** A disc of 2048-byte sectors, and a proxy mount that is refused because of it: a refill of the window now writes 64
      sectors of 2352 bytes into memory for 64 of 2048. */
  method StaleSize(file: string, io: CdIo) returns (e: Engine)
    requires 4 <= |file| && CdResult(file, 0x8001, io) == Success
    ensures fresh(e) && e.Valid() && e.discEmulation == EMU_PSX && e.discfileCd != null
    ensures DiscCd.CD_CACHE_SIZE * e.cdSectorSize > DiscCd.CD_CACHE_SIZE * e.discfileCd.sectorSize
  {
    e := new Engine();
    assert SectorSizeOf(0x8001) == 2048 && SectorSizeOf(0) == 2352;
    var ret := e.MountPsxDiscfile(file, 0x8001, [Track(0x14, 1, 0)], io);
    ret := e.MountProxy(Vsh, EMU_PS3, 0, 0, None, true);
  }
}
