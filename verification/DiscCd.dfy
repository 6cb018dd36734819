/** The raw CD reader with its 64-sector window, payload/storage_ext.c:583-854. */
module DiscCd {
  import opened Common
  import opened DiscImage

  const CD_CACHE_SIZE: nat := 64
  const READ_BUF_SIZE_SECTORS_PSX: nat := 128

  lemma MulAdd(a: nat, b: nat, s: nat)
    ensures (a + b) * s == a * s + b * s
  {
  }

  /** n sectors of ss bytes from sector s on. */
  function Sectors(img: seq<byte>, ss: nat, s: nat, n: nat): (r: seq<byte>)
    ensures |r| == n * ss
  {
    Slice(img, s * ss, n * ss)
  }

  lemma SectorsSplit(img: seq<byte>, ss: nat, s: nat, n: nat, m: nat)
    ensures Sectors(img, ss, s, n + m) == Sectors(img, ss, s, n) + Sectors(img, ss, s + n, m)
  {
    MulAdd(n, m, ss);
    MulAdd(s, n, ss);
    SliceSplit(img, s * ss, n * ss, m * ss);
  }

  lemma SectorsSub(img: seq<byte>, ss: nat, s: nat, n: nat, i: nat, m: nat)
    requires i + m <= n
    ensures i * ss + m * ss <= n * ss && Sectors(img, ss, s, n)[i * ss..i * ss + m * ss] == Sectors(img, ss, s + i, m)
  {
    MulAdd(i, m, ss);
    MulMono(i + m, n, ss);
    MulAdd(s, i, ss);
    SliceSub(img, s * ss, n * ss, i * ss, i * ss + m * ss);
  }

  // ----- what of the window a request reuses -----

  /** The number a window starts with before it is filled. */
  const MARKER: nat := 0x8000_0000

  /** Where the window says it stands, and whether it holds the image's sectors from there on. */
  datatype Window = Window(sector: nat, filled: bool)

  const FRESH := Window(MARKER, false)

  /** The 32-bit signed difference the code computes. */
  function Dif(cached: nat, sector: nat): (d: int)
    ensures -(TWO32 / 2) <= d < TWO32 / 2
  {
    var u := (cached - sector) % TWO32;
    if u < TWO32 / 2 then u else u - TWO32
  }

  /** n sectors of the request, starting with its at-th one, are taken from window sector from on. */
  datatype Reuse = Reuse(at: nat, from: nat, n: nat)

  function Reused(window: nat, start: nat, count: nat): (r: Reuse)
    requires 0 < count
    ensures r.at + r.n <= count && r.from + r.n <= CD_CACHE_SIZE
  {
    if count > CD_CACHE_SIZE then Reuse(0, 0, 0)
    else
      var d := Dif(window, start);
      if 0 < d < CD_CACHE_SIZE then (if d < count then Reuse(d, 0, count - d) else Reuse(0, 0, 0))
      else if 0 < CD_CACHE_SIZE + d <= CD_CACHE_SIZE then
        Reuse(0, -d, if count <= CD_CACHE_SIZE + d then count else CD_CACHE_SIZE + d)
      else Reuse(0, 0, 0)
  }

  /** Where the window stands after a request that succeeds. */
  function NextWindow(w: Window, start: nat, count: nat): Window
    requires 0 < count
  {
    var r := Reused(w.sector, start, count);
    if count > CD_CACHE_SIZE || r.n == count then w
    else if r.n > 0 && r.at == 0 then Window((w.sector + CD_CACHE_SIZE) % TWO32, true)
    else Window(start, true)
  }

  /** n sectors of what the window holds, from its i-th one on. */
  function Kept(data: seq<byte>, ss: nat, i: nat, n: nat): (d: seq<byte>)
    requires i + n <= CD_CACHE_SIZE && |data| == CD_CACHE_SIZE * ss
    ensures |d| == n * ss
  {
    MulAdd(i, n, ss);
    MulMono(i + n, CD_CACHE_SIZE, ss);
    data[i * ss..i * ss + n * ss]
  }

  /** What a request is answered with, data being the contents of the window. */
  function Answer(img: seq<byte>, ss: nat, data: seq<byte>, window: nat, start: nat, count: nat): (a: seq<byte>)
    requires 0 < count && |data| == CD_CACHE_SIZE * ss
    ensures |a| == count * ss
  {
    var r := Reused(window, start, count);
    MulAdd(r.at, r.n, ss);
    MulAdd(r.at + r.n, count - r.at - r.n, ss);
    Sectors(img, ss, start, r.at) + Kept(data, ss, r.from, r.n)
    + Sectors(img, ss, start + r.at + r.n, count - r.at - r.n)
  }

  /** The window lies so far behind the request that the 32-bit difference comes out small. */
  predicate Wraps(window: nat, start: nat) {
    window - start > TWO32 - CD_CACHE_SIZE
  }

  lemma ReusedPlace(window: nat, start: nat, count: nat)
    requires 0 < count && start + count <= TWO32 && window < TWO32
    ensures var r := Reused(window, start, count);
      r.n > 0 ==> window + r.from == start + r.at + if Wraps(window, start) then TWO32 else 0
  {
  }

  lemma ReusedShape(window: nat, start: nat, count: nat)
    requires 0 < count
    ensures var r := Reused(window, start, count);
      && r.at + r.n <= count && (r.n == 0 ==> r.at == 0) && (r.n > 0 && r.at > 0 ==> r.at + r.n == count)
      && (r.n > 0 ==> count <= CD_CACHE_SIZE)
  {
  }

  lemma NoBytes(img: seq<byte>, ss: nat, start: nat)
    ensures Sectors(img, ss, start, 0) == []
  {
  }

  lemma NothingKept(data: seq<byte>, ss: nat, i: nat)
    requires i <= CD_CACHE_SIZE && |data| == CD_CACHE_SIZE * ss
    ensures Kept(data, ss, i, 0) == []
  {
  }

  lemma NoneReused(img: seq<byte>, ss: nat, data: seq<byte>, window: nat, start: nat, count: nat)
    requires 0 < count && |data| == CD_CACHE_SIZE * ss
    ensures Reused(window, start, count).n == 0 ==>
              Answer(img, ss, data, window, start, count) == Sectors(img, ss, start, count)
  {
    hide Sectors, Kept;
    assert [] + [] + Sectors(img, ss, start, count) == Sectors(img, ss, start, count);
    NoBytes(img, ss, start);
    NothingKept(data, ss, Reused(window, start, count).from);
  }

  lemma AnswerParts(img: seq<byte>, ss: nat, data: seq<byte>, window: nat, start: nat, count: nat)
    requires 0 < count && |data| == CD_CACHE_SIZE * ss
    ensures var r := Reused(window, start, count);
      Answer(img, ss, data, window, start, count) ==
      Sectors(img, ss, start, r.at) + Kept(data, ss, r.from, r.n)
      + Sectors(img, ss, start + r.at + r.n, count - r.at - r.n)
  {
    hide Sectors, Kept;
  }

  lemma KeptIsImage(img: seq<byte>, ss: nat, data: seq<byte>, window: nat, i: nat, n: nat)
    requires i + n <= CD_CACHE_SIZE && data == Sectors(img, ss, window, CD_CACHE_SIZE)
    ensures Kept(data, ss, i, n) == Sectors(img, ss, window + i, n)
  {
    hide Sectors;
    SectorsSub(img, ss, window, CD_CACHE_SIZE, i, n);
  }

  /** A request is answered with the image's own sectors unless the difference wraps, or sectors are reused that are not
      the image's. */
  lemma AnswerIsImage(img: seq<byte>, ss: nat, data: seq<byte>, window: nat, start: nat, count: nat)
    requires 0 < count && start + count <= TWO32 && window < TWO32 && |data| == CD_CACHE_SIZE * ss
    requires !Wraps(window, start)
    requires Reused(window, start, count).n > 0 ==> data == Sectors(img, ss, window, CD_CACHE_SIZE)
    ensures Answer(img, ss, data, window, start, count) == Sectors(img, ss, start, count)
  {
    hide Sectors, Reused, Answer, Kept;
    ReusedPlace(window, start, count);
    ReusedShape(window, start, count);
    NoneReused(img, ss, data, window, start, count);
    var r := Reused(window, start, count);
    if r.n > 0 {
      AnswerParts(img, ss, data, window, start, count);
      KeptIsImage(img, ss, data, window, r.from, r.n);
      SectorsSplit(img, ss, start, r.at, r.n);
      SectorsSplit(img, ss, start, r.at + r.n, count - r.at - r.n);
    }
  }

  lemma SameTail(a: seq<byte>, b: seq<byte>, c: seq<byte>)
    requires |a| == |b|
    ensures [] + a + c == b + c <==> a == b
  {
    assert ([] + a + c)[..|a|] == a && (b + c)[..|b|] == b;
  }

  /** When it wraps, the reused sectors come from 2^32 sectors further on, and the answer is right exactly when
      those happen to equal the requested ones. */
  lemma WrappedAnswer(img: seq<byte>, ss: nat, window: nat, start: nat, count: nat)
    requires 0 < count <= CD_CACHE_SIZE && start + count <= TWO32 && window < TWO32 && Wraps(window, start)
    ensures var n := Reused(window, start, count).n;
      var data := Sectors(img, ss, window, CD_CACHE_SIZE);
      && n > 0
      && (Answer(img, ss, data, window, start, count) == Sectors(img, ss, start, count)
          <==> Sectors(img, ss, start + TWO32, n) == Sectors(img, ss, start, n))
  {
    ReusedPlace(window, start, count);
    var r := Reused(window, start, count);
    assert r.at == 0 && r.n > 0;
    hide Reused, Sectors, Kept;
    var data := Sectors(img, ss, window, CD_CACHE_SIZE);
    KeptIsImage(img, ss, data, window, r.from, r.n);
    SectorsSplit(img, ss, start, r.n, count - r.n);
    NoBytes(img, ss, start);
    var a, b := Sectors(img, ss, start + TWO32, r.n), Sectors(img, ss, start, r.n);
    var c := Sectors(img, ss, start + r.n, count - r.n);
    assert Answer(img, ss, data, window, start, count) == [] + a + c;
    SameTail(a, b, c);
  }

  lemma OneReused(r: Reuse, count: nat, ss: nat)
    requires 0 < ss && 0 < r.n && r.at + r.n <= count
    ensures 0 <= r.at * ss < count * ss && 0 < r.n * ss && 0 <= CD_CACHE_SIZE * ss
  {
    MulAdd(r.at, r.n, ss);
    MulMono(r.at + r.n, count, ss);
    MulMono(1, r.n, ss);
  }

  lemma KeptIs(data: seq<byte>, ss: nat, i: nat, n: nat)
    requires i + n <= CD_CACHE_SIZE && |data| == CD_CACHE_SIZE * ss
    ensures 0 <= i * ss <= i * ss + n * ss <= |data| && Kept(data, ss, i, n) == data[i * ss..i * ss + n * ss]
  {
    MulAdd(i, n, ss);
    MulMono(i + n, CD_CACHE_SIZE, ss);
  }

  lemma AllTheSame(data: seq<byte>, c: byte, ss: nat, i: nat, n: nat)
    requires |data| == CD_CACHE_SIZE * ss && i + n <= CD_CACHE_SIZE && forall k :: 0 <= k < |data| ==> data[k] == c
    ensures forall k :: 0 <= k < n * ss ==> Kept(data, ss, i, n)[k] == c
  {
    KeptIs(data, ss, i, n);
    hide Kept;
    var lo, m := i * ss, n * ss;
    var part := data[lo..lo + m];
    forall k | 0 <= k < m
      ensures part[k] == c
    {
      assert part[k] == data[lo + k];
    }
  }

  lemma OtherContents(img: seq<byte>, ss: nat, window: nat, start: nat, count: nat) returns (data: seq<byte>)
    requires 0 < ss && 0 < count && Reused(window, start, count).n > 0
    ensures |data| == CD_CACHE_SIZE * ss
    ensures Answer(img, ss, data, window, start, count) != Sectors(img, ss, start, count)
  {
    hide Sectors, Answer, Reused, Kept;
    var r := Reused(window, start, count);
    var i := r.at * ss;
    OneReused(r, count, ss);
    var c := Sectors(img, ss, start, count)[i];
    var other: byte := if c == 0 then 1 else 0;
    data := seq(CD_CACHE_SIZE * ss, k => other);
    AnswerParts(img, ss, data, window, start, count);
    AllTheSame(data, other, ss, r.from, r.n);
    var a, k := Sectors(img, ss, start, r.at), Kept(data, ss, r.from, r.n);
    var t := Sectors(img, ss, start + r.at + r.n, count - r.at - r.n);
    assert (a + k + t)[i] == k[0];
  }

  /** With unknown contents the answer is the image's sectors for certain exactly when none is reused. */
  lemma UnknownWindow(img: seq<byte>, ss: nat, window: nat, start: nat, count: nat)
    requires 0 < ss && 0 < count
    ensures (forall data :: |data| == CD_CACHE_SIZE * ss ==>
               Answer(img, ss, data, window, start, count) == Sectors(img, ss, start, count)) <==>
            Reused(window, start, count).n == 0
  {
    if Reused(window, start, count).n == 0 {
      forall data | |data| == CD_CACHE_SIZE * ss
        ensures Answer(img, ss, data, window, start, count) == Sectors(img, ss, start, count)
      {
        NoneReused(img, ss, data, window, start, count);
      }
    } else {
      var data := OtherContents(img, ss, window, start, count);
      assert |data| == CD_CACHE_SIZE * ss;
      assert Answer(img, ss, data, window, start, count) != Sectors(img, ss, start, count);
    }
  }

  /** The 32-bit difference between window and request is not the one number whose negation C leaves undefined. */
  predicate Near(window: nat, start: nat) {
    Dif(window, start) != -(TWO32 / 2)
  }

  /** A fresh drive negates that number exactly on a request from sector 0 on, and takes sectors from its unfilled
      window exactly when a small request reaches into the 64 sectors from 2^31 on. */
  lemma FreshDrive(start: nat, count: nat)
    requires 0 < count && start + count <= TWO32
    ensures Near(MARKER, start) <==> start != 0
    ensures Reused(MARKER, start, count).n > 0 <==>
            count <= CD_CACHE_SIZE && start < MARKER + CD_CACHE_SIZE && MARKER < start + count
    ensures !Wraps(MARKER, start)
  {
  }

  /** On a fresh drive with any raw image whose first sector is not all zeros: a read of one sector past the end
      leaves the window near 2^32, and the next request, for sector 0, is answered with other bytes. */
  lemma WrapExample(img: seq<byte>, k: nat)
    requires |img| <= TWO32 * 2352 && k < 2352 && At(img, k) != 0
    ensures var w := NextWindow(FRESH, TWO32 - 10, 1);
      var data := Sectors(img, 2352, w.sector, CD_CACHE_SIZE);
      && w == Window(TWO32 - 10, true) && Near(w.sector, 0)
      && Answer(img, 2352, data, w.sector, 0, 1) != Sectors(img, 2352, 0, 1)
  {
    var w := TWO32 - 10;
    assert Reused(w, 0, 1) == Reuse(0, 10, 1);
    WrappedAnswer(img, 2352, w, 0, 1);
    assert Sectors(img, 2352, TWO32, 1)[k] == 0 && Sectors(img, 2352, 0, 1)[k] == At(img, k);
  }

  lemma ModAtMost(x: nat)
    ensures x % TWO32 <= x && (x % TWO32 == x <==> x < TWO32)
  {
  }

  /** The bytes a large request into kernel memory asks the file system for: a product of two 32-bit numbers. */
  function KernelBytes(count: nat, ss: nat): (n: nat)
    ensures n <= count * ss
    ensures n == count * ss <==> count * ss < TWO32
  {
    MulMono(0, count, ss);
    ModAtMost(count * ss);
    (count * ss) % TWO32
  }

  /** How much of the answer a request stores. */
  function StoredBytes(iskernel: bool, count: nat, ss: nat): (n: nat)
    ensures n <= count * ss
    ensures n == count * ss <==> !iskernel || count <= CD_CACHE_SIZE || count * ss < TWO32
  {
    if iskernel && count > CD_CACHE_SIZE then KernelBytes(count, ss) else count * ss
  }

  datatype RawCmd = RawCmd(iskernel: bool, start: nat, count: nat)

  /** A request that fits 32 bits, whose difference to the window does not wrap and can be negated (or exact says that
      the compiled code takes its magnitude anyway), and that takes sectors only from a filled window. */
  predicate Straightforward(w: Window, ss: nat, exact: bool, c: RawCmd) {
    && 0 < c.count && c.start + c.count <= TWO32
    && StoredBytes(c.iskernel, c.count, ss) == c.count * ss
    && (exact || Near(w.sector, c.start)) && !Wraps(w.sector, c.start)
    && (Reused(w.sector, c.start, c.count).n > 0 ==> w.filled)
  }

  /** A run of such requests. */
  ghost predicate Straight(w: Window, ss: nat, exact: bool, cmds: seq<RawCmd>)
    decreases |cmds|
  {
    cmds == [] ||
    (Straightforward(w, ss, exact, cmds[0])
     && Straight(NextWindow(w, cmds[0].start, cmds[0].count), ss, exact, cmds[1..]))
  }

  /** A window below sector 2^31, or never filled. */
  predicate Low(w: Window) {
    w == FRESH || (w.filled && w.sector < TWO32 / 2)
  }

  lemma WindowMoves(w: Window, start: nat, count: nat)
    requires 0 < count && start + count <= TWO32 && w.sector < TWO32
    ensures var r := Reused(w.sector, start, count);
      NextWindow(w, start, count) ==
      if count > CD_CACHE_SIZE || r.n == count then w else Window(start + if r.at == 0 then r.n else 0, true)
  {
  }

  lemma WindowStaysLow(w: Window, start: nat, count: nat)
    requires 0 < count && start + count <= TWO32 / 2 && Low(w)
    ensures Low(NextWindow(w, start, count)) && (w.filled ==> NextWindow(w, start, count).filled)
    ensures !Wraps(w.sector, start) && (Near(w.sector, start) <==> w.filled || start != 0)
    ensures Reused(w.sector, start, count).n > 0 ==> w.filled
  {
    if w == FRESH {
      FreshDrive(start, count);
    } else {
      assert Dif(w.sector, start) == w.sector - start;
    }
    WindowMoves(w, start, count);
    hide Dif, NextWindow;
  }

  /** So it is in every run that stays below sector 2^31, from a fresh drive too; where the magnitude of -2^31 is not
      taken, a drive whose window is not filled must not start at sector 0. */
  lemma {:induction false} LowRunsAreStraight(w: Window, ss: nat, exact: bool, cmds: seq<RawCmd>)
    requires Low(w) && (exact || w.filled || forall c :: c in cmds ==> c.start != 0)
    requires forall c :: c in cmds ==> 0 < c.count && c.start + c.count <= TWO32 / 2
    requires forall c :: c in cmds ==> StoredBytes(c.iskernel, c.count, ss) == c.count * ss
    ensures Straight(w, ss, exact, cmds)
    decreases |cmds|
  {
    if cmds != [] {
      var c := cmds[0];
      assert c in cmds && forall d :: d in cmds[1..] ==> d in cmds;
      WindowStaysLow(w, c.start, c.count);
      hide Low, NextWindow, Reused, Near, Wraps, StoredBytes;
      LowRunsAreStraight(NextWindow(w, c.start, c.count), ss, exact, cmds[1..]);
    }
  }

  // ----- the 2048 bytes of user data of each sector -----

  /** The sector sizes a CD image can have, payload/storage_ext.c:1141-1147. */
  const SECTOR_SIZES: seq<nat> := [2352, 2048, 2328, 2336, 2340, 2368, 2448]

  /** Where the copy of the i-th sector's 2048 bytes behind a 24-byte header ends in the read buffer. */
  function CopyEnd(i: nat, ss: nat): nat { i * ss + 24 + 2048 }

  /** All copies out of a buffer of n sectors stay inside it exactly when a sector holds header and data. */
  lemma CopiesStayInside(n: nat, ss: nat)
    requires n > 0
    ensures (forall i :: 0 <= i < n ==> CopyEnd(i, ss) <= n * ss) <==> 24 + 2048 <= ss
  {
    MulAdd(n - 1, 1, ss);
    assert CopyEnd(n - 1, ss) <= n * ss <==> 24 + 2048 <= ss;
    forall i | 0 <= i < n
      ensures CopyEnd(i, ss) <= CopyEnd(n - 1, ss)
    {
      MulMono(i, n - 1, ss);
    }
  }

  /** Of the seven sector sizes only 2048 is too small: there the last copy runs 24 bytes past the buffer. */
  lemma OnlyCookedOverruns(ss: nat, n: nat)
    requires ss in SECTOR_SIZES && n > 0
    ensures 24 + 2048 <= ss <==> ss != 2048
    ensures ss == 2048 ==> CopyEnd(n - 1, ss) == n * ss + 24
  {
  }

  /** For the other six the copied bytes lie in the requested sector; at 2048 they are the end of that sector and
      the first 24 bytes of the next. */
  lemma CopiedBytes(img: seq<byte>, ss: nat, s: nat)
    ensures 24 + 2048 <= ss ==> Slice(img, s * ss + 24, 2048) == Sectors(img, ss, s, 1)[24..24 + 2048]
    ensures Slice(img, s * 2048 + 24, 2048) == Sectors(img, 2048, s, 1)[24..] + Sectors(img, 2048, s + 1, 1)[..24]
  {
    if 24 + 2048 <= ss {
      SliceSub(img, s * ss, ss, 24, 24 + 2048);
    }
    SliceSplit(img, s * 2048 + 24, 2024, 24);
    SliceSub(img, s * 2048, 2048, 24, 2048);
    SliceSub(img, (s + 1) * 2048, 2048, 0, 24);
  }

  /** How many of the 2048 bytes copied for a sector lie in what was read, left sectors being read from it on. */
  function Sure(left: nat, ss: nat): (r: nat)
    ensures r <= 2048
  {
    if left * ss < 24 then 0 else if left * ss - 24 < 2048 then left * ss - 24 else 2048
  }

  /** The sectors that one read of a request of n takes in from the k-th on. */
  function LeftFrom(k: nat, n: nat): (r: nat)
    requires k < n
    ensures 0 < r <= n - k
  {
    var end := (k / READ_BUF_SIZE_SECTORS_PSX + 1) * READ_BUF_SIZE_SECTORS_PSX;
    if end < n then end - k else n - k
  }

  /** Block k of d starts with the bytes of the image that the read took in. */
  ghost predicate Copied(d: seq<byte>, img: seq<byte>, ss: nat, s: nat, k: nat, left: nat) {
    && (k + 1) * 2048 <= |d|
    && d[k * 2048..k * 2048 + Sure(left, ss)] == Slice(img, (s + k) * ss + 24, Sure(left, ss))
  }

  /** The same for one read of n sectors from s on. */
  ghost predicate ReadBlock(d: seq<byte>, img: seq<byte>, ss: nat, s: nat, k: nat, n: nat) {
    k < n && Copied(d, img, ss, s, k, n - k)
  }

  /** The answer to a request of n sectors from s on, its first m blocks being there. */
  ghost predicate Delivered(d: seq<byte>, img: seq<byte>, ss: nat, s: nat, m: nat, n: nat) {
    m <= n && |d| == m * 2048 && forall k :: 0 <= k < m ==> Copied(d, img, ss, s, k, LeftFrom(k, n))
  }

  /** Every copied byte is one of the image exactly when a sector holds header and data. */
  lemma SureOfAll(n: nat, ss: nat)
    requires n > 0
    ensures (forall k :: 0 <= k < n ==> Sure(LeftFrom(k, n), ss) == 2048) <==> 24 + 2048 <= ss
  {
    assert LeftFrom(n - 1, n) == 1;
    forall k | 0 <= k < n && 24 + 2048 <= ss
      ensures Sure(LeftFrom(k, n), ss) == 2048
    {
      MulMono(1, LeftFrom(k, n), ss);
    }
  }

  function Payload(img: seq<byte>, ss: nat, s: nat, n: nat): (r: seq<byte>)
    ensures |r| == n * 2048
  {
    if n == 0 then [] else Payload(img, ss, s, n - 1) + Slice(img, (s + n - 1) * ss + 24, 2048)
  }

  /** Then the answer is the user data of the requested sectors, in order. */
  lemma {:induction false} DeliveredIsPayload(d: seq<byte>, img: seq<byte>, ss: nat, s: nat, m: nat, n: nat)
    requires Delivered(d, img, ss, s, m, n) && 24 + 2048 <= ss
    ensures d == Payload(img, ss, s, m)
  {
    if m > 0 {
      hide Slice;
      SureOfAll(n, ss);
      var e := d[..(m - 1) * 2048];
      assert Copied(d, img, ss, s, m - 1, LeftFrom(m - 1, n));
      forall k | 0 <= k < m - 1
        ensures Copied(e, img, ss, s, k, LeftFrom(k, n))
      {
        assert Copied(d, img, ss, s, k, LeftFrom(k, n));
        assert e[k * 2048..k * 2048 + 2048] == d[k * 2048..k * 2048 + 2048];
      }
      DeliveredIsPayload(e, img, ss, s, m - 1, n);
      assert d == e + d[(m - 1) * 2048..m * 2048];
    }
  }

  function Data(file: seq<byte>, baseOffset: nat): seq<byte> {
    if baseOffset <= |file| then file[baseOffset..] else []
  }

  /** A file position that reads like offset o of the data: the place itself, or both past the end. */
  ghost predicate Stands(file: seq<byte>, base: nat, o: nat, pos: nat) {
    pos == base + o || (|file| <= pos && |file| <= base + o)
  }

  lemma NoZeros()
    ensures Zeros(0) == []
  {
  }

  /** A read of m bytes with the rest zeroed is a slice of the data, and leaves the position m bytes further on. */
  lemma ReadBytes(file: seq<byte>, base: nat, o: nat, pos: nat, m: nat, v: nat, p: seq<byte>)
    requires Stands(file, base, o, pos) && v == Available(file, pos, m) && p == if v > 0 then file[pos..pos + v] else []
    ensures |p| == v <= m && p + Zeros(m - v) == Slice(Data(file, base), o, m)
    ensures Stands(file, base, o + m, pos + v)
  {
  }

  lemma StoredTwice(b: seq<byte>, off: nat, p: seq<byte>, q: seq<byte>)
    requires off + |p| + |q| <= |b|
    ensures Stored(Stored(b, off, p), off + |p|, q) == Stored(b, off, p + q)
    ensures q == [] ==> p + q == p
  {
    var first, n := Stored(b, off, p), off + |p|;
    assert first[..n] == b[..off] + p && first[n + |q|..] == b[n + |q|..];
    assert b[..off] + p + q == b[..off] + (p + q);
  }

  lemma NothingStored(b: seq<byte>, at: nat)
    requires at <= |b|
    ensures b == Stored(b, at, [])
  {
  }

  /** Block i of the read buffer begins with the bytes of the image that were read. */
  lemma BlockOf(raw: seq<byte>, img: seq<byte>, ss: nat, s: nat, n: nat, i: nat)
    requires i < n && n * ss + 24 + 2048 <= |raw| && raw[0..n * ss] == Sectors(img, ss, s, n)
    ensures 0 <= i * ss && i * ss + 24 + 2048 <= |raw|
    ensures Copied(raw[i * ss + 24..i * ss + 24 + 2048], img, ss, s + i, 0, n - i)
  {
    MulAdd(i, n - i, ss);
    MulAdd(s, i, ss);
    var m := Sure(n - i, ss);
    if m > 0 {
      SliceSub(img, s * ss, n * ss, i * ss + 24, i * ss + 24 + m);
      assert raw[i * ss + 24..i * ss + 24 + 2048][..m] == raw[0..n * ss][i * ss + 24..i * ss + 24 + m];
    }
  }

  lemma BlockKept(d: seq<byte>, e: seq<byte>, img: seq<byte>, ss: nat, s: nat, k: nat, left: nat)
    requires Copied(d, img, ss, s, k, left)
    ensures Copied(d + e, img, ss, s, k, left)
  {
    hide Slice, Sure;
    var m := Sure(left, ss);
    assert (d + e)[k * 2048..k * 2048 + m] == d[k * 2048..k * 2048 + m];
  }

  lemma BlockMoved(d: seq<byte>, e: seq<byte>, img: seq<byte>, ss: nat, s: nat, sector: nat, k: nat, done: nat,
          readsize: nat)
    requires |d| == done * 2048 && done <= k < done + readsize && sector == s + done
    requires ReadBlock(e, img, ss, sector, k - done, readsize)
    ensures Copied(d + e, img, ss, s, k, done + readsize - k)
  {
    hide Slice, Sure;
    var m := Sure(done + readsize - k, ss);
    assert (d + e)[k * 2048..k * 2048 + m] == e[(k - done) * 2048..(k - done) * 2048 + m];
  }

  lemma OneBlock(d: seq<byte>, e: seq<byte>, img: seq<byte>, ss: nat, s: nat, i: nat, n: nat)
    requires i < n && |d| == i * 2048 && |e| == 2048
    requires forall k :: 0 <= k < i ==> ReadBlock(d, img, ss, s, k, n)
    requires Copied(e, img, ss, s + i, 0, n - i)
    ensures forall k :: 0 <= k < i + 1 ==> ReadBlock(d + e, img, ss, s, k, n)
  {
    hide Copied;
    forall k | 0 <= k < i + 1
      ensures ReadBlock(d + e, img, ss, s, k, n)
    {
      if k < i {
        assert ReadBlock(d, img, ss, s, k, n);
        BlockKept(d, e, img, ss, s, k, n - k);
      } else {
        BlockMoved(d, e, img, ss, s, s + i, i, i, n - i);
      }
    }
  }

  lemma SameRead(k: nat, done: nat, readsize: nat, n: nat)
    requires done % READ_BUF_SIZE_SECTORS_PSX == 0 && done <= k < done + readsize <= n
    requires readsize == if n - done > READ_BUF_SIZE_SECTORS_PSX then READ_BUF_SIZE_SECTORS_PSX else n - done
    ensures LeftFrom(k, n) == done + readsize - k
  {
    assert k / READ_BUF_SIZE_SECTORS_PSX == done / READ_BUF_SIZE_SECTORS_PSX;
  }

  /** Whole read buffers have been used. */
  predicate Aligned(done: nat) { done % READ_BUF_SIZE_SECTORS_PSX == 0 }

  /** A buffer of len bytes takes n sectors and the unknown memory a copy may run into. */
  predicate TakesRead(len: nat, n: nat, ss: nat) { n * ss + 24 + 2048 <= len }

  lemma TakesLess(len: nat, m: nat, n: nat, ss: nat)
    requires m <= n && TakesRead(len, n, ss)
    ensures TakesRead(len, m, ss)
  {
    MulMono(m, n, ss);
  }

  /** The blocks copied out of one read of n sectors. */
  ghost predicate PieceRead(e: seq<byte>, img: seq<byte>, ss: nat, sector: nat, n: nat)
    requires |e| == n * 2048
  {
    forall k :: 0 <= k < n ==> ReadBlock(e, img, ss, sector, k, n)
  }

  /** The sectors the read buffer is made for. */
  function PieceOf(count: nat): nat {
    if count > READ_BUF_SIZE_SECTORS_PSX then READ_BUF_SIZE_SECTORS_PSX else count
  }

  /** All pieces but the last fill the read buffer. */
  lemma PieceSize(done: nat, remaining: nat, count: nat)
    requires remaining > 0 && done + remaining == count && Aligned(done)
    ensures var bufsize := PieceOf(count);
      var n := if remaining > bufsize then bufsize else remaining;
      && 0 < n <= remaining
      && n == (if remaining > READ_BUF_SIZE_SECTORS_PSX then READ_BUF_SIZE_SECTORS_PSX else remaining)
      && (remaining > n ==> Aligned(done + n))
  {
  }

  /** The blocks of the next read behind those delivered before. */
  lemma NextDelivered(d: seq<byte>, e: seq<byte>, img: seq<byte>, ss: nat, s: nat, sector: nat, done: nat,
          readsize: nat, n: nat)
    requires Delivered(d, img, ss, s, done, n) && done + readsize <= n && Aligned(done)
    requires readsize == if n - done > READ_BUF_SIZE_SECTORS_PSX then READ_BUF_SIZE_SECTORS_PSX else n - done
    requires sector == s + done
    requires |e| == readsize * 2048 && PieceRead(e, img, ss, sector, readsize)
    ensures Delivered(d + e, img, ss, s, done + readsize, n)
  {
    forall k | 0 <= k < done + readsize
      ensures Copied(d + e, img, ss, s, k, LeftFrom(k, n))
    {
      hide *;
      if k < done {
        BlockKept(d, e, img, ss, s, k, LeftFrom(k, n));
      } else {
        SameRead(k, done, readsize, n);
        assert ReadBlock(e, img, ss, sector, k - done, readsize);
        BlockMoved(d, e, img, ss, s, sector, k, done, readsize);
      }
    }
  }

  lemma ReusedFits(r: Reuse, count: nat, ss: nat)
    requires r.at + r.n <= count
    ensures 0 <= r.at * ss + r.n * ss <= count * ss && (r.at + r.n) * ss == r.at * ss + r.n * ss
  {
    MulAdd(r.at, r.n, ss);
    MulMono(r.at + r.n, count, ss);
  }

  /** The sector behind the window, when the request runs past the window's end. */
  lemma NewSectorPlace(window: nat, start: nat, count: nat)
    requires window < TWO32 && 0 < count <= CD_CACHE_SIZE && start + count <= TWO32
    ensures var r := Reused(window, start, count);
      && (r.n > 0 ==> (r.at == 0 <==> Dif(window, start) <= 0) && (r.at > 0 ==> r.at + r.n == count))
      && (r.n > 0 && r.at == 0 && r.n < count ==> (window + CD_CACHE_SIZE) % TWO32 == start + r.n < TWO32)
  {
  }

  lemma ThreeParts(b: seq<byte>, p: seq<byte>, q: seq<byte>, s: seq<byte>)
    requires |p| + |q| + |s| <= |b|
    ensures s == [] ==> Stored(Stored(b, |p|, q), 0, p) == Stored(b, 0, p + q + s)
    ensures p == [] ==> Stored(Stored(b, 0, q), |q|, s) == Stored(b, 0, p + q + s)
    ensures p == [] && s == [] ==> Stored(b, 0, q) == Stored(b, 0, p + q + s)
  {
  }

  /** Storing the reused sectors and then the rest amounts to storing the answer. */
  lemma AnswerStored(b: seq<byte>, img: seq<byte>, ss: nat, data: seq<byte>, window: nat, start: nat, count: nat)
    requires 0 < count && count * ss <= |b| && |data| == CD_CACHE_SIZE * ss
    ensures var r := Reused(window, start, count);
      var all := Stored(b, 0, Answer(img, ss, data, window, start, count));
      && 0 <= r.at * ss + r.n * ss <= (r.at + r.n) * ss <= count * ss
      && (r.n == 0 ==> r.at == 0 && all == Stored(b, 0, Sectors(img, ss, start, count)))
      && (r.n > 0 ==>
            var b1 := Stored(b, r.at * ss, Kept(data, ss, r.from, r.n));
            && (r.at > 0 ==> r.at + r.n == count && all == Stored(b1, 0, Sectors(img, ss, start, r.at)))
            && (r.at == 0 && r.n == count ==> all == b1)
            && (r.at == 0 && r.n < count ==>
                  && r.n * ss + (count - r.n) * ss == count * ss
                  && all == Stored(b1, r.n * ss, Sectors(img, ss, start + r.n, count - r.n))))
  {
    hide *;
    ReusedShape(window, start, count);
    var r := Reused(window, start, count);
    MulAdd(r.at, r.n, ss);
    MulAdd(r.at + r.n, count - r.at - r.n, ss);
    NoneReused(img, ss, data, window, start, count);
    if r.n > 0 {
      AnswerParts(img, ss, data, window, start, count);
      var q := Kept(data, ss, r.from, r.n);
      ThreeParts(b, Sectors(img, ss, start, r.at), q, Sectors(img, ss, start + r.at + r.n, count - r.at - r.n));
    }
  }

  lemma NoSectors(b: seq<byte>, img: seq<byte>, ss: nat, start: nat)
    ensures b == Stored(b, 0, Sectors(img, ss, start, 0))
  {
  }

  /** The next n sectors stored behind the first done ones. */
  lemma MoreSectors(b: seq<byte>, img: seq<byte>, ss: nat, start: nat, done: nat, n: nat, count: nat)
    requires done + n <= count && count * ss <= |b|
    ensures done * ss + n * ss == (done + n) * ss <= count * ss
    ensures Stored(Stored(b, 0, Sectors(img, ss, start, done)), done * ss, Sectors(img, ss, start + done, n))
            == Stored(b, 0, Sectors(img, ss, start, done + n))
  {
    MulAdd(done, n, ss);
    MulMono(done + n, count, ss);
    SectorsSplit(img, ss, start, done, n);
    StoredTwice(b, 0, Sectors(img, ss, start, done), Sectors(img, ss, start + done, n));
  }

  lemma WholeFront(a: seq<byte>)
    ensures a[..|a|] == a
  {
  }

  lemma SectorsFront(img: seq<byte>, ss: nat, s: nat, n: nat, size: nat)
    requires size <= n * ss
    ensures Sectors(img, ss, s, n)[..size] == Slice(img, s * ss, size)
  {
    SliceSub(img, s * ss, n * ss, 0, size);
  }

  lemma StandsHere(file: seq<byte>, base: nat, o: nat)
    ensures Stands(file, base, o, base + o)
  {
  }

  /** How a raw read ends: NoPage has no bounce buffer, NoSeek and NotRead are errors of the file system. */
  datatype ReadResult = Done | NotOpened | NoPage | NoSeek | NotRead

  class CdDrive {
    /** The contents of the image file; the sectors start at baseOffset. */
    const file: seq<byte>
    const baseOffset: nat
    const sectorSize: nat
    const numSectors: nat
    /** Whether the compiled ABS takes the magnitude of -2^31, which C leaves undefined. */
    const exactAbs: bool
    const cache: array<byte>
    /** The first sector in the window. */
    var cachedSector: nat
    /** The position of the open descriptor. */
    var discfd: Option<nat>
    /** Whether the window holds the image's sectors from cachedSector on, and whether its page is still allocated. */
    ghost var filled: bool
    ghost var cacheLive: bool

    /** No data lies beyond the sectors counted from the file size. */
    static predicate WholeSectors(file: seq<byte>, baseOffset: nat, ss: nat)
      requires 0 < ss
    {
      |Data(file, baseOffset)| <= (|file| / ss) * ss
    }

    function Image(): seq<byte> { Data(file, baseOffset) }

    /** The shape of the drive, apart from what the window holds. */
    ghost predicate Sized() {
      && sectorSize in SECTOR_SIZES && 0 < sectorSize
      && |Image()| <= numSectors * sectorSize && cache.Length == CD_CACHE_SIZE * sectorSize
    }

    ghost function Win(): Window
      reads this`cachedSector, this`filled
    {
      Window(cachedSector, filled)
    }

    /** A filled window holds the image sectors from cachedSector on. */
    ghost predicate Valid()
      reads this`cachedSector, this`filled, this`cacheLive, cache
    {
      && Sized() && cacheLive && cachedSector < TWO32
      && (filled ==> cache[..] == Sectors(Image(), sectorSize, cachedSector, CD_CACHE_SIZE))
    }

    constructor (file: seq<byte>, baseOffset: nat, sectorSize: nat, exactAbs: bool)
      requires sectorSize in SECTOR_SIZES && 0 < sectorSize && WholeSectors(file, baseOffset, sectorSize)
      ensures Valid() && this.file == file && this.baseOffset == baseOffset && this.sectorSize == sectorSize
      ensures this.exactAbs == exactAbs && Win() == FRESH && discfd == None && fresh(cache)
    {
      this.file, this.baseOffset, this.sectorSize, this.exactAbs := file, baseOffset, sectorSize, exactAbs;
      numSectors := |file| / sectorSize;
      cache := new byte[CD_CACHE_SIZE * sectorSize];
      cachedSector, discfd := MARKER, None;
      filled, cacheLive := false, true;
    }

    /** Reading can go on at a sector without a seek. */
    ghost predicate Positioned(sector: nat)
      reads this`discfd
    {
      discfd.Some? && Stands(file, baseOffset, sector * sectorSize, discfd.value)
    }

    // ----- the file system: every call may fail unless healthy -----

    /** A call that may fail. */
    static method Succeeds(healthy: bool) returns (ok: bool)
      ensures healthy ==> ok
    {
      var fine: bool := *;
      ok := healthy || fine;
    }

    /** A read that fails may have written anything. */
    method Spoil(dst: array<byte>, off: nat, n: nat)
      requires off + n <= dst.Length
      modifies dst
      ensures dst[..off] == old(dst[..off]) && dst[off + n..] == old(dst[off + n..])
    {
      var i := 0;
      while i < n
        invariant 0 <= i <= n && dst[..off] == old(dst[..off]) && dst[off + n..] == old(dst[off + n..])
      {
        var b: byte := *;
        dst[off + i] := b;
        i := i + 1;
      }
    }

    /** cellFsRead. */
    method Read(dst: array<byte>, off: nat, n: nat) returns (v: nat)
      requires discfd.Some? && off + n <= dst.Length
      modifies this`discfd, dst
      ensures v == Available(file, old(discfd.value), n) && discfd == Some(old(discfd.value) + v)
      ensures dst[..] == Stored(old(dst[..]), off, if v > 0 then file[old(discfd.value)..old(discfd.value) + v] else [])
    {
      var pos := discfd.value;
      v := Available(file, pos, n);
      forall i | 0 <= i < v {
        dst[off + i] := file[pos + i];
      }
      discfd := Some(pos + v);
    }

    /** Put size bytes from a sector on into dst: a seek if one is due, a read, zeros for what is missing. */
    method FillBytes(sector: nat, size: nat, doseek: bool, dst: array<byte>, off: nat, healthy: bool)
      returns (seek: bool, ret: ReadResult)
      requires Sized() && discfd.Some? && off + size <= dst.Length
      requires !doseek && sector < numSectors ==> Positioned(sector)
      modifies this`discfd, dst
      ensures discfd.Some? && (healthy ==> ret == Done) && ret in {Done, NoSeek, NotRead}
      ensures ret == Done ==> dst[..] == Stored(old(dst[..]), off, Slice(Image(), sector * sectorSize, size))
      ensures ret == NoSeek ==> dst[..] == old(dst[..])
      ensures ret == NotRead ==> dst[..off] == old(dst[..off]) && dst[off + size..] == old(dst[off + size..])
      ensures ret == Done && !seek && sector < numSectors ==>
                Stands(file, baseOffset, sector * sectorSize + size, discfd.value)
      ensures ret == Done && sector >= numSectors ==> seek == doseek
    {
      hide Stored, Slice, Stands, Data;
      seek, ret := doseek, Done;
      if sector >= numSectors {
        Clear(dst, off, size);
        MulMono(numSectors, sector, sectorSize);
        SliceBeyond(Image(), sector * sectorSize, size);
      } else {
        if seek {
          var sought := Succeeds(healthy);
          if !sought {
            return seek, NoSeek;
          }
          discfd := Some(baseOffset + sector * sectorSize);
          seek := false;
          StandsHere(file, baseOffset, sector * sectorSize);
        }
        var readable := Succeeds(healthy);
        if !readable {
          Spoil(dst, off, size);
          return seek, NotRead;
        }
        ghost var b, pos := dst[..], discfd.value;
        var v := Read(dst, off, size);
        ghost var p := if v > 0 then file[pos..pos + v] else [];
        ReadBytes(file, baseOffset, sector * sectorSize, pos, size, v, p);
        StoredTwice(b, off, p, Zeros(size - v));
        NoZeros();
        if v < size {
          Clear(dst, off + v, size - v);
        }
      }
    }

    /** The same for n sectors; for so few their size fits 32 bits. */
    method FillSectors(sector: nat, n: nat, doseek: bool, dst: array<byte>, off: nat, healthy: bool)
      returns (seek: bool, ret: ReadResult)
      requires Sized() && discfd.Some? && n <= READ_BUF_SIZE_SECTORS_PSX && off + n * sectorSize <= dst.Length
      requires !doseek && sector < numSectors ==> Positioned(sector)
      modifies this`discfd, dst
      ensures discfd.Some? && (healthy ==> ret == Done) && ret in {Done, NoSeek, NotRead}
      ensures ret == Done ==> dst[..] == Stored(old(dst[..]), off, Sectors(Image(), sectorSize, sector, n))
      ensures ret == NoSeek ==> dst[..] == old(dst[..])
      ensures ret == NotRead ==> dst[..off] == old(dst[..off])
      ensures ret == Done && !seek && sector + n < numSectors ==> Positioned(sector + n)
    {
      hide Stored, Slice, Stands, Data;
      assert n * sectorSize < TWO32 by {
        MulMono(n, READ_BUF_SIZE_SECTORS_PSX, sectorSize);
      }
      MulAdd(sector, n, sectorSize);
      seek, ret := FillBytes(sector, n * sectorSize, doseek, dst, off, healthy);
    }

    method ReadBounced(start: nat, count: nat, buf: array<byte>, healthy: bool) returns (ret: ReadResult)
      requires Sized() && discfd.Some? && count * sectorSize <= buf.Length
      modifies this`discfd, buf
      ensures discfd.Some? && (healthy ==> ret == Done) && ret in {Done, NoPage, NoSeek, NotRead}
      ensures ret == Done ==> buf[..] == Stored(old(buf[..]), 0, Sectors(Image(), sectorSize, start, count))
    {
      hide Stored, Sectors, Positioned, Data;
      var bufsize := if count > READ_BUF_SIZE_SECTORS_PSX then READ_BUF_SIZE_SECTORS_PSX else count;
      var paged := Succeeds(healthy);
      if !paged {
        return NoPage;
      }
      MulMono(0, bufsize, sectorSize);
      var bounce := new byte[bufsize * sectorSize];
      var sector, remaining, done, doseek := start, count, 0, true;
      ghost var b0, img := buf[..], Image();
      NoSectors(b0, img, sectorSize, start);
      while remaining > 0
        invariant 0 <= remaining && 0 <= done && done + remaining == count && sector == start + done
        invariant |b0| == buf.Length && done * sectorSize <= |b0| && discfd.Some?
        invariant buf[..] == Stored(b0, 0, Sectors(img, sectorSize, start, done))
        invariant !doseek && sector < numSectors ==> Positioned(sector)
      {
        var readsize := if remaining > bufsize then bufsize else remaining;
        MoreSectors(b0, img, sectorSize, start, done, readsize, count);
        MulMono(readsize, bufsize, sectorSize);
        ghost var c := bounce[..];
        doseek, ret := FillSectors(sector, readsize, doseek, bounce, 0, healthy);
        if ret != Done {
          return;
        }
        Front(c, Sectors(img, sectorSize, sector, readsize));
        Copy(buf, done * sectorSize, bounce, 0, readsize * sectorSize);
        sector, done, remaining := sector + readsize, done + readsize, remaining - readsize;
      }
      ret := Done;
    }

    /** The large-request path: straight into the caller's buffer, or through a bounce buffer of 128 sectors. */
    method ReadDirect(iskernel: bool, start: nat, count: nat, buf: array<byte>, healthy: bool) returns (ret: ReadResult)
      requires Sized() && discfd.Some? && count * sectorSize <= buf.Length
      modifies this`discfd, buf
      ensures discfd.Some? && (healthy ==> ret == Done) && ret in {Done, NoPage, NoSeek, NotRead}
      ensures ret == Done ==>
                var n := if iskernel then KernelBytes(count, sectorSize) else count * sectorSize;
                buf[..] == Stored(old(buf[..]), 0, Sectors(Image(), sectorSize, start, count)[..n])
    {
      if iskernel {
        var seek;
        SectorsFront(Image(), sectorSize, start, count, KernelBytes(count, sectorSize));
        seek, ret := FillBytes(start, KernelBytes(count, sectorSize), true, buf, 0, healthy);
      } else {
        ret := ReadBounced(start, count, buf, healthy);
        WholeFront(Sectors(Image(), sectorSize, start, count));
      }
    }

    /** The small-request path once nothing more can be reused: refill the window and copy from its front. When that
        fails, a window that may have been written to keeps its number; and for a request from user space its page,
        which the drive keeps using, is freed. */
    method ReadThroughWindow(iskernel: bool, sector: nat, remaining: nat, buf: array<byte>, at: nat, healthy: bool)
      returns (ret: ReadResult)
      requires Valid() && discfd.Some? && remaining <= CD_CACHE_SIZE && sector < TWO32
      requires buf != cache && at + remaining * sectorSize <= buf.Length
      modifies this`discfd, this`cachedSector, this`filled, this`cacheLive, cache, buf
      ensures discfd.Some? && (healthy ==> ret == Done) && ret in {Done, NoSeek, NotRead}
      ensures ret == Done ==>
                && Valid() && Win() == Window(sector, true)
                && buf[..] == Stored(old(buf[..]), at, Sectors(Image(), sectorSize, sector, remaining))
      ensures ret != Done ==>
                && (Valid() <==> iskernel) && cachedSector == old(cachedSector)
                && filled == (old(filled) && ret == NoSeek)
    {
      hide Stored, Sectors, Data;
      ghost var c, img := cache[..], Image();
      MulMono(remaining, CD_CACHE_SIZE, sectorSize);
      var seek;
      seek, ret := FillSectors(sector, CD_CACHE_SIZE, true, cache, 0, healthy);
      if ret != Done {
        filled, cacheLive := filled && ret == NoSeek, iskernel;
        return;
      }
      Whole(c, Sectors(img, sectorSize, sector, CD_CACHE_SIZE));
      SectorsSub(img, sectorSize, sector, CD_CACHE_SIZE, 0, remaining);
      Copy(buf, at, cache, 0, remaining * sectorSize);
      cachedSector := sector;
      filled := true;
    }

    lemma ValidFacts()
      requires Valid()
      ensures cachedSector < TWO32 && cache.Length == |cache[..]| == CD_CACHE_SIZE * sectorSize
    {
    }

    /** What of a small request the window is asked for, by the 32-bit difference and its magnitude. */
    method FindReuse(start: nat, count: nat) returns (r: Reuse, dif: int)
      requires 0 < count <= CD_CACHE_SIZE && (exactAbs || Near(cachedSector, start))
      ensures r == Reused(cachedSector, start, count) && dif == Dif(cachedSector, start)
    {
      r := Reuse(0, 0, 0);
      dif := Dif(cachedSector, start);
      var magnitude := if dif < 0 && (exactAbs || dif > -(TWO32 / 2)) then -dif else dif;
      if magnitude < CD_CACHE_SIZE {
        if dif > 0 {
          if dif < count {
            r := Reuse(dif, 0, count - dif);
          }
        } else {
          r := Reuse(0, -dif, if count <= CD_CACHE_SIZE + dif then count else CD_CACHE_SIZE + dif);
        }
      }
    }

    /** Copy what the window already holds of a small request; tell what is left to read and where it goes. */
    method ReuseWindow(start: nat, count: nat, buf: array<byte>) returns (sector: nat, remaining: nat, at: nat)
      requires Valid() && 0 < count <= CD_CACHE_SIZE && start + count <= TWO32
      requires exactAbs || Near(cachedSector, start)
      requires buf != cache && count * sectorSize <= buf.Length
      modifies buf
      ensures var r := Reused(cachedSector, start, count);
        && remaining == count - r.n && (r.n < count ==> sector == start + (if r.at == 0 then r.n else 0))
        && at == (if r.at == 0 && r.n < count then r.n * sectorSize else 0)
        && r.at * sectorSize + r.n * sectorSize <= buf.Length
        && buf[..] == if r.n == 0 then old(buf[..])
                      else Stored(old(buf[..]), r.at * sectorSize, Kept(cache[..], sectorSize, r.from, r.n))
    {
      hide *;
      ValidFacts();
      NewSectorPlace(cachedSector, start, count);
      var r, dif := FindReuse(start, count);
      sector, remaining, at := start, count, 0;
      ReusedFits(r, count, sectorSize);
      if r.n > 0 {
        KeptIs(cache[..], sectorSize, r.from, r.n);
        Copy(buf, r.at * sectorSize, cache, r.from * sectorSize, r.n * sectorSize);
        if remaining == r.n {
          return sector, 0, at;
        }
        remaining := remaining - r.n;
        if dif <= 0 {
          var newsector := (cachedSector + CD_CACHE_SIZE) % TWO32;
          at := at + (newsector - sector) * sectorSize;
          sector := newsector;
        }
      }
    }

    /** Read count raw sectors from start on into buf. When it fails the window keeps its number, its contents are no
        longer known if a refill could not be read, and its page is gone if that refill was for user space. An empty
        request from user space loses the page too, unless its sector lies in the window. */
    method ProcessReadCdIso2352Cmd(iskernel: bool, start: nat, count: nat, buf: array<byte>, healthy: bool)
      returns (ret: ReadResult)
      requires Valid() && start + count <= TWO32 && (exactAbs || Near(cachedSector, start))
      requires buf != cache && count * sectorSize <= buf.Length
      modifies this`discfd, this`cachedSector, this`filled, this`cacheLive, cache, buf
      ensures healthy ==> ret == Done
      ensures count == 0 ==>
                && buf[..] == old(buf[..]) && Win() == old(Win())
                && (Valid() <==>
                      iskernel || ret == NotOpened || -(CD_CACHE_SIZE as int) < Dif(cachedSector, start) <= 0)
      ensures count > 0 && ret == Done ==>
                && Valid() && Win() == NextWindow(old(Win()), start, count)
                && buf[..] == Stored(old(buf[..]), 0,
                                     Answer(Image(), sectorSize, old(cache[..]), old(cachedSector), start, count)
                                     [..StoredBytes(iskernel, count, sectorSize)])
      ensures count > 0 && ret != Done ==>
                && cachedSector == old(cachedSector)
                && (Valid() <==> iskernel || count > CD_CACHE_SIZE || ret == NotOpened)
                && (filled <==> old(filled) && (count > CD_CACHE_SIZE || ret != NotRead))
    {
      hide Stored, Sectors, Data, Reused, Answer, NextWindow, Kept, KernelBytes;
      ghost var w, data, b := Win(), cache[..], buf[..];
      if discfd.None? {
        var open := Succeeds(healthy);
        if !open {
          return NotOpened;
        }
        discfd := Some(0);
      }
      if count == 0 {
        var dif := Dif(cachedSector, start);
        var magnitude := if dif < 0 && (exactAbs || dif > -(TWO32 / 2)) then -dif else dif;
        if !(magnitude < CD_CACHE_SIZE && dif <= 0) {
          cacheLive := iskernel;
        }
        return Done;
      }
      ReusedShape(w.sector, start, count);
      WindowMoves(w, start, count);
      AnswerStored(b, Image(), sectorSize, data, w.sector, start, count);
      if count <= CD_CACHE_SIZE {
        WholeFront(Answer(Image(), sectorSize, data, w.sector, start, count));
        var sector, remaining, at := ReuseWindow(start, count, buf);
        ret := Done;
        if remaining > 0 {
          ret := ReadThroughWindow(iskernel, sector, remaining, buf, at, healthy);
        }
      } else {
        NoneReused(Image(), sectorSize, data, w.sector, start, count);
        ret := ReadDirect(iskernel, start, count, buf, healthy);
      }
    }

    method ServeRawRead(c: RawCmd) returns (out: seq<byte>)
      requires Valid() && Straightforward(Win(), sectorSize, exactAbs, c)
      modifies this`discfd, this`cachedSector, this`filled, this`cacheLive, cache
      ensures Valid() && Win() == NextWindow(old(Win()), c.start, c.count)
      ensures out == Sectors(Image(), sectorSize, c.start, c.count)
    {
      hide Stored, Sectors, Data, Reused, Answer, NextWindow, Near, Wraps, StoredBytes;
      MulMono(0, c.count, sectorSize);
      var buf := new byte[c.count * sectorSize];
      AnswerIsImage(Image(), sectorSize, cache[..], cachedSector, c.start, c.count);
      Whole(buf[..], Sectors(Image(), sectorSize, c.start, c.count));
      WholeFront(Sectors(Image(), sectorSize, c.start, c.count));
      var ret := ProcessReadCdIso2352Cmd(c.iskernel, c.start, c.count, buf, true);
      out := buf[..];
    }

    /** Any run of raw reads that are straightforward returns, on a healthy file system, the sectors that reading the
        image directly would. */
    method ServeRawReads(cmds: seq<RawCmd>) returns (outs: seq<seq<byte>>)
      requires Valid() && Straight(Win(), sectorSize, exactAbs, cmds)
      modifies this`discfd, this`cachedSector, this`filled, this`cacheLive, cache
      ensures Valid() && |outs| == |cmds|
      ensures forall i :: 0 <= i < |cmds| ==> outs[i] == Sectors(Image(), sectorSize, cmds[i].start, cmds[i].count)
    {
      hide Stored, Sectors, Data, Reused, Answer, NextWindow, Near, Wraps, StoredBytes;
      outs := [];
      assert cmds[0..] == cmds;
      for i := 0 to |cmds|
        invariant Valid() && |outs| == i && Straight(Win(), sectorSize, exactAbs, cmds[i..])
        invariant forall j :: 0 <= j < i ==> outs[j] == Sectors(Image(), sectorSize, cmds[j].start, cmds[j].count)
      {
        var c := cmds[i];
        assert cmds[i..][0] == c && cmds[i..][1..] == cmds[i + 1..];
        var out := ServeRawRead(c);
        outs := outs + [out];
      }
    }

    /** From each of n raw sectors, the 2048 bytes after its 24-byte header. */
    method CopyPayloads(readbuf: array<byte>, sector: nat, n: nat, buf: array<byte>, at: nat)
      returns (ghost d: seq<byte>)
      requires Sized() && n * sectorSize + 24 + 2048 <= readbuf.Length && readbuf != buf
      requires readbuf[0..n * sectorSize] == Sectors(Image(), sectorSize, sector, n) && at + n * 2048 <= buf.Length
      modifies buf
      ensures |d| == n * 2048 && forall k :: 0 <= k < n ==> ReadBlock(d, Image(), sectorSize, sector, k, n)
      ensures buf[..] == Stored(old(buf[..]), at, d)
    {
      hide Stored, Sectors, Data, ReadBlock;
      ghost var b0, img, raw := buf[..], Image(), readbuf[..];
      d := [];
      NothingStored(b0, at);
      for i := 0 to n
        invariant |d| == i * 2048 && forall k :: 0 <= k < i ==> ReadBlock(d, img, sectorSize, sector, k, n)
        invariant |b0| == buf.Length && buf[..] == Stored(b0, at, d) && readbuf[..] == raw
      {
        BlockOf(raw, img, sectorSize, sector, n, i);
        ghost var e := raw[i * sectorSize + 24..i * sectorSize + 24 + 2048];
        Copy(buf, at + i * 2048, readbuf, i * sectorSize + 24, 2048);
        StoredTwice(b0, at, d, e);
        OneBlock(d, e, img, sectorSize, sector, i, n);
        d := d + e;
      }
    }

    /** One turn of the loop below. */
    method DeliverPiece(sector: nat, n: nat, doseek: bool, readbuf: array<byte>, buf: array<byte>, at: nat)
      returns (seek: bool, ghost e: seq<byte>)
      requires Sized() && discfd.Some? && TakesRead(readbuf.Length, n, sectorSize) && readbuf != buf
      requires at + n * 2048 <= buf.Length && n <= READ_BUF_SIZE_SECTORS_PSX
      requires !doseek && sector < numSectors ==> Positioned(sector)
      modifies this`discfd, readbuf, buf
      ensures |e| == n * 2048 && PieceRead(e, Image(), sectorSize, sector, n)
      ensures discfd.Some? && buf[..] == Stored(old(buf[..]), at, e)
      ensures !seek && sector + n < numSectors ==> Positioned(sector + n)
    {
      ghost var r0 := readbuf[..];
      hide Stored, Sectors, Positioned, ReadBlock;
      var ret;
      seek, ret := FillSectors(sector, n, doseek, readbuf, 0, true);
      Front(r0, Sectors(Image(), sectorSize, sector, n));
      e := CopyPayloads(readbuf, sector, n, buf, at);
    }

    method ReadBuffer(n: nat) returns (b: array<byte>)
      ensures fresh(b) && TakesRead(b.Length, n, sectorSize)
    {
      MulMono(0, n, sectorSize);
      b := new byte[n * sectorSize + 24 + 2048];
    }

    /** The first done of count blocks are in buf, which held b0 before, and the position is known unless a seek is
        due. */
    ghost predicate Delivering(buf: array<byte>, b0: seq<byte>, d: seq<byte>, start: nat, done: nat, count: nat,
            doseek: bool)
      reads this`discfd, buf
    {
      && done <= count && count * 2048 <= buf.Length == |b0| && discfd.Some?
      && Delivered(d, Image(), sectorSize, start, done, count) && buf[..] == Stored(b0, 0, d)
      && (done < count ==> Aligned(done))
      && (!doseek && start + done < numSectors ==> Positioned(start + done))
    }

    lemma DeliveringFacts(buf: array<byte>, b0: seq<byte>, d: seq<byte>, start: nat, done: nat, count: nat,
            doseek: bool)
      requires Delivering(buf, b0, d, start, done, count, doseek) && done < count
      ensures count * 2048 <= buf.Length == |b0| && discfd.Some? && |d| == done * 2048 && Aligned(done)
      ensures Delivered(d, Image(), sectorSize, start, done, count) && buf[..] == Stored(b0, 0, d)
      ensures !doseek && start + done < numSectors ==> Positioned(start + done)
    {
    }

    lemma DeliveringNow(buf: array<byte>, b0: seq<byte>, d: seq<byte>, start: nat, done: nat, count: nat, doseek: bool)
      requires done <= count && count * 2048 <= buf.Length == |b0| && discfd.Some? && |d| == done * 2048
      requires Delivered(d, Image(), sectorSize, start, done, count) && buf[..] == Stored(b0, 0, d)
      requires (done < count ==> Aligned(done)) && (!doseek && start + done < numSectors ==> Positioned(start + done))
      ensures Delivering(buf, b0, d, start, done, count, doseek)
    {
    }

    /** One turn of the loop of process_read_cd_iso2048_cmd. */
    method DeliverNext(readbuf: array<byte>, bufsize: nat, start: nat, sector: nat, remaining: nat, doseek: bool,
            buf: array<byte>, ghost b0: seq<byte>, ghost d: seq<byte>)
      returns (seek: bool, readsize: nat, ghost e: seq<byte>)
      requires Sized() && TakesRead(readbuf.Length, bufsize, sectorSize) && readbuf != buf && remaining > 0
      requires start <= sector && bufsize == PieceOf(sector - start + remaining)
      requires Delivering(buf, b0, d, start, sector - start, sector - start + remaining, doseek)
      modifies this`discfd, readbuf, buf
      ensures 0 < readsize <= remaining
      ensures Delivering(buf, b0, d + e, start, sector - start + readsize, sector - start + remaining, seek)
    {
      hide *;
      ghost var done, count, img := sector - start, sector - start + remaining, Image();
      DeliveringFacts(buf, b0, d, start, done, count, doseek);
      PieceSize(done, remaining, count);
      readsize := if remaining > bufsize then bufsize else remaining;
      TakesLess(readbuf.Length, readsize, bufsize, sectorSize);
      seek, e := DeliverPiece(sector, readsize, doseek, readbuf, buf, (sector - start) * 2048);
      StoredTwice(b0, 0, d, e);
      NextDelivered(d, e, img, sectorSize, start, sector, done, readsize, count);
      DeliveringNow(buf, b0, d + e, start, done + readsize, count, seek);
    }

    lemma NothingDelivered(buf: array<byte>, start: nat, count: nat)
      requires discfd.Some? && count * 2048 <= buf.Length
      ensures Delivering(buf, buf[..], [], start, 0, count, true)
    {
      NothingStored(buf[..], 0);
    }

    lemma DeliveredWhole(buf: array<byte>, b0: seq<byte>, d: seq<byte>, start: nat, count: nat, doseek: bool)
      requires Delivering(buf, b0, d, start, count, count, doseek)
      ensures discfd.Some? && Delivered(d, Image(), sectorSize, start, count, count) && |d| <= |b0|
      ensures buf[..] == Stored(b0, 0, d)
      ensures 24 + 2048 <= sectorSize ==> d == Payload(Image(), sectorSize, start, count)
    {
      if 24 + 2048 <= sectorSize {
        DeliveredIsPayload(d, Image(), sectorSize, start, count, count);
      }
    }

    /** The loop of process_read_cd_iso2048_cmd, over a read buffer behind which the memory is unknown. */
    method DeliverAll(start: nat, count: nat, buf: array<byte>) returns (ghost d: seq<byte>)
      requires Sized() && count * 2048 <= buf.Length
      modifies this`discfd, buf
      ensures discfd.Some? && Delivered(d, Image(), sectorSize, start, count, count)
      ensures buf[..] == Stored(old(buf[..]), 0, d)
      ensures 24 + 2048 <= sectorSize ==> d == Payload(Image(), sectorSize, start, count)
    {
      hide *;
      if discfd.None? {
        discfd := Some(0);
      }
      ghost var b0 := buf[..];
      NothingDelivered(buf, start, count);
      var sector, remaining := start, count;
      var bufsize := PieceOf(remaining);
      var readbuf := ReadBuffer(bufsize);
      var doseek := true;
      d := [];
      while remaining > 0
        invariant start <= sector && 0 <= remaining && sector + remaining == start + count
        invariant Delivering(buf, b0, d, start, sector - start, count, doseek)
      {
        var readsize;
        ghost var e;
        doseek, readsize, e := DeliverNext(readbuf, bufsize, start, sector, remaining, doseek, buf, b0, d);
        d := d + e;
        sector, remaining := sector + readsize, remaining - readsize;
      }
      DeliveredWhole(buf, b0, d, start, count, doseek);
    }

    /** Read the user data of size / 2048 sectors from sector offset / 2048 on. Blocks of sectors too small for it
        run into the next sector, and behind the last one read into memory whose contents are unknown. */
    method ProcessReadCdIso2048Cmd(offset: nat, size: nat, buf: array<byte>) returns (ghost d: seq<byte>)
      requires Sized() && size <= buf.Length
      modifies this`discfd, buf
      ensures discfd.Some?
      ensures Delivered(d, Image(), sectorSize, offset / 2048, size / 2048, size / 2048)
      ensures buf[..] == Stored(old(buf[..]), 0, d)
      ensures 24 + 2048 <= sectorSize ==> d == Payload(Image(), sectorSize, offset / 2048, size / 2048)
    {
      d := DeliverAll(offset / 2048, size / 2048, buf);
    }
  }

  lemma {:induction false} PayloadSplit(img: seq<byte>, ss: nat, s: nat, n: nat, m: nat)
    ensures Payload(img, ss, s, n + m) == Payload(img, ss, s, n) + Payload(img, ss, s + n, m)
  {
    if m > 0 {
      PayloadSplit(img, ss, s, n, m - 1);
      hide Slice;
      var p := Slice(img, (s + n + m - 1) * ss + 24, 2048);
      assert Payload(img, ss, s, n + m) == Payload(img, ss, s, n + m - 1) + p;
      assert Payload(img, ss, s + n, m) == Payload(img, ss, s + n, m - 1) + p;
    }
  }
}
