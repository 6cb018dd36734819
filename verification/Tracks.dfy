/** Track tables, their sizes, and the minute-second-frame addresses of payload/scsi.h and payload/storage_ext.c. */
module Tracks {
  import opened Common

  // ----- minute, second, frame -----

  /** Conversion to an unsigned char. */
  function U8(x: nat): (r: byte) { x % 256 }

  datatype Msf = Msf(m: byte, s: byte, f: byte)

  function LbaToMsf(lba: nat): Msf {
    Msf(U8(lba / (75 * 60)), U8((lba / 75) % 60), U8(lba % 75))
  }

  /** itob and btoi, as stored in an unsigned char. */
  function ToBcd(x: byte): byte { U8(x / 10 * 16 + x % 10) }

  function FromBcd(b: byte): nat { 10 * (b / 16) + b % 16 }

  function LbaToMsfBcd(lba: nat): Msf {
    var a := LbaToMsf(lba);
    Msf(ToBcd(a.m), ToBcd(a.s), ToBcd(a.f))
  }

  function MsfBcdToLba(a: Msf): (r: nat)
    ensures r < TWO16
  {
    ((60 * FromBcd(a.m) + FromBcd(a.s)) * 75 + FromBcd(a.f)) % TWO16
  }

  lemma Nibbles(h: nat, e: nat, d: nat)
    requires h < 16 && e < 16 && (d == h || d == h + 16)
    ensures U8(d * 16 + e) == 16 * h + e && (16 * h + e) / 16 == h && (16 * h + e) % 16 == e
  {
  }

  /** The BCD code is undone for every value below 160; above, the high digit no longer fits. */
  lemma BcdRoundTrip(x: byte)
    ensures FromBcd(ToBcd(x)) == if x < 160 then x else x - 160
  {
    var d, e := x / 10, x % 10;
    Nibbles(if d < 16 then d else d - 16, e, d);
  }

  /** The minutes that an encoded address loses: those that do not fit in 8 bits, and 160 more when the high
      digit overflows. */
  function Lost(m: nat): (r: nat)
    ensures r <= m
  {
    if m % 256 < 160 then m - m % 256 else m - m % 256 + 160
  }

  lemma BcdForm(lba: nat)
    ensures var a := LbaToMsf(lba); LbaToMsfBcd(lba) == Msf(ToBcd(a.m), ToBcd(a.s), ToBcd(a.f))
  {
  }

  lemma LostIs(m: nat)
    ensures m - Lost(m) == if m % 256 < 160 then m % 256 else m % 256 - 160
  {
  }

  lemma MsfBytes(lba: nat)
    ensures var a := LbaToMsf(lba);
      a.m == (lba / 4500) % 256 && a.s == (lba / 75) % 60 && a.f == lba % 75
  {
  }

  lemma EncodedParts(lba: nat, m: nat, s: nat, f: nat)
    requires m == lba / 4500 && s == (lba / 75) % 60 && f == lba % 75
    ensures var a := LbaToMsfBcd(lba); FromBcd(a.m) == m - Lost(m) && FromBcd(a.s) == s && FromBcd(a.f) == f
  {
    BcdForm(lba);
    MsfBytes(lba);
    LostIs(m);
    hide *;
    var a := LbaToMsf(lba);
    BcdRoundTrip(a.m);
    BcdRoundTrip(a.s);
    BcdRoundTrip(a.f);
  }

  lemma Parts(lba: nat)
    ensures 4500 * (lba / 4500) + 75 * ((lba / 75) % 60) + lba % 75 == lba
  {
    assert lba / 4500 == lba / 75 / 60;
  }

  /** What an encoded address decodes to. */
  lemma MsfDecodes(lba: nat)
    ensures 4500 * Lost(lba / 4500) <= lba
    ensures MsfBcdToLba(LbaToMsfBcd(lba)) == (lba - 4500 * Lost(lba / 4500)) % TWO16
  {
    hide LbaToMsfBcd, FromBcd, Lost;
    var m, s, f := lba / 4500, (lba / 75) % 60, lba % 75;
    EncodedParts(lba, m, s, f);
    Parts(lba);
    assert (60 * (m - Lost(m)) + s) * 75 + f == 4500 * m + 75 * s + f - 4500 * Lost(m);
  }

  lemma LowMinutes(lba: nat)
    ensures lba < 720000 ==> (lba / 4500) % 256 < 160 && (lba / 4500 / 256) % 64 == 0
  {
    if lba < 720000 {
      var m := lba / 4500;
      assert m < 160;
      assert m % 256 == m && m / 256 == 0;
    }
  }

  lemma SameModulo(x: nat, d: nat)
    requires d <= x
    ensures (x - d) % TWO16 == x % TWO16 <==> d % TWO16 == 0
  {
  }

  lemma WholeBytes(j: nat)
    requires j < 64
    ensures (4500 * 256 * j) % TWO16 == 0 <==> j == 0
  {
    if (4500 * 256 * j) % TWO16 == 0 {
      var t := (4500 * 256 * j) / TWO16;
      assert 1125 * j == 64 * t;
      assert j == 64 * (45 * t - 791 * j);
    }
  }

  lemma ModDrop(q: nat, x: nat)
    ensures (TWO16 * q + x) % TWO16 == x % TWO16
  {
  }

  lemma OddByte(k: nat)
    ensures (4500 * (256 * k + 160)) % TWO16 != 0
  {
    var x := 9000 * k + 5625;
    assert 4500 * (256 * k + 160) == 128 * x && x % 2 == 1;
    var q, r := x / 512, x % 512;
    assert 128 * x == TWO16 * q + 128 * r;
    ModDrop(q, 128 * r);
  }

  lemma LostMinutes(m: nat)
    ensures (4500 * Lost(m)) % TWO16 == 0 <==> m % 256 < 160 && (m / 256) % 64 == 0
  {
    var k := m / 256;
    var q, j := k / 64, k % 64;
    if m % 256 < 160 {
      assert Lost(m) == 256 * k;
      WholeBytes(j);
      assert 4500 * (256 * k) == TWO16 * (1125 * q) + 4500 * 256 * j;
      ModDrop(1125 * q, 4500 * 256 * j);
    } else {
      assert Lost(m) == 256 * k + 160;
      OddByte(k);
    }
  }

  /** Decoding undoes encoding modulo 2^16 exactly when the minutes, kept in 8 bits, are below 160 and the bits
      dropped from them are a multiple of 2^14 minutes: on every disc of less than 720000 sectors. */
  lemma MsfRoundTrip(lba: nat)
    ensures MsfBcdToLba(LbaToMsfBcd(lba)) == lba % TWO16 <==>
            (lba / 4500) % 256 < 160 && (lba / 4500 / 256) % 64 == 0
    ensures lba < 720000 ==> MsfBcdToLba(LbaToMsfBcd(lba)) == lba % TWO16
  {
    hide LbaToMsfBcd, MsfBcdToLba;
    MsfDecodes(lba);
    SameModulo(lba, 4500 * Lost(lba / 4500));
    LostMinutes(lba / 4500);
    LowMinutes(lba);
    hide *;
  }

  // ----- track tables -----

  datatype Track = Track(adrControl: byte, number: byte, start: nat)

  /** The sector after track i: the start of the next one, or the end of the disc. */
  function TrackEnd(ts: seq<Track>, numSectors: nat, i: nat): nat
    requires i < |ts|
  {
    if i == |ts| - 1 then numSectors else ts[i + 1].start
  }

  predicate Holds(ts: seq<Track>, numSectors: nat, i: nat, lba: nat)
    requires i < |ts|
  {
    ts[i].start <= lba < TrackEnd(ts, numSectors, i)
  }

  /** Tracks in disc order, all of them on the disc. */
  ghost predicate Ascending(ts: seq<Track>, numSectors: nat) {
    && numSectors < TWO32
    && (forall i, j :: 0 <= i < j < |ts| ==> ts[i].start <= ts[j].start)
    && forall i :: 0 <= i < |ts| ==> ts[i].start <= numSectors
  }

  /** find_track_by_lba: the first track that holds the sector. */
  method FindTrackByLba(ts: seq<Track>, numSectors: nat, lba: nat) returns (r: Option<nat>)
    ensures r.Some? ==> r.value < |ts| && Holds(ts, numSectors, r.value, lba)
    ensures forall i :: 0 <= i < (if r.Some? then r.value else |ts|) ==> !Holds(ts, numSectors, i, lba)
  {
    for i := 0 to |ts|
      invariant forall j :: 0 <= j < i ==> !Holds(ts, numSectors, j, lba)
    {
      var trackStart := ts[i].start;
      var trackEnd;
      if i == |ts| - 1 {
        trackEnd := numSectors;
      } else {
        trackEnd := ts[i + 1].start;
      }
      if lba >= trackStart && lba < trackEnd {
        return Some(i);
      }
    }
    return None;
  }

  lemma LaterTrack(ts: seq<Track>, numSectors: nat, i: nat, j: nat)
    requires Ascending(ts, numSectors) && i < j < |ts|
    ensures TrackEnd(ts, numSectors, i) <= ts[j].start
  {
    assert i + 1 < j ==> ts[i + 1].start <= ts[j].start;
  }

  /** No sector lies in two tracks. */
  lemma UniqueTrack(ts: seq<Track>, numSectors: nat, lba: nat, i: nat, j: nat)
    requires Ascending(ts, numSectors) && i < |ts| && j < |ts|
    requires Holds(ts, numSectors, i, lba) && Holds(ts, numSectors, j, lba)
    ensures i == j
  {
    if i < j {
      LaterTrack(ts, numSectors, i, j);
    } else if j < i {
      LaterTrack(ts, numSectors, j, i);
    }
  }

  lemma LastStarted(ts: seq<Track>, lba: nat) returns (i: nat)
    requires |ts| > 0 && ts[0].start <= lba
    ensures i < |ts| && ts[i].start <= lba && (i + 1 < |ts| ==> lba < ts[i + 1].start)
  {
    i := 0;
    while i + 1 < |ts| && ts[i + 1].start <= lba
      invariant i < |ts| && ts[i].start <= lba
    {
      i := i + 1;
    }
  }

  /** Exactly the sectors between the first track and the lead-out lie in some track. */
  lemma TracksCover(ts: seq<Track>, numSectors: nat, lba: nat)
    requires Ascending(ts, numSectors)
    ensures (exists i :: 0 <= i < |ts| && Holds(ts, numSectors, i, lba)) <==>
            |ts| > 0 && ts[0].start <= lba < numSectors
  {
    if |ts| > 0 && ts[0].start <= lba < numSectors {
      var i := LastStarted(ts, lba);
      assert Holds(ts, numSectors, i, lba);
    }
  }

  /** READ TRACK INFORMATION: the size of a track given by its number, as a 32-bit difference. */
  function TrackSize(ts: seq<Track>, numSectors: nat, number: nat): (r: Option<nat>)
    ensures r.Some? <==> 1 <= number <= |ts|
  {
    if number == 0 || number > |ts| then None
    else if number == |ts| then Some((numSectors - ts[number - 1].start) % TWO32)
    else Some((ts[number].start - ts[number - 1].start) % TWO32)
  }

  lemma SmallRemainder(x: nat)
    requires x < TWO32
    ensures x % TWO32 == x
  {
  }

  lemma TrackSizeIs(ts: seq<Track>, numSectors: nat, i: nat)
    requires Ascending(ts, numSectors) && i < |ts|
    ensures TrackEnd(ts, numSectors, i) >= ts[i].start
    ensures TrackSize(ts, numSectors, i + 1) == Some(TrackEnd(ts, numSectors, i) - ts[i].start)
  {
    SmallRemainder(TrackEnd(ts, numSectors, i) - ts[i].start);
  }

  /** A sector lies in a track exactly when it is one of the sectors the reported size counts. */
  lemma SizeMatchesLookup(ts: seq<Track>, numSectors: nat, i: nat, lba: nat)
    requires Ascending(ts, numSectors) && i < |ts|
    ensures Holds(ts, numSectors, i, lba) <==> ts[i].start <= lba < ts[i].start + TrackSize(ts, numSectors, i + 1).value
  {
    TrackSizeIs(ts, numSectors, i);
  }

  /** The reported sizes of the first n tracks. */
  function SizeSum(ts: seq<Track>, numSectors: nat, n: nat): nat
    requires n <= |ts|
  {
    if n == 0 then 0 else SizeSum(ts, numSectors, n - 1) + TrackSize(ts, numSectors, n).value
  }

  lemma {:induction false} SizesUpTo(ts: seq<Track>, numSectors: nat, n: nat)
    requires Ascending(ts, numSectors) && 0 < n <= |ts|
    ensures SizeSum(ts, numSectors, n) == TrackEnd(ts, numSectors, n - 1) - ts[0].start
  {
    if n > 1 {
      SizesUpTo(ts, numSectors, n - 1);
    }
    TrackSizeIs(ts, numSectors, n - 1);
  }

  /** The reported sizes add up to the lead-out minus the first start. */
  lemma SizesFillDisc(ts: seq<Track>, numSectors: nat)
    requires Ascending(ts, numSectors) && |ts| > 0
    ensures SizeSum(ts, numSectors, |ts|) == numSectors - ts[0].start
  {
    SizesUpTo(ts, numSectors, |ts|);
  }

  /** The tracks among the first n that start behind their end. */
  function Backward(ts: seq<Track>, numSectors: nat, n: nat): (r: nat)
    requires n <= |ts|
    ensures r == 0 <==> forall i :: 0 <= i < n ==> ts[i].start <= TrackEnd(ts, numSectors, i)
  {
    if n == 0 then 0
    else Backward(ts, numSectors, n - 1) + if ts[n - 1].start <= TrackEnd(ts, numSectors, n - 1) then 0 else 1
  }

  ghost predicate Words(ts: seq<Track>, numSectors: nat) {
    numSectors < TWO32 && forall i :: 0 <= i < |ts| ==> ts[i].start < TWO32
  }

  lemma WordDifference(x: nat, y: nat)
    requires x < TWO32 && y < TWO32
    ensures (x - y) % TWO32 == if y <= x then x - y else x - y + TWO32
  {
  }

  lemma {:induction false} SizesWrapUpTo(ts: seq<Track>, numSectors: nat, n: nat)
    requires Words(ts, numSectors) && 0 < n <= |ts|
    ensures SizeSum(ts, numSectors, n)
         == TrackEnd(ts, numSectors, n - 1) - ts[0].start + TWO32 * Backward(ts, numSectors, n)
  {
    if n > 1 {
      SizesWrapUpTo(ts, numSectors, n - 1);
    }
    WordDifference(TrackEnd(ts, numSectors, n - 1), ts[n - 1].start);
  }

  /** For any table of 32-bit starts the sizes add up to the lead-out minus the first start exactly when every track
      starts no later than it ends; each one that does not adds 2^32. */
  lemma SizesFillExactly(ts: seq<Track>, numSectors: nat)
    requires Words(ts, numSectors) && |ts| > 0
    ensures SizeSum(ts, numSectors, |ts|) == numSectors - ts[0].start + TWO32 * Backward(ts, numSectors, |ts|)
    ensures SizeSum(ts, numSectors, |ts|) == numSectors - ts[0].start <==>
            forall i :: 0 <= i < |ts| ==> ts[i].start <= TrackEnd(ts, numSectors, i)
  {
    SizesWrapUpTo(ts, numSectors, |ts|);
  }

  /** With starts out of order a size wraps around and the sizes no longer add up. */
  lemma SizeWraps()
    ensures var ts := [Track(0x14, 1, 10), Track(0x14, 2, 5)];
      TrackSize(ts, 20, 1) == Some(TWO32 - 5) && SizeSum(ts, 20, 2) != 20 - 10
  {
    var ts := [Track(0x14, 1, 10), Track(0x14, 2, 5)];
    assert SizeSum(ts, 20, 2) == SizeSum(ts, 20, 1) + TrackSize(ts, 20, 2).value;
  }

  // ----- READ TOC -----

  const LEADOUT: byte := 0xAA

  /** READ TOC: the track descriptors and the lead-out. */
  function Toc(ts: seq<Track>, numSectors: nat): seq<Track> {
    ts + [Track(0x10, LEADOUT, numSectors)]
  }

  /** The two commands agree: each reported size is the distance to the next entry of the table of contents. */
  lemma TocAgreesWithSizes(ts: seq<Track>, numSectors: nat, number: nat)
    requires 1 <= number <= |ts|
    ensures var toc := Toc(ts, numSectors);
      TrackSize(ts, numSectors, number) == Some((toc[number].start - toc[number - 1].start) % TWO32)
  {
  }

  // ----- READ CD with the formatted Q sub-channel -----

  datatype SubQ = SubQ(controlAdr: byte, trackNumber: byte, index: byte, rel: Msf, abs: Msf)

  /** Swap the two nibbles of a track descriptor's ADR and control byte. */
  function SwapNibbles(x: byte): (r: byte)
    ensures r / 16 == x % 16 && r % 16 == x / 16
  {
    (x % 16) * 16 + x / 16
  }

  /** The k-th sector of a request, and the frame its record names: both 32-bit. */
  function Lba(first: nat, k: nat): nat { (first + k) % TWO32 }

  function Frame(lba: nat): nat { (lba + 150) % TWO32 }

  /** A record generated for a sector of a track. */
  ghost predicate IsRecord(q: SubQ, t: Track, lba: nat, userData: bool) {
    && q.controlAdr == SwapNibbles(t.adrControl) && q.trackNumber == t.number && q.index == 1
    && q.abs == LbaToMsfBcd(Frame(lba)) && q.rel == if userData then LbaToMsfBcd(lba) else Msf(0, 0, 0)
  }

  /** The record is one of the first track that holds the sector. */
  ghost predicate FromItsTrack(q: SubQ, ts: seq<Track>, numSectors: nat, lba: nat, userData: bool) {
    exists i :: 0 <= i < |ts| && Holds(ts, numSectors, i, lba) && IsRecord(q, ts[i], lba, userData)
                && forall j :: 0 <= j < i ==> !Holds(ts, numSectors, j, lba)
  }

  ghost predicate Held(ts: seq<Track>, numSectors: nat, lba: nat) {
    exists i :: 0 <= i < |ts| && Holds(ts, numSectors, i, lba)
  }

  function MakeRecord(t: Track, lba: nat, userData: bool): SubQ {
    SubQ(SwapNibbles(t.adrControl), t.number, 1, if userData then LbaToMsfBcd(lba) else Msf(0, 0, 0),
         LbaToMsfBcd(Frame(lba)))
  }

  lemma RecordIs(t: Track, lba: nat, userData: bool)
    ensures IsRecord(MakeRecord(t, lba, userData), t, lba, userData)
  {
    hide LbaToMsfBcd, SwapNibbles;
  }

  /** Two decimal digits in one byte. */
  predicate Decimal(b: byte, v: nat) {
    b / 16 == v / 10 && b % 16 == v % 10 && b / 16 < 10
  }

  /** The code of a number is its two decimal digits exactly when it has no more than two. */
  lemma DecimalCode(x: byte)
    ensures Decimal(ToBcd(x), x) <==> x < 100
  {
    var d, e := x / 10, x % 10;
    Nibbles(if d < 16 then d else d - 16, e, d);
    hide ToBcd;
  }

  /** Minute, second and frame of a sector, at 75 frames a second, in decimal digits. */
  predicate Addresses(a: Msf, lba: nat) {
    Decimal(a.m, lba / 75 / 60) && Decimal(a.s, lba / 75 % 60) && Decimal(a.f, lba % 75)
  }

  lemma MinuteOf(lba: nat)
    ensures lba / 4500 == lba / 75 / 60 && (lba < 450000 <==> lba / 4500 < 100)
    ensures (lba / 75) % 60 < 60 && lba % 75 < 75
  {
  }

  lemma DecimalMinute(m: nat)
    requires Decimal(ToBcd(m % 256), m)
    ensures m < 100
  {
    hide ToBcd;
    assert m / 10 < 10;
  }

  /** An address is encoded in decimal digits exactly below minute 100. */
  lemma AddressDigits(lba: nat)
    ensures Addresses(LbaToMsfBcd(lba), lba) <==> lba < 450000
  {
    hide Decimal, ToBcd, LbaToMsf;
    var m, s, f := lba / 4500, (lba / 75) % 60, lba % 75;
    MsfBytes(lba);
    MinuteOf(lba);
    DecimalCode(s);
    DecimalCode(f);
    DecimalCode(m % 256);
    if Decimal(ToBcd(m % 256), m) {
      DecimalMinute(m);
    }
  }

  predicate InTrack(ts: seq<Track>, numSectors: nat, i: nat, lba: nat) {
    i < |ts| && ts[i].start <= lba && (if i + 1 < |ts| then lba < ts[i + 1].start else lba < numSectors)
  }

  /** What a record holds: it is one of the first track that starts no later than its sector and ends behind it,
      with the nibbles of its control byte exchanged, and below minute 100 its addresses are in decimal digits. */
  ghost predicate Recorded(q: SubQ, ts: seq<Track>, numSectors: nat, lba: nat, userData: bool) {
    && (exists i :: 0 <= i < |ts| && InTrack(ts, numSectors, i, lba) && q.trackNumber == ts[i].number
           && q.controlAdr / 16 == ts[i].adrControl % 16 && q.controlAdr % 16 == ts[i].adrControl / 16
           && forall j :: 0 <= j < i ==> !InTrack(ts, numSectors, j, lba))
    && q.index == 1 && (lba + 150 < 450000 ==> Addresses(q.abs, lba + 150))
    && (userData && lba < 450000 ==> Addresses(q.rel, lba)) && (!userData ==> q.rel == Msf(0, 0, 0))
  }

  lemma InTrackIs(ts: seq<Track>, numSectors: nat, i: nat, lba: nat)
    requires i < |ts|
    ensures Holds(ts, numSectors, i, lba) <==> InTrack(ts, numSectors, i, lba)
  {
  }

  lemma RecordHolds(q: SubQ, ts: seq<Track>, numSectors: nat, lba: nat, userData: bool)
    requires FromItsTrack(q, ts, numSectors, lba, userData) && lba < TWO32
    ensures Recorded(q, ts, numSectors, lba, userData)
  {
    forall i | 0 <= i < |ts|
      ensures Holds(ts, numSectors, i, lba) <==> InTrack(ts, numSectors, i, lba)
    {
      InTrackIs(ts, numSectors, i, lba);
    }
    AddressDigits(lba);
    AddressDigits(lba + 150);
    hide Holds, InTrack, Addresses, LbaToMsfBcd;
    if lba + 150 < 450000 {
      SmallRemainder(lba + 150);
    }
  }

  lemma RecordFound(ts: seq<Track>, numSectors: nat, lba: nat, i: nat, userData: bool)
    requires i < |ts| && Holds(ts, numSectors, i, lba) && lba < TWO32
    requires forall j :: 0 <= j < i ==> !Holds(ts, numSectors, j, lba)
    ensures var q := MakeRecord(ts[i], lba, userData);
      && Held(ts, numSectors, lba) && FromItsTrack(q, ts, numSectors, lba, userData)
      && Recorded(q, ts, numSectors, lba, userData)
  {
    hide Holds, IsRecord, MakeRecord, Recorded;
    RecordIs(ts[i], lba, userData);
    RecordHolds(MakeRecord(ts[i], lba, userData), ts, numSectors, lba, userData);
  }

  lemma NextSector(first: nat, k: nat)
    ensures Lba(first, k + 1) == (Lba(first, k) + 1) % TWO32 && Lba(first, k) < TWO32
    ensures Lba(first, k) == (first + k) % 0x1_0000_0000 && (first < TWO32 ==> Lba(first, 0) == first)
  {
  }

  /** One record per sector, up to the first sector that lies in no track: there the original dereferences a null
      pointer. */
  method ReadCdQ(ts: seq<Track>, numSectors: nat, first: nat, length: nat, userData: bool) returns (qs: seq<SubQ>)
    requires first < TWO32
    ensures |qs| <= length && forall k :: 0 <= k < |qs| ==> Held(ts, numSectors, Lba(first, k))
    ensures |qs| < length ==> !Held(ts, numSectors, Lba(first, |qs|))
    ensures forall k :: 0 <= k < |qs| ==> FromItsTrack(qs[k], ts, numSectors, Lba(first, k), userData)
    ensures forall k :: 0 <= k < |qs| ==> Recorded(qs[k], ts, numSectors, (first + k) % 0x1_0000_0000, userData)
  {
    hide Holds, MakeRecord, Recorded, FromItsTrack, Lba;
    qs := [];
    var lba := first;
    NextSector(first, 0);
    for k := 0 to length
      invariant lba == Lba(first, k) && |qs| == k
      invariant forall j :: 0 <= j < k ==> Held(ts, numSectors, Lba(first, j))
      invariant forall j :: 0 <= j < k ==> FromItsTrack(qs[j], ts, numSectors, Lba(first, j), userData)
      invariant forall j :: 0 <= j < k ==> Recorded(qs[j], ts, numSectors, (first + j) % 0x1_0000_0000, userData)
    {
      NextSector(first, k);
      var t := FindTrackByLba(ts, numSectors, lba);
      if t.None? {
        return;
      }
      RecordFound(ts, numSectors, lba, t.value, userData);
      qs := qs + [MakeRecord(ts[t.value], lba, userData)];
      lba := (lba + 1) % TWO32;
    }
  }

  /** In an ascending table the records reach the end of the request exactly when all of it lies between the first
      track and the lead-out. */
  lemma AllSectorsHeld(ts: seq<Track>, numSectors: nat, first: nat, length: nat)
    requires Ascending(ts, numSectors) && 0 < length && first + length <= TWO32
    ensures (forall k :: 0 <= k < length ==> Held(ts, numSectors, Lba(first, k))) <==>
            |ts| > 0 && ts[0].start <= first && first + length <= numSectors
  {
    hide Ascending;
    forall k | 0 <= k < length
      ensures Held(ts, numSectors, Lba(first, k)) <==> |ts| > 0 && ts[0].start <= first + k < numSectors
    {
      SmallRemainder(first + k);
      TracksCover(ts, numSectors, first + k);
    }
    assert Held(ts, numSectors, Lba(first, 0)) ==> ts[0].start <= first;
    assert Held(ts, numSectors, Lba(first, length - 1)) ==> first + length <= numSectors;
  }

  lemma ZeroMsf()
    ensures MsfBcdToLba(Msf(0, 0, 0)) == 0
  {
  }

  /** A record decodes to the sector 150 frames further on, modulo 2^16, exactly when that frame's minutes fit: on
      every disc of less than 720000 sectors. */
  lemma RecordDecodes(q: SubQ, t: Track, lba: nat, userData: bool)
    requires IsRecord(q, t, lba, userData)
    ensures MsfBcdToLba(q.abs) == Frame(lba) % TWO16 <==>
            (Frame(lba) / 4500) % 256 < 160 && (Frame(lba) / 4500 / 256) % 64 == 0
    ensures lba + 150 < 720000 ==>
              MsfBcdToLba(q.abs) == (lba + 150) % TWO16 && MsfBcdToLba(q.rel) == if userData then lba % TWO16 else 0
  {
    hide LbaToMsfBcd, MsfBcdToLba, SwapNibbles;
    MsfRoundTrip(Frame(lba));
    MsfRoundTrip(lba);
    ZeroMsf();
    if lba + 150 < 720000 {
      SmallRemainder(lba + 150);
    }
  }
}
