/** The linked list of payload/mappath.c, with its buffers, counters and lookup globals. */
module PathTable {
  import opened Common
  import opened PathRuns
  import PathLaws
  import opened PathSpec

  // ----- C strings in buffers -----

  /** The C string that starts at index from. */
  ghost function CStrAt(b: seq<char>, from: nat): (s: string)
    ensures NoNul(s) && (from <= |b| ==> from + |s| <= |b|)
    decreases |b| - from
  {
    if from >= |b| || b[from] == '\0' then "" else [b[from]] + CStrAt(b, from + 1)
  }

  /** A NUL stops the string before the buffer ends. */
  ghost predicate Terminated(b: seq<char>, from: nat) {
    from + |CStrAt(b, from)| < |b|
  }

  lemma FirstChar(b: seq<char>, from: nat, s: string)
    requires 0 < |s| && from + |s| < |b| && b[from..from + |s|] == s && NoNul(s)
    ensures b[from] == s[0] != '\0' && NoNul(s[1..]) && b[from + 1..from + 1 + |s[1..]|] == s[1..]
  {
    assert b[from] == b[from..from + |s|][0] && s[0] in s;
    assert b[from + 1..from + 1 + |s[1..]|] == b[from..from + |s|][1..];
  }

  lemma {:induction false} CStrIs(b: seq<char>, from: nat, s: string)
    requires from + |s| < |b| && b[from..from + |s|] == s && NoNul(s) && b[from + |s|] == '\0'
    ensures CStrAt(b, from) == s && Terminated(b, from)
    decreases |s|
  {
    if s != "" {
      FirstChar(b, from, s);
      hide NoNul;
      CStrIs(b, from + 1, s[1..]);
      assert s == [s[0]] + s[1..];
    }
  }

  lemma {:induction false} CStrPrefix(b: seq<char>, from: nat)
    requires Terminated(b, from)
    ensures var s := CStrAt(b, from);
      b[from..from + |s|] == s && b[from + |s|] == '\0' && forall k :: 0 <= k < |s| ==> b[from + k] == s[k] != '\0'
    decreases |b| - from
  {
    var s := CStrAt(b, from);
    if s != "" {
      CStrPrefix(b, from + 1);
      assert b[from..from + |s|] == [b[from]] + b[from + 1..from + |s|];
      assert forall k :: 0 <= k < |s| ==> s[k] in s;
    }
  }

  /** What strncpy stores for a source string s: n characters, padded with NULs. */
  function Padded(s: string, n: nat): (r: seq<char>)
    ensures |r| == n
  {
    Trunc(s, n) + seq(n - |Trunc(s, n)|, i => '\0')
  }

  method StrNCpy(dst: array<char>, off: nat, s: string, n: nat)
    requires off + n <= dst.Length
    modifies dst
    ensures dst[..] == old(dst[..off]) + Padded(s, n) + old(dst[off + n..])
  {
    var p := Padded(s, n);
    forall i | off <= i < off + n {
      dst[i] := p[i - off];
    }
  }

  /** The C string at an offset, read off character by character (its length is strlen). */
  method ReadString(b: array<char>, from: nat) returns (s: string)
    requires Terminated(b[..], from)
    ensures s == CStrAt(b[..], from)
  {
    CStrPrefix(b[..], from);
    ghost var t := CStrAt(b[..], from);
    forall j | from <= j < from + |t|
      ensures b[j] == t[j - from] != '\0'
    {
      assert b[..][from + (j - from)] == t[j - from];
    }
    s := "";
    var i := from;
    while b[i] != '\0'
      invariant from <= i <= from + |t| && s == t[..i - from]
      decreases from + |t| - i
    {
      s := s + [b[i]];
      i := i + 1;
    }
  }

  lemma {:induction false} CStrSplit(b: seq<char>, from: nat, n: nat)
    requires n <= |CStrAt(b, from)|
    ensures CStrAt(b, from) == CStrAt(b, from)[..n] + CStrAt(b, from + n)
    decreases n
  {
    if n > 0 {
      CStrSplit(b, from + 1, n - 1);
      var s := CStrAt(b, from + 1);
      assert CStrAt(b, from) == [b[from]] + s;
      assert ([b[from]] + s)[..n] == [b[from]] + s[..n - 1];
    }
  }

  lemma TruncCons(c: char, s: string, n: nat)
    requires n > 0
    ensures Trunc([c] + s, n) == [c] + Trunc(s, n - 1)
  {
    assert |s| >= n ==> ([c] + s)[..n] == [c] + s[..n - 1];
  }

  /** Only the first n characters of a buffer decide what is read from them. */
  lemma {:induction false} SameView(a: seq<char>, b: seq<char>, from: nat, n: nat)
    requires from <= n <= |a| && n <= |b| && a[..n] == b[..n]
    ensures Trunc(CStrAt(a, from), n - from) == Trunc(CStrAt(b, from), n - from)
    decreases n - from
  {
    if from < n {
      assert a[from] == a[..n][from] == b[from];
      if a[from] != '\0' {
        SameView(a, b, from + 1, n);
        TruncCons(a[from], CStrAt(a, from + 1), n - from);
        TruncCons(a[from], CStrAt(b, from + 1), n - from);
      }
    }
  }

  /** A buffer whose first n characters read as target and that holds tail and a NUL from n on: the tail is
      part of the string exactly when the target fills the n characters. */
  lemma ViewPlusTail(b: seq<char>, n: nat, tail: string)
    requires n + |tail| < |b| && b[n..n + |tail|] == tail && NoNul(tail) && b[n + |tail|] == '\0'
    ensures Terminated(b, 0) && CStrAt(b, n) == tail
    ensures var target := Trunc(CStrAt(b, 0), n);
      CStrAt(b, 0) == if |target| == n then target + tail else target
  {
    CStrIs(b, n, tail);
    var s := CStrAt(b, 0);
    if |s| >= n {
      CStrSplit(b, 0, n);
      assert Trunc(s, n) == s[..n];
    }
  }

  /** The first n characters of a buffer, or fewer when a NUL comes first, as strncmp reads them. */
  method ReadPrefix(b: array<char>, n: nat) returns (s: string)
    requires n <= b.Length
    ensures s == Trunc(CStrAt(b[..], 0), n)
  {
    s := "";
    var i := 0;
    ghost var bs := b[..];
    hide NoNul;
    while i < n && b[i] != '\0'
      invariant 0 <= i <= n && |s| == i && bs == b[..] && CStrAt(bs, 0) == s + CStrAt(bs, i)
    {
      assert CStrAt(bs, i) == [b[i]] + CStrAt(bs, i + 1);
      assert s + ([b[i]] + CStrAt(bs, i + 1)) == (s + [b[i]]) + CStrAt(bs, i + 1);
      s := s + [b[i]];
      i := i + 1;
    }
  }

  // ----- entries -----

  /** strncpy(buf, target, nlen + 1); buf[nlen] = 0. */
  method WriteTarget(buf: array<char>, target: string, nlen: nat)
    requires NoNul(target) && |target| <= nlen < buf.Length
    modifies buf
    ensures Trunc(CStrAt(buf[..], 0), nlen) == target
  {
    StrNCpy(buf, 0, target, nlen + 1);
    assert buf[..][..|target|] == target && (|target| < nlen ==> buf[..][|target|] == '\0');
    buf[nlen] := '\0';
    assert buf[..][0..0 + |target|] == target && buf[..][0 + |target|] == '\0';
    CStrIs(buf[..], 0, target);
  }

  /** A heap block, or a caller's string, holding a key. */
  class KeyBlock {
    const text: string

    constructor (text: string)
      ensures this.text == text
    {
      this.text := text;
    }
  }

  /** The heap block an entry lives in. */
  class Storage {
    constructor () {}
  }

  /** MapEntry_t, payload/mappath.c:22-29. copied records whether the key block was allocated for the entry. */
  class MapEntry {
    const storage: Storage
    const oldPath: KeyBlock
    const oldPathLen: nat
    const newPath: array<char>
    var newPathLen: nat
    var flags: Flags
    var next: MapEntry?
    ghost const copied: bool

    constructor (storage: Storage, oldPath: KeyBlock, oldPathLen: nat, newPath: array<char>, newPathLen: nat,
            flags: Flags)
      ensures this.storage == storage && this.oldPath == oldPath && this.oldPathLen == oldPathLen
      ensures this.newPath == newPath
      ensures this.newPathLen == newPathLen && this.flags == flags && next == null
      ensures copied == Has(flags, FLAG_COPY)
    {
      this.storage, this.oldPath, this.oldPathLen := storage, oldPath, oldPathLen;
      this.newPath, this.newPathLen := newPath, newPathLen;
      this.flags, next := flags, null;
      copied := Has(flags, FLAG_COPY);
    }

    ghost predicate Sound()
      reads this`newPathLen, this`flags
    {
      && newPath.Length == MAX_PATH && newPathLen < MAX_PATH && copied == Has(flags, FLAG_COPY)
      && NoNul(oldPath.text) && |oldPath.text| <= oldPathLen
    }

    /** The target as strncmp(newpath, ..., newpath_len) reads it. */
    ghost function Target(): string
      reads this`newPathLen, newPath
    {
      Trunc(CStrAt(newPath[..], 0), newPathLen)
    }

    ghost function Value(): Mapping
      reads this`newPathLen, this`flags, newPath
    {
      Mapping(oldPath.text, oldPathLen, Target(), newPathLen, flags)
    }

    /** A new target and new flags; ownership of the key is kept. */
    method Retarget(target: string, nlen: nat, flags: Flags)
      requires Sound() && NoNul(target) && |target| <= nlen < MAX_PATH
      modifies this`newPathLen, this`flags, newPath
      ensures Sound()
      ensures Value() == Mapping(oldPath.text, oldPathLen, target, nlen, UpdatedFlags(old(this.flags), flags))
    {
      hide Has, NoNul;
      WriteTarget(newPath, target, nlen);
      newPathLen := nlen;
      this.flags := UpdatedFlags(this.flags, flags);
    }

    /** The heap blocks the entry owns. */
    ghost function Blocks(): set<object> {
      {storage, newPath} + if copied then {oldPath} else {}
    }

    /** The bytes in those blocks. */
    ghost function Bytes(): nat {
      ENTRY_SIZE + MAX_PATH + if copied then oldPathLen + 1 else 0
    }
  }

  ghost function PathsOf(es: seq<MapEntry>): set<array<char>> {
    set e | e in es :: e.newPath
  }

  lemma PathsOfRest(es: seq<MapEntry>)
    requires es != []
    ensures es[0] in es && forall e :: e in es[1..] ==> e in es
    ensures es[0].newPath in PathsOf(es) && PathsOf(es[1..]) <= PathsOf(es)
  {
  }

  /** The mappings of a list of entries. */
  ghost function Values(es: seq<MapEntry>): (t: seq<Mapping>)
    reads es`newPathLen, es`flags, PathsOf(es)
    ensures |t| == |es| && forall i :: 0 <= i < |t| ==> t[i] == es[i].Value()
  {
    if es == [] then []
    else
      PathsOfRest(es);
      [es[0].Value()] + Values(es[1..])
  }

  /** The target buffers of a list of entries. */
  ghost function Contents(es: seq<MapEntry>): (bs: seq<seq<char>>)
    reads PathsOf(es)
    ensures |bs| == |es| && forall i :: 0 <= i < |bs| ==> bs[i] == es[i].newPath[..]
  {
    if es == [] then []
    else
      PathsOfRest(es);
      [es[0].newPath[..]] + Contents(es[1..])
  }

  ghost predicate BufferKept(e: MapEntry, before: seq<char>, r: MapEntry?)
    reads e`newPathLen, e.newPath
  {
    && (e == r || e.newPath[..] == before)
    && e.newPathLen <= |before| == e.newPath.Length && e.newPath[..e.newPathLen] == before[..e.newPathLen]
  }

  ghost function Node(es: seq<MapEntry>, i: nat): MapEntry? {
    if i < |es| then es[i] else null
  }

  /** The i-th entry points to the next one of the list, the last to none. */
  ghost predicate LinkAt(es: seq<MapEntry>, i: nat)
    requires i < |es|
    reads es`next
  {
    es[i].next == Node(es, i + 1)
  }

  ghost function AllBlocks(es: seq<MapEntry>): set<object> {
    set e, o | e in es && o in e.Blocks() :: o
  }

  /** No block belongs to two entries. */
  ghost predicate Separate(es: seq<MapEntry>) {
    forall i, j :: 0 <= i < j < |es| ==>
      && es[i] != es[j] && es[i].storage != es[j].storage
      && es[i].newPath != es[j].newPath && es[i].oldPath != es[j].oldPath
  }

  ghost function HeldBytes(es: seq<MapEntry>): nat {
    if es == [] then 0 else es[0].Bytes() + HeldBytes(es[1..])
  }

  /** A key that lookups by key can find. */
  ghost predicate Live(e: MapEntry) {
    e.oldPathLen == |e.oldPath.text| > 6
  }

  ghost predicate DistinctKeys(es: seq<MapEntry>) {
    forall i, j :: 0 <= i < j < |es| && Live(es[i]) && Live(es[j]) ==> es[i].oldPath.text != es[j].oldPath.text
  }

  /** Keys that can be looked up are distinct, every live block is owned by one entry and every owned
      block is live, the count is the length, and the counted bytes cover the bytes held. */
  ghost predicate Accounts(es: seq<MapEntry>, owned: set<object>, mpcount: nat, bytes: nat) {
    && Separate(es) && DistinctKeys(es)
    && owned == AllBlocks(es)
    && mpcount == |es|
    && HeldBytes(es) <= bytes <= MAX_TABLE_SIZE
  }

  lemma {:induction false} HeldWithout(es: seq<MapEntry>, k: nat)
    requires k < |es|
    ensures HeldBytes(Cut(es, k)) + es[k].Bytes() == HeldBytes(es)
  {
    if k == 0 {
      assert Cut(es, 0) == es[1..];
    } else {
      HeldWithout(es[1..], k - 1);
      assert Cut(es, k) == [es[0]] + Cut(es[1..], k - 1);
    }
  }

  lemma BlocksWithout(es: seq<MapEntry>, k: nat)
    requires k < |es| && Separate(es)
    ensures AllBlocks(Cut(es, k)) == AllBlocks(es) - es[k].Blocks()
    ensures Separate(Cut(es, k)) && (DistinctKeys(es) ==> DistinctKeys(Cut(es, k)))
  {
    var ws := Cut(es, k);
    forall i | 0 <= i < |ws|
      ensures ws[i] == es[if i < k then i else i + 1]
    {
    }
    forall o | o in AllBlocks(es) && o !in es[k].Blocks()
      ensures o in AllBlocks(ws)
    {
      var i :| 0 <= i < |es| && o in es[i].Blocks();
      assert ws[if i < k then i else i - 1] == es[i];
    }
    forall o | o in AllBlocks(ws)
      ensures o in AllBlocks(es) && o !in es[k].Blocks()
    {
      var i :| 0 <= i < |ws| && o in ws[i].Blocks();
      var j := if i < k then i else i + 1;
      assert es[j] in es;
    }
  }

  lemma AccountsWithout(es: seq<MapEntry>, owned: set<object>, mpcount: nat, bytes: nat, k: nat)
    requires Accounts(es, owned, mpcount, bytes) && k < |es|
    ensures mpcount > 0 && Accounts(Cut(es, k), owned - es[k].Blocks(), mpcount - 1, bytes)
    ensures es[k].Blocks() <= owned
  {
    assert es[k] in es;
    BlocksWithout(es, k);
    HeldWithout(es, k);
  }

  lemma {:induction false} HeldAppend(es: seq<MapEntry>, e: MapEntry)
    ensures HeldBytes(es + [e]) == HeldBytes(es) + e.Bytes()
  {
    if es == [] {
      assert [] + [e] == [e] && [e][1..] == [];
    } else {
      HeldAppend(es[1..], e);
      assert (es + [e])[1..] == es[1..] + [e];
    }
  }

  lemma BlocksAppend(es: seq<MapEntry>, e: MapEntry)
    ensures AllBlocks(es + [e]) == AllBlocks(es) + e.Blocks()
  {
    forall o | o in AllBlocks(es) + e.Blocks()
      ensures o in AllBlocks(es + [e])
    {
      if o in AllBlocks(es) {
        var x :| x in es && o in x.Blocks();
        assert x in es + [e];
      } else {
        assert e in es + [e];
      }
    }
  }

  lemma AccountsAppend(es: seq<MapEntry>, owned: set<object>, mpcount: nat, bytes: nat, e: MapEntry, bytes': nat)
    requires Accounts(es, owned, mpcount, bytes)
    requires forall x :: x in es ==>
               x != e && x.storage != e.storage && x.newPath != e.newPath && x.oldPath != e.oldPath
    requires Live(e) ==> forall i :: 0 <= i < |es| && Live(es[i]) ==> es[i].oldPath.text != e.oldPath.text
    requires bytes + e.Bytes() <= bytes' <= MAX_TABLE_SIZE
    ensures Accounts(es + [e], owned + e.Blocks(), mpcount + 1, bytes')
  {
    BlocksAppend(es, e);
    HeldAppend(es, e);
  }

  /** A counter that only grew is still high enough. */
  lemma AccountsMore(es: seq<MapEntry>, owned: set<object>, mpcount: nat, bytes: nat, bytes': nat)
    requires Accounts(es, owned, mpcount, bytes) && bytes <= bytes' <= MAX_TABLE_SIZE
    ensures Accounts(es, owned, mpcount, bytes')
  {
  }

  lemma NewEntry(e: MapEntry, target: string)
    requires e.newPath.Length == MAX_PATH && e.newPathLen < MAX_PATH && e.copied == Has(e.flags, FLAG_COPY)
    requires NoNul(e.oldPath.text) && |e.oldPath.text| <= e.oldPathLen
    requires Trunc(CStrAt(e.newPath[..], 0), e.newPathLen) == target
    ensures e.Sound() && e.Value() == Mapping(e.oldPath.text, e.oldPathLen, target, e.newPathLen, e.flags)
    ensures e.Bytes() == Reserved(e.oldPathLen, e.flags)
    ensures e.Blocks() == {e.storage, e.newPath} + if Has(e.flags, FLAG_COPY) then {e.oldPath} else {}
  {
  }

  // ----- single facts, for proofs that hide the definitions -----

  lemma NodeInside(es: seq<MapEntry>, k: nat)
    requires k <= |es|
    ensures Node(es, k) == null <==> k == |es|
    ensures k < |es| ==> Node(es, k) == es[k]
  {
  }

  lemma WithoutMembers(es: seq<MapEntry>, k: nat)
    requires k < |es|
    ensures forall e :: e in Cut(es, k) ==> e in es
    ensures Node(Cut(es, k), k) == Node(es, k + 1)
    ensures forall i :: 0 <= i < k ==> Cut(es, k)[i] == es[i]
  {
  }

  lemma FindKeyStep(t: seq<Mapping>, k: nat, key: string)
    requires k <= |t|
    ensures k == |t| ==> FindKeyFrom(t, k, key) == None
    ensures k < |t| && t[k].keyLen == |key| && SameFirst(t[k].key, key, t[k].keyLen) ==>
              FindKeyFrom(t, k, key) == Some(k)
    ensures k < |t| && !(t[k].keyLen == |key| && SameFirst(t[k].key, key, t[k].keyLen)) ==>
              FindKeyFrom(t, k, key) == FindKeyFrom(t, k + 1, key)
  {
  }

  lemma SkipStep(s: string, i: nat)
    requires i < |s| && (s[i] != '/' || (i + 1 < |s| && (s[i + 1] == '/' || s[i + 1] == '.')))
    ensures SkipTo(s[i..]) == SkipTo(s[i + 1..])
  {
    assert s[i..][0] == s[i] && s[i..][1..] == s[i + 1..] && (i + 1 < |s| ==> s[i..][1] == s[i + 1]);
    if i + 1 == |s| {
      assert s[i + 1..] == "";
    }
  }

  lemma AddSpecIs(t: seq<Mapping>, bytes: nat, opath: Option<string>, npath: Option<string>, flags: Flags, a: Allocs)
    ensures var key := if opath.None? then None else KeyOf(opath.value);
      if key.None? || !Mappable(key.value) then
        AddSpec(t, bytes, opath, npath, flags, a) == Outcome(if npath.None? then OK else EINVAL, t, bytes)
      else
        match FindKey(t, key.value)
        case Some(i) =>
          if npath.Some? && 6 < |npath.value| < MAX_PATH then
            AddSpec(t, bytes, opath, npath, flags, a) ==
              Outcome(OK, t[i := t[i].(target := TargetOf(npath.value, flags), targetLen := |npath.value|,
                                       flags := UpdatedFlags(t[i].flags, FlagsOf(npath.value, flags)))], bytes)
          else
            AddSpec(t, bytes, opath, npath, flags, a) ==
              Outcome(DeleteSpec(t, key.value).0, DeleteSpec(t, key.value).1, bytes)
        case None =>
          if npath.None? then AddSpec(t, bytes, opath, npath, flags, a) == Outcome(OK, t, bytes)
          else var n := npath.value;
            AddSpec(t, bytes, opath, npath, flags, a) ==
              InsertSpec(t, bytes, Mapping(key.value, |opath.value|, TargetOf(n, flags), |n|, FlagsOf(n, flags)), a)
  {
  }

  lemma MapAllStep(t: seq<Mapping>, bytes: nat, app: bool, ps: seq<UserPair>, i: nat)
    requires i <= |ps|
    ensures i == 0 ==> MapAll(t, bytes, app, ps[i..]) == MapAll(t, bytes, app, ps)
    ensures i == |ps| ==> MapAll(t, bytes, app, ps[i..]) == MapRun(true, t, bytes, app)
    ensures i < |ps| ==>
              var r := MapUserSpec(t, bytes, app, ps[i], FLAG_TABLE).1;
              MapAll(t, bytes, app, ps[i..]) == if !r.ok then r else MapAll(r.table, r.bytes, r.apphome, ps[i + 1..])
  {
    hide MapUserSpec;
    if i == 0 {
      assert ps[0..] == ps;
    }
    if i < |ps| {
      assert ps[i..][0] == ps[i] && ps[i..][1..] == ps[i + 1..];
    }
  }

  lemma FirstFromStep(t: seq<Mapping>, k: nat, path: string, used: set<nat>, priority: bool)
    requires k <= |t|
    ensures k == |t| ==> FirstFrom(t, k, path, used, priority) == None
    ensures k < |t| && Eligible(t[k], path, priority) && k !in used ==> FirstFrom(t, k, path, used, priority) == Some(k)
    ensures k < |t| && !(Eligible(t[k], path, priority) && k !in used) ==>
              FirstFrom(t, k, path, used, priority) == FirstFrom(t, k + 1, path, used, priority)
  {
  }

  lemma EligibleIs(m: Mapping, path: string, priority: bool)
    ensures Eligible(m, path, priority) <==>
            && (priority ==> Has(m.flags, FLAG_MAX_PRIORITY))
            && m.keyLen <= |path| && SameFirst(m.key, path, m.keyLen) && !SameFirst(m.target, path, m.targetLen)
  {
  }

  lemma CStrSuffixEnds(b: seq<char>, n: nat)
    requires Terminated(b, 0) && n <= |CStrAt(b, 0)|
    ensures Terminated(b, n) && CStrAt(b, n) == CStrAt(b, 0)[n..] && NoNul(CStrAt(b, n))
  {
    CStrSplit(b, 0, n);
  }

  lemma TruncClean(s: string, n: nat)
    requires NoNul(s)
    ensures NoNul(Trunc(s, n)) && |Trunc(s, n)| <= n
  {
  }

  lemma PlainCopy(s: string)
    ensures Padded(s, |s|) == s
  {
  }

  lemma TmpReads(b: seq<char>, target: string, n: nat, tail: string)
    requires |b| == MAX_PATH && n + |tail| < |b| && |target| <= n && NoNul(target) && NoNul(tail)
    requires b[..n] == Padded(target, n) && b[n..n + |tail|] == tail && b[n + |tail|] == '\0'
    ensures Terminated(b, 0) && Terminated(b, n) && CStrAt(b, n) == tail
    ensures CStrAt(b, 0) == if |target| == n then target + tail else target
  {
    ViewPlusTail(b, n, tail);
    var p := b[..n] + ['\0'];
    assert p[0..0 + |target|] == target && p[0 + |target|] == '\0';
    CStrIs(p, 0, target);
    SameView(b, p, 0, n);
  }

  lemma InsertSpecIs(t: seq<Mapping>, bytes: nat, m: Mapping, a: Allocs)
    ensures var sz := (if Has(m.flags, FLAG_COPY) then m.keyLen + 1 else 0) + ENTRY_SIZE + MAX_PATH;
      InsertSpec(t, bytes, m, a) ==
      if bytes + sz > MAX_TABLE_SIZE then Outcome(EAGAIN, t, bytes)
      else if m.targetLen >= MAX_PATH then Outcome(EINVAL, t, bytes)
      else if AllocsSucceed(m.flags, a) then Outcome(OK, t + [m], bytes + Growth(m.keyLen, m.flags, a))
      else Outcome(ENOMEM, t, bytes + Growth(m.keyLen, m.flags, a))
    ensures Growth(m.keyLen, m.flags, a)
         <= (if Has(m.flags, FLAG_COPY) then m.keyLen + 1 else 0) + ENTRY_SIZE + MAX_PATH
  {
  }

  ghost predicate AllIn(es: seq<MapEntry>, nodes: set<MapEntry>) {
    forall e :: e in es ==> e in nodes
  }

  lemma AllInMeans(es: seq<MapEntry>, nodes: set<MapEntry>)
    requires AllIn(es, nodes)
    ensures forall e :: e in es ==> e in nodes
  {
  }

  lemma WithoutIn(es: seq<MapEntry>, k: nat, nodes: set<MapEntry>)
    requires AllIn(es, nodes) && k < |es|
    ensures AllIn(Cut(es, k), nodes)
  {
  }

  lemma SeparatePaths(es: seq<MapEntry>, k: nat)
    requires Separate(es) && k < |es|
    ensures forall i :: 0 <= i < |es| && i != k ==> es[i] != es[k] && es[i].newPath != es[k].newPath
  {
  }

  lemma RemovableIs(m: Mapping, flags: Flags)
    ensures Removable(m, flags) <==> (flags == 0 || Has(m.flags, flags)) && !Has(m.flags, FLAG_PROTECT)
  {
  }

  lemma DeleteSpecIs(t: seq<Mapping>, key: string)
    requires t != [] && Mappable(key)
    ensures match FindKeyFrom(t, 0, key)
      case None => DeleteSpec(t, key) == (ESRCH, t)
      case Some(i) => DeleteSpec(t, key) == if Has(t[i].flags, FLAG_PROTECT) then (EPERM, t) else (OK, Cut(t, i))
  {
  }

  lemma TrimmedIs(es: seq<MapEntry>, t: seq<Mapping>, key: string)
    requires |es| == |t|
    ensures Trimmed(es, t, t, Some(key)) == es
    ensures match FindKeyFrom(t, 0, key)
      case None => true
      case Some(i) => Trimmed(es, t, Cut(t, i), Some(key)) == Cut(es, i)
  {
  }

  /** Entries 0..j of t0 have been dealt with; the first k elements of xs are what is left of the data xs0 kept beside
      them. */
  ghost predicate Progress<T>(xs0: seq<T>, t0: seq<Mapping>, j: nat, xs: seq<T>, k: nat, flags: Flags)
    requires j <= |t0| == |xs0|
  {
    k <= |xs| && xs[..k] == KeptWith(xs0[..j], t0[..j], flags) && xs[k..] == xs0[j..]
  }

  lemma ProgressStart<T>(xs0: seq<T>, t0: seq<Mapping>, flags: Flags)
    requires |xs0| == |t0|
    ensures Progress(xs0, t0, 0, xs0, 0, flags)
  {
    assert t0[..0] == [] && xs0[0..] == xs0;
  }

  lemma ProgressStep<T>(xs0: seq<T>, t0: seq<Mapping>, j: nat, xs: seq<T>, k: nat, flags: Flags)
    requires j <= |t0| == |xs0| && Progress(xs0, t0, j, xs, k, flags) && k < |xs|
    ensures j < |t0| && xs[k] == xs0[j]
    ensures if Removable(t0[j], flags) then Progress(xs0, t0, j + 1, Cut(xs, k), k, flags)
            else Progress(xs0, t0, j + 1, xs, k + 1, flags)
  {
    hide Removable;
    assert xs[k] == xs[k..][0] && xs[k + 1..] == xs[k..][1..] == xs0[j..][1..] == xs0[j + 1..];
    KeptStep(xs0, t0, j, flags);
    assert xs[..k + 1] == xs[..k] + [xs[k]];
    assert Cut(xs, k)[..k] == xs[..k] && Cut(xs, k)[k..] == xs[k + 1..];
  }

  lemma ProgressEnd<T>(xs0: seq<T>, t0: seq<Mapping>, j: nat, xs: seq<T>, k: nat, flags: Flags)
    requires j <= |t0| == |xs0| && Progress(xs0, t0, j, xs, k, flags) && k == |xs|
    ensures j == |t0| && xs == KeptWith(xs0, t0, flags)
  {
    assert xs[..k] == xs && xs[k..] == [] && t0[..j] == t0 && xs0[..j] == xs0;
  }

  lemma ApphomeStart(app: bool, t: seq<Mapping>, flags: Flags)
    ensures ApphomeAfter(app, t[..0], flags) == app
  {
  }

  lemma ApphomeStep(app: bool, t: seq<Mapping>, j: nat, flags: Flags)
    requires j < |t|
    ensures ApphomeAfter(app, t[..j + 1], flags)
         == (ApphomeAfter(app, t[..j], flags) && !(Removable(t[j], flags) && t[j].key == "/dev_bdvd"))
  {
    hide Removable;
    assert t[..j + 1] == t[..j] + [t[j]];
  }

  lemma ApphomeEnd(app: bool, t: seq<Mapping>, j: nat, flags: Flags)
    requires j == |t|
    ensures ApphomeAfter(app, t[..j], flags) == ApphomeAfter(app, t, flags)
  {
    assert t[..j] == t;
  }

  /** What the recorded entries m and the entry found say about each entry of a list. */
  ghost function MarksOf(es: seq<MapEntry>, m: seq<MapEntry?>, found: MapEntry?): (r: seq<Mark>)
    ensures |r| == |es| && forall i :: 0 <= i < |es| ==> r[i] == Mark(es[i] in m, es[i] == found)
  {
    seq(|es|, i requires 0 <= i < |es| => Mark(es[i] in m, es[i] == found))
  }

  /** The entries of a chain. */
  ghost function Picks(es: seq<MapEntry>, c: seq<nat>): (r: seq<MapEntry?>)
    ensures |r| == |c| && forall i :: 0 <= i < |c| ==> r[i] == Node(es, c[i])
  {
    seq(|c|, i requires 0 <= i < |c| => Node(es, c[i]))
  }

  lemma TailOf(c: seq<nat>)
    requires c != []
    ensures forall i :: 1 <= i < |c| ==> c[i] == c[1..][i - 1]
  {
  }

  lemma PicksCons(es: seq<MapEntry>, c: seq<nat>, n: nat)
    requires n < |c| && c[0] < |es|
    ensures Picks(es, c[..n + 1]) == [es[c[0]]] + Picks(es, c[1..][..n])
  {
    assert c[..n + 1] == [c[0]] + c[1..][..n];
  }

  lemma MarksReset(es: seq<MapEntry>)
    ensures MarksOf(es, [], null) == seq(|es|, i => BLANK)
  {
  }

  lemma DistinctEntries(es: seq<MapEntry>)
    requires Separate(es)
    ensures forall i, j :: 0 <= i < |es| && 0 <= j < |es| && es[i] == es[j] ==> i == j
  {
  }

  lemma MarksMore(es: seq<MapEntry>, m: seq<MapEntry?>, found0: MapEntry?, c: seq<nat>, found: MapEntry?)
    requires Separate(es) && c != [] && forall i :: 0 <= i < |c| ==> c[i] < |es|
    requires found == if |c| == 1 then found0 else es[c[|c| - 2]]
    ensures MarksOf(es, m + Picks(es, c), found) == Marked(MarksOf(es, m, found0), c)
  {
    var ps := Picks(es, c);
    forall i | 0 <= i < |es|
      ensures es[i] in ps <==> i in c
      ensures |c| > 1 ==> (es[i] == es[c[|c| - 2]] <==> i == c[|c| - 2])
    {
      DistinctEntries(es);
      if i in c {
        var k :| 0 <= k < |c| && c[k] == i;
        assert ps[k] == es[i];
      }
      if es[i] in ps {
        var k :| 0 <= k < |ps| && ps[k] == es[i];
        assert c[k] == i;
      }
    }
    hide Picks, Separate;
  }

  lemma MarksTrimmed(es: seq<MapEntry>, m: seq<MapEntry?>, f: MapEntry?, t: seq<Mapping>, u: seq<Mapping>,
          key: Option<string>)
    requires |es| == |t|
    ensures MarksOf(Trimmed(es, t, u, key), m, f) == Trimmed(MarksOf(es, m, f), t, u, key)
  {
  }

  lemma {:induction false} MarksKept(es: seq<MapEntry>, m: seq<MapEntry?>, f: MapEntry?, t: seq<Mapping>, flags: Flags)
    requires |es| == |t|
    ensures MarksOf(KeptWith(es, t, flags), m, f) == KeptWith(MarksOf(es, m, f), t, flags)
  {
    hide *;
    var ms := MarksOf(es, m, f);
    KeptWithFirst(es, t, flags);
    KeptWithFirst(ms, t, flags);
    if t != [] {
      MarksKept(es[1..], m, f, t[1..], flags);
      var ks := KeptWith(es[1..], t[1..], flags);
      assert ms[1..] == MarksOf(es[1..], m, f);
      assert MarksOf([es[0]] + ks, m, f) == [ms[0]] + MarksOf(ks, m, f);
      assert MarksOf([] + ks, m, f) == [] + MarksOf(ks, m, f);
    } else {
      assert MarksOf([], m, f) == [];
    }
  }

  /** Marks follow the entries when a new one is neither recorded nor found. */
  lemma MarksFollow(es: seq<MapEntry>, es': seq<MapEntry>, m: seq<MapEntry?>, f: MapEntry?, t: seq<Mapping>, bytes: nat,
          op: TableOp)
    requires |es| == |t| && |es'| == |TableStep(t, bytes, op).table|
    requires op.DeleteAll? ==> es' == KeptWith(es, t, op.flags)
    requires !op.DeleteAll? ==> Trimmed(es, t, TableStep(t, bytes, op).table, OpKey(op)) <= es'
    requires |es'| > |t| ==> es'[|t|] !in m && es'[|t|] != f
    ensures MarksOf(es', m, f) == CarriedBy(MarksOf(es, m, f), t, bytes, op, BLANK)
  {
    hide TableStep;
    var u := TableStep(t, bytes, op).table;
    if op.DeleteAll? {
      MarksKept(es, m, f, t, op.flags);
    } else {
      MarksTrimmed(es, m, f, t, u, OpKey(op));
      assert |CarriedBy(es, t, bytes, op, null)| == |u|;
      var r := Trimmed(es, t, u, OpKey(op));
      if |u| > |t| {
        assert es' == r + [es'[|t|]];
        assert MarksOf(es', m, f) == MarksOf(r, m, f) + [BLANK];
      } else {
        assert es' == r;
      }
    }
  }

  lemma EntryHolds(e: MapEntry)
    requires e.Sound()
    ensures Reserved(e.Value().keyLen, e.Value().flags) == e.Bytes()
  {
  }

  lemma {:induction false} ValuesHold(es: seq<MapEntry>)
    requires forall e :: e in es ==> e.Sound()
    ensures Held(Values(es)) == HeldBytes(es)
  {
    if es != [] {
      ValuesHold(es[1..]);
      EntryHolds(es[0]);
      assert Values(es)[0] == es[0].Value() && Values(es)[1..] == Values(es[1..]);
      hide MapEntry.Value, MapEntry.Bytes, MapEntry.Sound, Reserved;
    }
  }

  // ----- the table -----

  class MapTable {
    var head: MapEntry?
    var found: MapEntry?
    var mpcount: nat
    var mapTableByteSize: nat
    var count: nat
    const mcount: array<MapEntry?>
    var conditionApphome: bool
    /** The entries in list order, and the blocks allocated and not yet freed. */
    ghost var spine: seq<MapEntry>
    ghost var owned: set<object>

    /** The list is acyclic and runs through exactly the spine. */
    ghost predicate Linked()
      reads this`head, this`spine, spine`next
    {
      && head == Node(spine, 0)
      && forall i :: 0 <= i < |spine| ==> LinkAt(spine, i)
    }

    ghost predicate AllSound()
      reads this`spine, spine`newPathLen, spine`flags
    {
      forall i :: 0 <= i < |spine| ==> spine[i].Sound()
    }

    ghost predicate Shape()
      reads this`head, this`spine, spine`next, spine`newPathLen, spine`flags
    {
      Linked() && AllSound()
    }

    /** What every operation keeps. */
    ghost predicate Valid()
      reads this`head, this`spine, this`owned, this`mpcount, this`mapTableByteSize
      reads spine`next, spine`newPathLen, spine`flags
    {
      mcount.Length == MAX_DEPTH && Shape() && Accounts(spine, owned, mpcount, mapTableByteSize)
    }

    ghost function Paths(): set<array<char>>
      reads this`spine
    {
      PathsOf(spine)
    }

    ghost function Table(): (t: seq<Mapping>)
      reads this`spine, spine`newPathLen, spine`flags, Paths()
      ensures |t| == |spine| && forall i :: 0 <= i < |t| ==> t[i] == spine[i].Value()
    {
      Values(spine)
    }

    constructor ()
      ensures Valid() && Table() == [] && owned == {} && mapTableByteSize == 0
      ensures found == null && count == 0 && fresh(mcount)
    {
      head, found, mpcount, mapTableByteSize, count := null, null, 0, 0, 0;
      mcount := new MapEntry?[MAX_DEPTH](i => null);
      conditionApphome := false;
      spine, owned := [], {};
    }

    lemma Open()
      requires Valid()
      ensures mcount.Length == MAX_DEPTH && Shape() && Separate(spine)
      ensures Accounts(spine, owned, mpcount, mapTableByteSize)
    {
    }

    lemma Close()
      requires mcount.Length == MAX_DEPTH && Shape() && Accounts(spine, owned, mpcount, mapTableByteSize)
      ensures Valid()
    {
    }

    // ----- memory -----

    /** dealloc: only a live block of the table may be freed, and only once. */
    method Dealloc(ghost b: object)
      requires b in owned
      modifies this`owned
      ensures owned == old(owned) - {b}
    {
      owned := owned - {b};
    }

    // ----- lookup by key, payload/mappath.c:252-269 -----

    ghost predicate Walking(key: string, k: nat, previous: MapEntry?, curr: MapEntry?)
      requires Valid()
      reads this`head, this`spine, this`owned, this`mpcount, this`mapTableByteSize
      reads spine`next, spine`newPathLen, spine`flags, Paths()
    {
      && k <= |spine| && curr == Node(spine, k) && (k > 0 ==> previous == spine[k - 1])
      && FindKeyFrom(Table(), 0, key) == FindKeyFrom(Table(), k, key)
    }

    /** curr is the first entry with the key, at index k, or null when there is none. */
    ghost predicate FoundFirst(key: string, k: nat, previous: MapEntry?, curr: MapEntry?)
      reads this`spine, spine`newPathLen, spine`flags, Paths()
    {
      match FindKeyFrom(Table(), 0, key)
      case None => curr == null
      case Some(i) => k == i && curr == spine[i] && (i > 0 ==> previous == spine[i - 1])
    }

    lemma EntryAt(k: nat)
      requires Valid() && k < |spine|
      ensures Table()[k] == spine[k].Value() && spine[k].next == Node(spine, k + 1)
      ensures spine[k].Value().flags == spine[k].flags && spine[k].Value().key == spine[k].oldPath.text
      ensures spine[k].Value().keyLen == spine[k].oldPathLen
    {
      assert LinkAt(spine, k);
    }

    lemma WalkStep(k: nat, key: string)
      requires Valid() && k < |spine|
      ensures spine[k].next == Node(spine, k + 1)
      ensures FindKeyFrom(Table(), k, key) ==
              if spine[k].oldPathLen == |key| && SameFirst(spine[k].oldPath.text, key, spine[k].oldPathLen)
              then Some(k) else FindKeyFrom(Table(), k + 1, key)
    {
      hide *;
      EntryAt(k);
      FindKeyStep(Table(), k, key);
    }

    lemma HeadIs()
      requires Valid()
      ensures head == Node(spine, 0) && (head == null <==> Table() == []) && |Table()| == |spine|
    {
    }

    lemma WalkStart(key: string)
      requires Valid()
      ensures Walking(key, 0, null, head)
    {
      HeadIs();
    }

    lemma WalkNext(key: string, k: nat, previous: MapEntry?, curr: MapEntry)
      requires Valid() && Walking(key, k, previous, curr)
      ensures k < |spine|
      ensures curr.oldPathLen == |key| && SameFirst(curr.oldPath.text, key, curr.oldPathLen) ==>
                FoundFirst(key, k, previous, curr)
      ensures !(curr.oldPathLen == |key| && SameFirst(curr.oldPath.text, key, curr.oldPathLen)) ==>
                Walking(key, k + 1, curr, curr.next)
    {
      NodeInside(spine, k);
      WalkStep(k, key);
    }

    lemma WalkEnd(key: string, k: nat, previous: MapEntry?)
      requires Valid() && Walking(key, k, previous, null)
      ensures FoundFirst(key, k, previous, null)
    {
      NodeInside(spine, k);
      FindKeyStep(Table(), k, key);
    }

    /** The list walk shared by getMapping and deleteMapping. */
    method FirstWithKey(opath: string) returns (previous: MapEntry?, curr: MapEntry?, ghost k: nat)
      requires Valid()
      ensures FoundFirst(opath, k, previous, curr)
    {
      hide *;
      WalkStart(opath);
      previous, curr, k := null, head, 0;
      ghost var n := |spine|;
      while curr != null
        invariant k <= n == |spine| && Walking(opath, k, previous, curr)
        decreases n - k
      {
        WalkNext(opath, k, previous, curr);
        if curr.oldPathLen == |opath| && SameFirst(curr.oldPath.text, opath, curr.oldPathLen) {
          return;
        }
        previous, curr, k := curr, curr.next, k + 1;
      }
      WalkEnd(opath, k, previous);
    }

    method GetMapping(opath: string) returns (ret: MapEntry?, ghost k: nat)
      requires Valid()
      ensures ret == match FindKey(Table(), opath) case None => null case Some(i) => spine[i]
      ensures ret != null ==> FindKey(Table(), opath) == Some(k)
    {
      k := 0;
      ret := null;
      if head != null && |opath| > 6 {
        var previous;
        previous, ret, k := FirstWithKey(opath);
      }
    }

    // ----- deletion, payload/mappath.c:415-535 -----

    /** The entry k leaves the list, which stays acyclic. */
    method Unlink(previous: MapEntry?, curr: MapEntry, ghost k: nat)
      requires Linked() && Separate(spine) && k < |spine| && curr == spine[k]
      requires k > 0 ==> previous == spine[k - 1]
      modifies this`head, this`spine, spine`next
      ensures spine == Cut(old(spine), k) && Linked()
    {
      ghost var es := spine;
      assert forall i, j :: 0 <= i < j < |es| ==> es[i] != es[j];
      assert LinkAt(es, k);
      hide Separate;
      if curr == head {
        head := head.next;
      } else {
        previous.next := curr.next;
      }
      spine := Cut(es, k);
      forall i | 0 <= i < |spine|
        ensures LinkAt(spine, i)
      {
        var j := if i < k then i else i + 1;
        assert spine[i] == es[j];
        assert old(LinkAt(es, j));
      }
    }

    lemma SoundWithout(es: seq<MapEntry>, k: nat)
      requires k < |es| && spine == Cut(es, k)
      requires forall i :: 0 <= i < |es| ==> es[i].Sound()
      ensures AllSound()
    {
      forall i | 0 <= i < |spine|
        ensures spine[i].Sound()
      {
        assert spine[i] == es[if i < k then i else i + 1];
      }
    }

    lemma TableWithout(t: seq<Mapping>, es: seq<MapEntry>, k: nat)
      requires k < |es| == |t| && spine == Cut(es, k)
      requires forall i :: 0 <= i < |es| ==> t[i] == es[i].Value()
      ensures Table() == Cut(t, k)
    {
      forall i | 0 <= i < |spine|
        ensures Table()[i] == Cut(t, k)[i]
      {
        assert spine[i] == es[if i < k then i else i + 1];
      }
    }

    /** The other entries keep their contents. */
    method UnlinkEntry(previous: MapEntry?, curr: MapEntry, ghost k: nat)
      requires Shape() && Separate(spine) && k < |spine| && curr == spine[k]
      requires k > 0 ==> previous == spine[k - 1]
      modifies this`head, this`spine, spine`next
      ensures spine == Cut(old(spine), k) && Shape() && curr.Sound()
      ensures Table() == Cut(old(Table()), k)
    {
      ghost var es, t := spine, Table();
      assert curr.Sound();
      hide Separate, Linked;
      Unlink(previous, curr, k);
      SoundWithout(es, k);
      TableWithout(t, es, k);
    }

    /** dealloc of everything an entry owns, and one mapping less. */
    method Release(curr: MapEntry)
      requires curr.Sound() && curr.Blocks() <= owned
      modifies this`owned, this`mpcount
      ensures owned == old(owned) - curr.Blocks()
      ensures mpcount == if old(mpcount) > 0 then old(mpcount) - 1 else 0
    {
      assert curr.storage in curr.Blocks() && curr.newPath in curr.Blocks();
      if Has(curr.flags, FLAG_COPY) {
        assert curr.oldPath in curr.Blocks();
        Dealloc(curr.oldPath);
      }
      Dealloc(curr.newPath);
      Dealloc(curr.storage);
      if mpcount > 0 {
        mpcount := mpcount - 1;
      }
    }

    /** Unlink the k-th entry, free its blocks, decrement the count. */
    method Remove(previous: MapEntry?, curr: MapEntry, ghost k: nat)
      requires Valid() && k < |spine| && curr == spine[k]
      requires k > 0 ==> previous == spine[k - 1]
      modifies this`head, this`mpcount, this`spine, this`owned, spine`next
      ensures Valid() && spine == Cut(old(spine), k)
      ensures Table() == Cut(old(Table()), k)
    {
      hide *;
      Open();
      AccountsWithout(spine, owned, mpcount, mapTableByteSize, k);
      UnlinkEntry(previous, curr, k);
      Release(curr);
      Close();
    }

    /** The entry with the key is removed unless it is protected. */
    method DeleteMapping(opath: string) returns (code: Code)
      requires Valid()
      modifies this`head, this`mpcount, this`spine, this`owned, spine`next
      ensures Valid() && (code, Table()) == DeleteSpec(old(Table()), opath)
      ensures spine == Trimmed(old(spine), old(Table()), Table(), Some(opath))
    {
      HeadIs();
      if head != null && Mappable(opath) {
        var previous, curr, k := FirstWithKey(opath);
        hide *;
        DeleteSpecIs(Table(), opath);
        TrimmedIs(spine, Table(), opath);
        if curr == null {
          assert Table() == old(Table()) && FindKeyFrom(Table(), 0, opath) == None;
          assert DeleteSpec(Table(), opath) == (ESRCH, Table());
          return ESRCH;
        }
        EntryAt(k);
        if !Has(curr.flags, FLAG_PROTECT) {
          WithoutMembers(spine, k);
          Remove(previous, curr, k);
          return OK;
        } else {
          return EPERM;
        }
      }
      return EINVAL;
    }

    /** One turn of the loop of deleteAllMappings. */
    method DeleteIfRemovable(prev: MapEntry?, curr: MapEntry, ghost k: nat, flags: Flags, ghost nodes: set<MapEntry>)
      returns (removed: bool)
      requires Valid() && AllIn(spine, nodes) && k < |spine| && curr == spine[k] && (k > 0 ==> prev == spine[k - 1])
      modifies this`head, this`mpcount, this`spine, this`owned, this`conditionApphome, nodes`next
      ensures Valid() && AllIn(spine, nodes) && removed == Removable(old(Table())[k], flags)
      ensures removed ==> spine == Cut(old(spine), k) && Table() == Cut(old(Table()), k)
      ensures !removed ==> spine == old(spine) && Table() == old(Table())
      ensures conditionApphome == (old(conditionApphome) && !(removed && old(Table())[k].key == "/dev_bdvd"))
    {
      hide *;
      AllInMeans(spine, nodes);
      WithoutIn(spine, k, nodes);
      EntryAt(k);
      RemovableIs(Table()[k], flags);
      removed := (flags == 0 || Has(curr.flags, flags)) && !Has(curr.flags, FLAG_PROTECT);
      if removed {
        ghost var t := Table();
        if curr.oldPath.text == "/dev_bdvd" {
          conditionApphome := false;
        }
        assert Table() == t && forall i :: 0 <= i < |spine| ==> spine[i] in nodes;
        Remove(prev, curr, k);
      }
    }

    /** The state of the loop of deleteAllMappings after j turns. */
    ghost predicate Sweeping(es0: seq<MapEntry>, t0: seq<Mapping>, j: nat, k: nat, prev: MapEntry?, curr: MapEntry?,
            flags: Flags, app: bool, nodes: set<MapEntry>)
      reads this`head, this`spine, this`owned, this`mpcount, this`mapTableByteSize, this`conditionApphome
      reads spine`next, spine`newPathLen, spine`flags, Paths()
    {
      && Valid() && AllIn(spine, nodes) && j <= |t0| == |es0| && k <= |spine|
      && curr == Node(spine, k) && (k > 0 ==> prev == spine[k - 1])
      && Progress(t0, t0, j, Table(), k, flags) && Progress(es0, t0, j, spine, k, flags)
      && conditionApphome == ApphomeAfter(app, t0[..j], flags)
    }

    method Sweep(prev: MapEntry?, curr: MapEntry, flags: Flags, ghost es0: seq<MapEntry>, ghost t0: seq<Mapping>,
            ghost j: nat, ghost k: nat, ghost app: bool, ghost nodes: set<MapEntry>)
      returns (prev': MapEntry?, ghost k': nat)
      requires Sweeping(es0, t0, j, k, prev, curr, flags, app, nodes)
      modifies this`head, this`mpcount, this`spine, this`owned, this`conditionApphome, nodes`next
      ensures j < |t0| && Sweeping(es0, t0, j + 1, k', prev', old(curr.next), flags, app, nodes)
    {
      NodeInside(spine, k);
      EntryAt(k);
      ProgressStep(t0, t0, j, Table(), k, flags);
      ProgressStep(es0, t0, j, spine, k, flags);
      ApphomeStep(app, t0, j, flags);
      WithoutMembers(spine, k);
      hide Valid, AllIn, Node, Progress, ApphomeAfter, Cut, Removable, Values, PathsOf;
      var removed := DeleteIfRemovable(prev, curr, k, flags, nodes);
      if removed {
        return prev, k;
      } else {
        return curr, k + 1;
      }
    }

    lemma SweepStart(flags: Flags, nodes: set<MapEntry>)
      requires Valid() && forall e :: e in spine ==> e in nodes
      ensures Sweeping(spine, Table(), 0, 0, null, head, flags, conditionApphome, nodes)
    {
      HeadIs();
      ProgressStart(Table(), Table(), flags);
      ProgressStart(spine, Table(), flags);
      ApphomeStart(conditionApphome, Table(), flags);
      hide Valid, Progress, ApphomeAfter, Values;
    }

    lemma Swept(es0: seq<MapEntry>, t0: seq<Mapping>, j: nat, k: nat, prev: MapEntry?, flags: Flags, app: bool,
            nodes: set<MapEntry>)
      requires Sweeping(es0, t0, j, k, prev, null, flags, app, nodes)
      ensures Valid() && Table() == Kept(t0, flags) && |es0| == |t0| && spine == KeptWith(es0, t0, flags)
      ensures conditionApphome == ApphomeAfter(app, t0, flags)
    {
      NodeInside(spine, k);
      ProgressEnd(t0, t0, j, Table(), k, flags);
      ProgressEnd(es0, t0, j, spine, k, flags);
      KeptWithTable(t0, flags);
      ApphomeEnd(app, t0, j, flags);
      hide Valid, Progress, ApphomeAfter, Values, KeptWith, Kept;
    }

    /** Every entry that matches and is not protected is removed; the others keep their order. */
    method DeleteAllMappings(flags: Flags) returns (done: bool)
      requires Valid()
      modifies this`head, this`mpcount, this`spine, this`owned, this`conditionApphome, spine`next
      ensures done && Valid() && Table() == Kept(old(Table()), flags)
      ensures conditionApphome == ApphomeAfter(old(conditionApphome), old(Table()), flags)
      ensures spine == KeptWith(old(spine), old(Table()), flags)
    {
      HeadIs();
      if head == null {
        return true;
      }
      ghost var es0, t0, j, app := spine, Table(), 0, conditionApphome;
      var curr, prev := head, null;
      ghost var k := 0;
      ghost var nodes := set e | e in spine;
      SweepStart(flags, nodes);
      hide *;
      while curr != null
        invariant Sweeping(es0, t0, j, k, prev, curr, flags, app, nodes)
        decreases |t0| - j
      {
        var next := curr.next;
        prev, k := Sweep(prev, curr, flags, es0, t0, j, k, app, nodes);
        curr := next;
        j := j + 1;
      }
      Swept(es0, t0, j, k, prev, flags, app, nodes);
      return true;
    }

    // ----- insertion and update, payload/mappath.c:107-249 -----

    lemma TableUpdated(t: seq<Mapping>, k: nat)
      requires Linked() && k < |spine| == |t| && forall i :: 0 <= i < |spine| ==> spine[i].Sound()
      requires forall i :: 0 <= i < |spine| && i != k ==> spine[i].Value() == t[i]
      ensures Shape() && Table() == t[k := spine[k].Value()]
    {
    }

    method UpdateAt(curr: MapEntry, target: string, nlen: nat, flags: Flags, ghost k: nat)
      requires Shape() && Separate(spine) && k < |spine| && curr == spine[k] && NoNul(target)
      requires |target| <= nlen < MAX_PATH
      modifies curr`newPathLen, curr`flags, curr.newPath
      ensures Shape() && |Table()| == |spine| == |old(Table())|
      ensures Table() == old(Table())[k := Mapping(curr.oldPath.text, curr.oldPathLen, target, nlen,
                                                   UpdatedFlags(old(curr.flags), flags))]
    {
      ghost var t := Table();
      SeparatePaths(spine, k);
      hide Linked, Separate, UpdatedFlags, NoNul, Has, Values, PathsOf, Paths, MapEntry.Value, MapEntry.Sound;
      curr.Retarget(target, nlen, flags);
      forall i | 0 <= i < |spine| && i != k
        ensures spine[i].Sound() && spine[i].Value() == t[i]
      {
      }
      TableUpdated(t, k);
    }

    /** Overwrite the target and flags of the k-th entry; the key stays owned as it was. */
    method UpdateEntry(curr: MapEntry, target: string, nlen: nat, flags: Flags, ghost k: nat)
      requires Valid() && k < |spine| && curr == spine[k] && NoNul(target) && |target| <= nlen < MAX_PATH
      modifies curr`newPathLen, curr`flags, curr.newPath
      ensures Valid() && k < |old(Table())|
      ensures Table() == old(Table())[k := old(Table())[k].(target := target, targetLen := nlen,
                                                          flags := UpdatedFlags(old(Table())[k].flags, flags))]
    {
      hide *;
      Open();
      HeadIs();
      EntryAt(k);
      UpdateAt(curr, target, nlen, flags, k);
      Close();
    }

    method AllocStorage() returns (b: Storage)
      modifies this`owned
      ensures fresh(b) && owned == old(owned) + {b}
    {
      b := new Storage();
      owned := owned + {b};
    }

    method AllocKey(text: string) returns (b: KeyBlock)
      modifies this`owned
      ensures fresh(b) && b.text == text && owned == old(owned) + {b}
    {
      b := new KeyBlock(text);
      owned := owned + {b};
    }

    method AllocPath() returns (b: array<char>)
      modifies this`owned
      ensures fresh(b) && b.Length == MAX_PATH && owned == old(owned) + {b}
    {
      b := new char[MAX_PATH](i => '\0');
      owned := owned + {b};
    }

    /** The allocations of addMapping, with the accounting of each failure path. A key that is not to be
        copied is the caller's own string. */
    method AllocParts(key: string, olen: nat, flags: Flags, a: Allocs)
      returns (code: Code, storage: Storage?, oldPath: KeyBlock?, newPath: array?<char>)
      modifies this`owned, this`mapTableByteSize
      ensures code == if AllocsSucceed(flags, a) then OK else ENOMEM
      ensures code == OK ==>
                && storage != null && oldPath != null && newPath != null
                && fresh(storage) && fresh(oldPath) && fresh(newPath)
                && oldPath.text == key && newPath.Length == MAX_PATH
                && owned == old(owned) + {storage, newPath} + if Has(flags, FLAG_COPY) then {oldPath} else {}
      ensures code != OK ==> owned == old(owned)
      ensures mapTableByteSize == old(mapTableByteSize) + Growth(olen, flags, a)
    {
      hide Has;
      storage, oldPath, newPath := null, null, null;
      mapTableByteSize := mapTableByteSize + ENTRY_SIZE;
      if !a.entry {
        return ENOMEM, null, null, null;
      }
      storage := AllocStorage();
      if Has(flags, FLAG_COPY) {
        mapTableByteSize := mapTableByteSize + olen + 1;
        if !a.key {
          Dealloc(storage);
          mapTableByteSize := mapTableByteSize - ENTRY_SIZE;
          return ENOMEM, null, null, null;
        }
        oldPath := AllocKey(key);
      } else {
        oldPath := new KeyBlock(key);
      }
      mapTableByteSize := mapTableByteSize + MAX_PATH;
      if !a.path {
        if Has(flags, FLAG_COPY) {
          Dealloc(oldPath);
          mapTableByteSize := mapTableByteSize - olen;
        }
        Dealloc(storage);
        mapTableByteSize := mapTableByteSize - ENTRY_SIZE;
        return ENOMEM, null, null, null;
      }
      newPath := AllocPath();
      code := OK;
    }

    ghost predicate AtLast(curr: MapEntry?, k: nat)
      reads this`spine
    {
      if spine == [] then curr == null else k < |spine| && curr == spine[k]
    }

    /** Walk to the last entry and hang the new one behind it. */
    method Append(link: MapEntry)
      requires Linked() && Separate(spine) && link !in spine && link.next == null
      modifies this`head, this`spine, spine`next
      ensures spine == old(spine) + [link] && Linked()
    {
      ghost var es, k := spine, 0;
      assert forall i, j :: 0 <= i < j < |es| ==> es[i] != es[j];
      hide Separate;
      var curr := head;
      while curr != null && curr.next != null
        invariant AtLast(curr, k) && spine == es
        decreases |es| - k
      {
        assert LinkAt(es, k);
        curr, k := curr.next, k + 1;
      }
      if curr != null {
        assert LinkAt(es, k) && k == |es| - 1;
        curr.next := link;
      } else {
        head := link;
      }
      spine := es + [link];
      forall i | 0 <= i < |spine|
        ensures LinkAt(spine, i)
      {
        if i < |es| - 1 {
          assert old(LinkAt(es, i));
        }
      }
    }

    method AppendEntry(link: MapEntry)
      requires Shape() && Separate(spine) && link !in spine && link.Sound() && link.next == null
      modifies this`head, this`spine, spine`next
      ensures spine == old(spine) + [link] && Shape()
      ensures Table() == old(Table()) + [link.Value()]
    {
      ghost var es, t := spine, Table();
      hide Separate, Linked, MapEntry.Sound, MapEntry.Value;
      Append(link);
      assert forall i :: 0 <= i < |es| ==> spine[i] == es[i] && spine[i].Value() == t[i] && spine[i].Sound();
    }

    /** The entry and its blocks were allocated by the current call. */
    twostate predicate IsNew(new link: MapEntry)
      reads link
    {
      && fresh(link) && fresh(link.storage) && fresh(link.oldPath) && fresh(link.newPath)
      && link.next == null && link.Sound()
    }

    /** A new entry with its blocks, or an error code and no block. */
    method MakeEntry(key: string, olen: nat, target: string, nlen: nat, flags: Flags, a: Allocs)
      returns (code: Code, link: MapEntry?)
      requires NoNul(key) && NoNul(target) && |key| <= olen && |target| <= nlen < MAX_PATH
      modifies this`owned, this`mapTableByteSize
      ensures code == if AllocsSucceed(flags, a) then OK else ENOMEM
      ensures code == OK ==> link != null && IsNew(link) && link.oldPath.text == key && link.oldPathLen == olen
      ensures code == OK ==>
                link.Value() == Mapping(key, olen, target, nlen, flags) && link.Bytes() == Reserved(olen, flags)
      ensures owned == old(owned) + if code == OK then link.Blocks() else {}
      ensures mapTableByteSize == old(mapTableByteSize) + Growth(olen, flags, a)
    {
      hide NoNul, Has;
      var storage, oldPath, newPath;
      code, storage, oldPath, newPath := AllocParts(key, olen, flags, a);
      if code != OK {
        return code, null;
      }
      WriteTarget(newPath, target, nlen);
      link := new MapEntry(storage, oldPath, olen, newPath, nlen, flags);
      NewEntry(link, target);
    }

    twostate lemma FreshParts(new link: MapEntry, es: seq<MapEntry>)
      requires IsNew(link)
      ensures link.next == null && link.Sound() && link !in es && fresh(link) && fresh(link.newPath)
      ensures forall x :: x in es ==>
                x != link && x.storage != link.storage && x.newPath != link.newPath && x.oldPath != link.oldPath
      ensures Live(link) ==> |link.oldPath.text| > 6
    {
    }

    /** No entry that can be looked up has an absent key. */
    lemma AbsentKey(key: string)
      requires FindKey(Table(), key) == None
      ensures |key| > 6 ==> forall i :: 0 <= i < |spine| && Live(spine[i]) ==> spine[i].oldPath.text != key
    {
      if |key| > 6 {
        forall i | 0 <= i < |spine| && Live(spine[i])
          ensures spine[i].oldPath.text != key
        {
          assert !HasKey(Table()[i], key);
        }
      }
    }

    method InsertNew(key: string, olen: nat, target: string, nlen: nat, flags: Flags, a: Allocs) returns (code: Code)
      requires Valid() && NoNul(key) && NoNul(target) && |key| <= olen && |target| <= nlen < MAX_PATH
      requires FindKey(Table(), key) == None && mapTableByteSize + Growth(olen, flags, a) <= MAX_TABLE_SIZE
      modifies this`head, this`mpcount, this`spine, this`owned, this`mapTableByteSize, spine`next
      ensures Valid()
      ensures code == if AllocsSucceed(flags, a) then OK else ENOMEM
      ensures Table() == old(Table()) + if code == OK then [Mapping(key, olen, target, nlen, flags)] else []
      ensures old(spine) <= spine && forall e :: e in spine ==> e in old(spine) || (fresh(e) && fresh(e.newPath))
      ensures mapTableByteSize == old(mapTableByteSize) + Growth(olen, flags, a)
    {
      hide *;
      Open();
      AbsentKey(key);
      ghost var es, own0, bytes0 := spine, owned, mapTableByteSize;
      var link;
      code, link := MakeEntry(key, olen, target, nlen, flags, a);
      if code == OK {
        FreshParts(link, es);
        AccountsAppend(es, own0, mpcount, bytes0, link, mapTableByteSize);
        AppendEntry(link);
        mpcount := mpcount + 1;
      } else {
        AccountsMore(es, own0, mpcount, bytes0, mapTableByteSize);
      }
      Close();
    }

    /** addMapping on an absent key with a new path. */
    method InsertMapping(key: string, olen: nat, target: string, nlen: nat, flags: Flags, a: Allocs)
      returns (code: Code)
      requires Valid() && NoNul(key) && NoNul(target) && |key| <= olen && |target| <= nlen
      requires FindKey(Table(), key) == None
      modifies this`head, this`mpcount, this`spine, this`owned, this`mapTableByteSize, spine`next
      ensures Valid()
      ensures Outcome(code, Table(), mapTableByteSize)
           == InsertSpec(old(Table()), old(mapTableByteSize), Mapping(key, olen, target, nlen, flags), a)
      ensures old(spine) <= spine && forall e :: e in spine ==> e in old(spine) || (fresh(e) && fresh(e.newPath))
    {
      InsertSpecIs(Table(), mapTableByteSize, Mapping(key, olen, target, nlen, flags), a);
      var sz := (if Has(flags, FLAG_COPY) then olen + 1 else 0) + ENTRY_SIZE + MAX_PATH;
      hide *;
      if mapTableByteSize + sz > MAX_TABLE_SIZE {
        return EAGAIN;
      }
      if nlen >= MAX_PATH {
        return EINVAL;
      }
      code := InsertNew(key, olen, target, nlen, flags, a);
    }

    lemma PathOfEntry(k: nat)
      requires k < |spine|
      ensures spine[k].newPath in Paths() && spine[k] in spine
    {
    }

    /** The leading characters that addMapping steps over. */
    static method MeasureKey(opath: string) returns (key: Option<string>)
      ensures key == KeyOf(opath)
    {
      if |opath| <= 6 {
        return Some(opath);
      }
      var i := 0;
      while i < |opath| && (opath[i] != '/' || (i + 1 < |opath| && (opath[i + 1] == '/' || opath[i + 1] == '.')))
        invariant 0 <= i <= |opath| && SkipTo(opath) == SkipTo(opath[i..])
      {
        SkipStep(opath, i);
        i := i + 1;
      }
      if i == |opath| {
        assert opath[i..] == "";
        return None;
      }
      assert opath[i..][0] == opath[i] && (i + 1 < |opath| ==> opath[i..][1] == opath[i + 1]);
      return Some(opath[i..]);
    }

    /** addMapping: update or delete the entry with the key, append a new one, or refuse. */
    method AddMapping(opath: Option<string>, npath: Option<string>, flags: Flags, a: Allocs) returns (code: Code)
      requires Valid() && (opath.Some? ==> NoNul(opath.value)) && (npath.Some? ==> NoNul(npath.value))
      modifies this`head, this`mpcount, this`spine, this`owned, this`mapTableByteSize
      modifies spine`next, spine`newPathLen, spine`flags, Paths()
      ensures Valid()
      ensures Outcome(code, Table(), mapTableByteSize)
           == AddSpec(old(Table()), old(mapTableByteSize), opath, npath, flags, a)
      ensures Trimmed(old(spine), old(Table()), Table(), if opath.None? then None else KeyOf(opath.value)) <= spine
      ensures forall e :: e in spine ==> e in old(spine) || (fresh(e) && fresh(e.newPath))
    {
      ghost var t := Table();
      AddSpecIs(t, mapTableByteSize, opath, npath, flags, a);
      hide Valid, NoNul, FindKey, DeleteSpec, InsertSpec, AddSpec, UpdatedFlags, Has, Values, PathsOf, KeyOf;
      hide TargetOf, FlagsOf, Mappable;
      var key := None;
      if opath.Some? {
        key := MeasureKey(opath.value);
      }
      if key.Some? && Mappable(key.value) {
        var curr, k := GetMapping(key.value);
        assert Table() == t;
        if curr != null {
          if npath.Some? && 6 < |npath.value| < MAX_PATH {
            PathOfEntry(k);
            UpdateEntry(curr, TargetOf(npath.value, flags), |npath.value|, FlagsOf(npath.value, flags), k);
            return OK;
          } else {
            ghost var d := DeleteSpec(Table(), key.value);
            assert AddSpec(t, mapTableByteSize, opath, npath, flags, a) == Outcome(d.0, d.1, mapTableByteSize);
            code := DeleteMapping(key.value);
            assert (code, Table()) == d && code == d.0 && Table() == d.1;
            return;
          }
        } else if npath.Some? {
          var n := npath.value;
          code := InsertMapping(key.value, |opath.value|, TargetOf(n, flags), |n|, FlagsOf(n, flags), a);
          return;
        }
      }
      code := if npath.None? then OK else EINVAL;
    }

    /** map_path, payload/mappath.c:680-706: mapping a path to itself removes the mapping. */
    method MapPath(oldpath: Option<string>, newpath: Option<string>, flags: Flags, a: Allocs) returns (code: Code)
      requires Valid() && (oldpath.Some? ==> NoNul(oldpath.value)) && (newpath.Some? ==> NoNul(newpath.value))
      modifies this`head, this`mpcount, this`spine, this`owned, this`mapTableByteSize, this`conditionApphome
      modifies spine`next, spine`newPathLen, spine`flags, Paths()
      ensures Valid()
      ensures Outcome(code, Table(), mapTableByteSize)
           == MapPathSpec(old(Table()), old(mapTableByteSize), oldpath, newpath, flags, a)
      ensures conditionApphome == ApphomeMapped(old(conditionApphome), oldpath, newpath)
      ensures Trimmed(old(spine), old(Table()), Table(), if oldpath.None? then None else KeyOf(oldpath.value)) <= spine
      ensures forall e :: e in spine ==> e in old(spine) || (fresh(e) && fresh(e.newPath))
    {
      hide Valid, AddSpec, Table, Values;
      code := EINVAL;
      if oldpath.Some? {
        var np := if newpath == oldpath then None else newpath;
        ghost var t := Table();
        if oldpath.value == "/dev_bdvd" {
          conditionApphome := np.Some?;
        }
        assert Table() == t;
        code := AddMapping(oldpath, np, flags, a);
      }
    }

    /** map_path_user2, payload/mappath.c:708-742: the strings come from user space and the key is copied. */
    method MapPathUser2(p: UserPair, flags: Flags) returns (code: UserCode)
      requires Valid() && p.Clean()
      modifies this`head, this`mpcount, this`spine, this`owned, this`mapTableByteSize, this`conditionApphome
      modifies spine`next, spine`newPathLen, spine`flags, Paths()
      ensures Valid()
      ensures (code, MapRun(code == Mapped(OK), Table(), mapTableByteSize, conditionApphome))
           == MapUserSpec(old(Table()), old(mapTableByteSize), old(conditionApphome), p, flags)
      ensures forall e :: e in spine ==> e in old(spine) || (fresh(e) && fresh(e.newPath))
    {
      hide Valid, MapPathSpec, NoNul, Values;
      if p.path.None? {
        return Faulted(-1);
      }
      if p.pathFault != 0 {
        return Faulted(p.pathFault);
      }
      if p.newPath.Some? && p.newPathFault != 0 {
        return Faulted(p.newPathFault);
      }
      var c := MapPath(p.path, p.newPath, flags | FLAG_COPY, p.allocs);
      code := Mapped(c);
    }

    /** map_path_user, payload/mappath.c:744-747: only whether it succeeded. */
    method MapPathUser(p: UserPair, flags: Flags) returns (ok: bool)
      requires Valid() && p.Clean()
      modifies this`head, this`mpcount, this`spine, this`owned, this`mapTableByteSize, this`conditionApphome
      modifies spine`next, spine`newPathLen, spine`flags, Paths()
      ensures Valid()
      ensures MapRun(ok, Table(), mapTableByteSize, conditionApphome)
           == MapUserSpec(old(Table()), old(mapTableByteSize), old(conditionApphome), p, flags).1
      ensures forall e :: e in spine ==> e in old(spine) || (fresh(e) && fresh(e.newPath))
    {
      hide Valid, MapUserSpec, NoNul, Values;
      var code := MapPathUser2(p, flags);
      ok := code == Mapped(OK);
    }

    /** Only entries that were there before, or that are new, may change. */
    twostate lemma NodesKnown()
      requires forall e :: e in spine ==> e in old(spine) || (fresh(e) && fresh(e.newPath))
      ensures forall x :: x in Paths() ==> x in old(Paths()) || fresh(x)
      ensures forall j :: 0 <= j < |spine| ==> spine[j] in old(spine) || fresh(spine[j])
    {
    }

    /** The loop of sys_map_paths. */
    method MapPairs(ps: seq<UserPair>) returns (ok: bool)
      requires Valid() && forall p :: p in ps ==> p.Clean()
      modifies this`head, this`mpcount, this`spine, this`owned, this`mapTableByteSize, this`conditionApphome
      modifies spine`next, spine`newPathLen, spine`flags, Paths()
      ensures Valid()
      ensures MapRun(ok, Table(), mapTableByteSize, conditionApphome)
           == MapAll(old(Table()), old(mapTableByteSize), old(conditionApphome), ps)
      ensures forall e :: e in spine ==> e in old(spine) || (fresh(e) && fresh(e.newPath))
    {
      hide Valid, MapUserSpec, MapAll, Values, Table, UserPair.Clean;
      var i := 0;
      ghost var t0, b0, a0 := Table(), mapTableByteSize, conditionApphome;
      MapAllStep(t0, b0, a0, ps, 0);
      while i < |ps|
        invariant 0 <= i <= |ps| && Valid()
        invariant MapAll(t0, b0, a0, ps) == MapAll(Table(), mapTableByteSize, conditionApphome, ps[i..])
        invariant forall e :: e in spine ==> e in old(spine) || (fresh(e) && fresh(e.newPath))
      {
        MapAllStep(Table(), mapTableByteSize, conditionApphome, ps, i);
        NodesKnown();
        ok := MapPathUser(ps[i], FLAG_TABLE);
        if !ok {
          return;
        }
        i := i + 1;
      }
      MapAllStep(Table(), mapTableByteSize, conditionApphome, ps, i);
      ok := true;
    }

    /** sys_map_paths, payload/mappath.c:781-814: all pairs are mapped as table entries, or every table
        entry that is not protected is taken out again. */
    method SysMapPaths(paths: Option<seq<UserPair>>, newPathsGiven: bool) returns (ret: SysResult)
      requires Valid() && (paths.Some? ==> forall p :: p in paths.value ==> p.Clean())
      modifies this`head, this`mpcount, this`spine, this`owned, this`mapTableByteSize, this`conditionApphome
      modifies spine`next, spine`newPathLen, spine`flags, Paths()
      ensures Valid()
      ensures paths.None? ==>
                && ret == Done && Table() == Kept(old(Table()), FLAG_TABLE) && mapTableByteSize == old(mapTableByteSize)
                && conditionApphome == ApphomeAfter(old(conditionApphome), old(Table()), FLAG_TABLE)
      ensures paths.Some? && !newPathsGiven ==>
                && ret == Invalid && Table() == old(Table()) && mapTableByteSize == old(mapTableByteSize)
                && conditionApphome == old(conditionApphome)
      ensures paths.Some? && newPathsGiven ==>
                var r := MapAllOrNone(old(Table()), old(mapTableByteSize), old(conditionApphome), paths.value);
                ret == (if r.ok then Done else Failed) && MapRun(r.ok, Table(), mapTableByteSize, conditionApphome) == r
      ensures paths.Some? && newPathsGiven ==>
                (ret == Failed <==>
                 exists n ::
                   PathLaws.FailsAt(old(Table()), old(mapTableByteSize), old(conditionApphome), paths.value, n))
      ensures ret == Done && paths.Some? ==>
                MapRun(true, Table(), mapTableByteSize, conditionApphome)
                == MapAll(old(Table()), old(mapTableByteSize), old(conditionApphome), paths.value)
      ensures ret == Failed ==>
                PathLaws.CleanedUp(MapAll(old(Table()), old(mapTableByteSize), old(conditionApphome), paths.value),
                                   Table(), mapTableByteSize, conditionApphome)
      ensures paths.None? ==>
                PathLaws.CleanedUp(MapRun(true, old(Table()), old(mapTableByteSize), old(conditionApphome)),
                                   Table(), mapTableByteSize, conditionApphome)
      ensures ret == Failed || paths.None? ==>
                forall m :: m in Table() && m.flags & 2 != 0 ==> m.flags & 4 != 0
    {
      hide Valid, Kept, MapAll, ApphomeAfter, Values, Table, PathLaws.CleanedUp, PathLaws.FailsAt;
      ghost var start := MapRun(true, Table(), mapTableByteSize, conditionApphome);
      if paths.Some? {
        if !newPathsGiven {
          return Invalid;
        }
        PathLaws.PairsInOrder(start.table, start.bytes, start.apphome, paths.value);
        var ok := MapPairs(paths.value);
        if ok {
          return Done;
        }
        ret := Failed;
      } else {
        ret := Done;
      }
      assert forall j :: 0 <= j < |spine| ==> spine[j] in old(spine) || fresh(spine[j]);
      ghost var r := MapRun(ret == Done, Table(), mapTableByteSize, conditionApphome);
      var done := DeleteAllMappings(FLAG_TABLE);
      PathLaws.CleanUp(r);
      PathLaws.CleanTable(r, Table(), mapTableByteSize, conditionApphome);
    }

    // ----- lookup by rewriting, payload/mappath.c:271-381 -----

    /** The indices of the entries recorded in mcount. */
    ghost function Used(): set<nat>
      requires count <= mcount.Length
      reads this`spine, this`count, mcount
    {
      set i | 0 <= i < |spine| && spine[i] in mcount[..count]
    }

    /** Whether mcount records the entry. */
    method IsUsed(e: MapEntry) returns (b: bool)
      requires count <= mcount.Length
      ensures b == (e in mcount[..count])
    {
      var i := 0;
      while i < count
        invariant 0 <= i <= count && e !in mcount[..i]
      {
        if mcount[i] == e {
          return true;
        }
        i := i + 1;
      }
      return false;
    }

    lemma SoundAt(k: nat)
      requires Valid() && k < |spine|
      ensures spine[k].Sound() && spine[k].newPathLen < MAX_PATH == spine[k].newPath.Length
      ensures spine[k].Value().target == Trunc(CStrAt(spine[k].newPath[..], 0), spine[k].newPathLen)
      ensures spine[k].Value().targetLen == spine[k].newPathLen
    {
    }

    lemma UsedIs(k: nat)
      requires k < |spine| && count <= mcount.Length
      ensures k in Used() <==> spine[k] in mcount[..count]
    {
    }

    /** Whether the entry is eligible for the path and not used yet. */
    method IsCandidate(curr: MapEntry, path: string, priority: bool, ghost k: nat) returns (b: bool)
      requires Valid() && k < |spine| && curr == spine[k] && count <= mcount.Length
      ensures Valid() && Table() == old(Table()) && Used() == old(Used())
      ensures b == (Eligible(Table()[k], path, priority) && k !in Used())
    {
      hide *;
      EntryAt(k);
      EligibleIs(Table()[k], path, priority);
      SoundAt(k);
      UsedIs(k);
      b := false;
      if (!priority || Has(curr.flags, FLAG_MAX_PRIORITY)) && curr.oldPathLen <= |path|
         && SameFirst(curr.oldPath.text, path, curr.oldPathLen) {
        var target := ReadPrefix(curr.newPath, curr.newPathLen);
        if !SameFirst(target, path, curr.newPathLen) {
          var used := IsUsed(curr);
          b := !used;
        }
      }
    }

    /** One scan of the list: the first candidate. */
    method Scan(path: string, priority: bool) returns (curr: MapEntry?, ghost k: nat)
      requires Valid() && count <= mcount.Length
      ensures Valid() && Table() == old(Table()) && Used() == old(Used())
      ensures curr == match FirstFrom(Table(), 0, path, Used(), priority) case None => null case Some(i) => spine[i]
      ensures curr != null ==> FirstFrom(Table(), 0, path, Used(), priority) == Some(k)
    {
      curr, k := head, 0;
      ghost var t, u, es := Table(), Used(), spine;
      hide *;
      HeadIs();
      while curr != null
        invariant Valid() && Table() == t && Used() == u && |t| == |es|
        invariant k <= |es| && curr == Node(es, k)
        invariant FirstFrom(t, 0, path, u, priority) == FirstFrom(t, k, path, u, priority)
        decreases |es| - k
      {
        NodeInside(es, k);
        EntryAt(k);
        FirstFromStep(t, k, path, u, priority);
        var b := IsCandidate(curr, path, priority, k);
        if b {
          return;
        }
        curr, k := curr.next, k + 1;
      }
      NodeInside(es, k);
      FirstFromStep(t, k, path, u, priority);
    }

    /** Priority entries first, then all. */
    method SelectEntry(path: string) returns (ret: MapEntry?, ghost k: nat)
      requires Valid() && count <= mcount.Length
      ensures ret == match Select(Table(), path, Used()) case None => null case Some(i) => spine[i]
      ensures ret != null ==> Select(Table(), path, Used()) == Some(k)
    {
      hide Valid, FirstFrom, Used, Values, PathsOf;
      ret, k := null, 0;
      if |path| > 6 {
        ret, k := Scan(path, true);
        if ret == null {
          ret, k := Scan(path, false);
        }
      }
    }

    /** The path goes on behind as many characters as the target of e has, and fits there. */
    ghost predicate TailFits(e: MapEntry, b: seq<char>)
      reads e`newPathLen
    {
      e.newPathLen + |CStrAt(b, e.newPathLen)| < MAX_PATH && Terminated(b, e.newPathLen)
    }

    /** What is read from the buffer of e once that rest of the path has been written behind its target. */
    ghost function Behind(e: MapEntry, b: seq<char>): string
      reads e`newPathLen, e.newPath
    {
      if |e.Target()| == e.newPathLen then e.Target() + CStrAt(b, e.newPathLen) else e.Target()
    }

    /** The current path is what rewriting by e left: the target, then the rest kept behind it. */
    ghost predicate Rewritten(e: MapEntry, b: seq<char>)
      reads e`newPathLen, e.newPath
    {
      TailFits(e, b) && CStrAt(b, 0) == Behind(e, b)
    }

    /** What the lookup globals keep between any two calls: found is one of the entries recorded, which may have left
        the table. */
    ghost predicate Globals()
      reads this`found, this`count, mcount
    {
      count <= MAX_DEPTH == mcount.Length && (found == null || found in mcount[..count])
    }

    /** A lookup that applies nothing more can end: final is what the entry in found hands out, if there is one. */
    ghost predicate CanFinish(b: seq<char>, final: string)
      reads this`found, this`spine, spine`newPathLen, Paths()
    {
      found != null && spine != [] ==>
        found in spine && TailFits(found, b) && final == Behind(found, b)
    }

    lemma SoundLength(e: MapEntry)
      requires e.Sound()
      ensures e.newPathLen < MAX_PATH == e.newPath.Length
    {
    }

    lemma TmpIs(ret: MapEntry, path: string, b: seq<char>, target: string, suffix: string, tail: string)
      requires ret.oldPathLen <= |path| && suffix == path[ret.oldPathLen..] && NoNul(suffix)
      requires target == Trunc(CStrAt(ret.newPath[..], 0), ret.newPathLen)
      requires tail == if ret.newPathLen + |suffix| < MAX_PATH then suffix else ""
      requires |b| == MAX_PATH && ret.newPathLen + |tail| < |b| && b[..ret.newPathLen] == Padded(target, ret.newPathLen)
      requires b[ret.newPathLen..ret.newPathLen + |tail|] == tail && b[ret.newPathLen + |tail|] == '\0'
      ensures Terminated(b, 0) && CStrAt(b, 0) == Rewrite(ret.Value(), path) && Rewritten(ret, b)
    {
      hide NoNul, Terminated;
      TruncClean(CStrAt(ret.newPath[..], 0), ret.newPathLen);
      TmpReads(b, target, ret.newPathLen, tail);
    }

    /** tmp_mapping: the target followed by the rest of the path, when both fit. */
    method BuildTmp(ret: MapEntry, opath: array<char>, ghost path: string) returns (tmp: array<char>)
      requires ret.Sound() && Terminated(opath[..], 0) && path == CStrAt(opath[..], 0) && ret.oldPathLen <= |path|
      ensures fresh(tmp) && Terminated(tmp[..], 0) && CStrAt(tmp[..], 0) == Rewrite(ret.Value(), path)
      ensures Rewritten(ret, tmp[..])
    {
      hide *;
      SoundLength(ret);
      var nl := ret.newPathLen;
      tmp := new char[MAX_PATH](i => '\0');
      var target := ReadPrefix(ret.newPath, nl);
      StrNCpy(tmp, 0, target, nl);
      tmp[nl] := '\0';
      CStrSuffixEnds(opath[..], ret.oldPathLen);
      var suffix := ReadString(opath, ret.oldPathLen);
      if nl + |suffix| < MAX_PATH {
        StrNCpy(tmp, nl, suffix, |suffix|);
        tmp[nl + |suffix|] := '\0';
        PlainCopy(suffix);
        TmpIs(ret, path, tmp[..], target, suffix, suffix);
      } else {
        TmpIs(ret, path, tmp[..], target, suffix, "");
      }
    }

    /** The rest of the path is written behind the target in the entry's own buffer. */
    method WriteBack(e: MapEntry, opath: array<char>)
      requires e.Sound() && opath != e.newPath && TailFits(e, opath[..])
      modifies e.newPath
      ensures e.newPath[..e.newPathLen] == old(e.newPath[..e.newPathLen])
      ensures CStrAt(e.newPath[..], 0) == old(Behind(e, opath[..])) && e.Target() == old(e.Target())
      ensures Terminated(e.newPath[..], 0)
    {
      var nl := e.newPathLen;
      ghost var before := e.newPath[..];
      var suffix := ReadString(opath, nl);
      StrNCpy(e.newPath, nl, suffix, |suffix|);
      e.newPath[nl + |suffix|] := '\0';
      assert e.newPath[..][..nl] == before[..nl];
      SameView(e.newPath[..], before, 0, nl);
      assert e.newPath[..][nl..nl + |suffix|] == suffix;
      ViewPlusTail(e.newPath[..], nl, suffix);
    }

    /** found and count as they are between lookups that succeed. */
    ghost predicate Idle()
      reads this`found, this`count
    {
      found == null && count == 0
    }

    /** The outcome of a lookup along the chain c to the path final when only the first allocs temporaries can be
        allocated: found0 and m0 are found and the recorded entries before the call. */
    ghost predicate LookupEnds(c: seq<nat>, final: string, allocs: nat, found0: MapEntry?, m0: seq<MapEntry?>,
            r: MapEntry?)
      reads this`found, this`count, this`spine, mcount, Paths()
    {
      && Globals() && (forall i :: 0 <= i < |c| ==> c[i] < |spine|)
      && (if c == [] && (found0 == null || spine == []) then
            r == null && found == found0 && mcount[..count] == m0
          else if |c| <= allocs then
            && Idle() && r == (if c == [] then found0 else spine[c[|c| - 1]])
            && r != null && r in spine && CStrAt(r.newPath[..], 0) == final && Terminated(r.newPath[..], 0)
          else
            && r == null && found == (if allocs == 0 then found0 else spine[c[allocs - 1]])
            && mcount[..count] == m0 + Picks(spine, c[..allocs + 1]))
    }

    lemma AllFit()
      requires Valid()
      ensures forall i :: 0 <= i < |spine| ==> spine[i].newPathLen <= MAX_PATH == spine[i].newPath.Length
    {
    }

    lemma OpenSpine(k: nat)
      requires Valid() && k < |spine|
      ensures forall i :: 0 <= i < |spine| && i != k ==> spine[i] != spine[k]
    {
    }

    /** The contents of all target buffers. */
    ghost function Buffers(): (bs: seq<seq<char>>)
      reads this`spine, Paths()
      ensures |bs| == |spine| && forall i :: 0 <= i < |bs| ==> bs[i] == spine[i].newPath[..]
    {
      Contents(spine)
    }

    /** Only the buffer of r differs from before, and only behind its target. */
    ghost predicate BuffersKept(before: seq<seq<char>>, r: MapEntry?)
      reads this`spine, spine`newPathLen, Paths()
    {
      |before| == |spine| && forall i :: 0 <= i < |spine| ==> BufferKept(spine[i], before[i], r)
    }

    /** The table and the buffers apart from the one of r are t and bs. */
    ghost predicate Preserved(t: seq<Mapping>, bs: seq<seq<char>>, r: MapEntry?)
      reads this`head, this`spine, this`owned, this`mpcount, this`mapTableByteSize
      reads spine`next, spine`newPathLen, spine`flags, Paths()
    {
      Valid() && Table() == t && BuffersKept(bs, r)
    }

    /** WriteBack on an entry of the list leaves the table as it was. */
    method WriteBackEntry(e: MapEntry, opath: array<char>, ghost k: nat)
      requires Valid() && k < |spine| && e == spine[k] && opath !in Paths() && TailFits(e, opath[..])
      modifies e.newPath
      ensures Preserved(old(Table()), old(Buffers()), e)
      ensures CStrAt(e.newPath[..], 0) == old(Behind(e, opath[..])) && Terminated(e.newPath[..], 0)
    {
      hide Valid, Shape, Accounts, Separate, TailFits, Behind, MapEntry.Target, Values, Contents;
      ghost var t, bs := Table(), Buffers();
      Open();
      SoundAt(k);
      AllFit();
      SeparatePaths(spine, k);
      PathOfEntry(k);
      WriteBack(e, opath);
      assert e.newPath[..e.newPathLen] == bs[k][..e.newPathLen];
      forall i | 0 <= i < |spine|
        ensures spine[i].Value() == t[i] && BufferKept(spine[i], bs[i], e)
      {
        if i != k {
          assert spine[i].newPath[..] == bs[i];
        }
      }
    }

    /** The table and the target buffers are t and bs. */
    ghost predicate Holds(t: seq<Mapping>, bs: seq<seq<char>>)
      reads this`head, this`spine, this`owned, this`mpcount, this`mapTableByteSize
      reads spine`next, spine`newPathLen, spine`flags, Paths()
    {
      Valid() && Table() == t && Buffers() == bs
    }

    /** What findMapping starts from: opath holds path, t and bs are the table and the buffers, u the entries used so
        far, c the chain still to follow and final the path it ends at. */
    ghost predicate Ready(opath: array<char>, path: string, c: seq<nat>, t: seq<Mapping>, bs: seq<seq<char>>,
            u: set<nat>,
            final: string)
      reads this`head, this`spine, this`owned, this`mpcount, this`mapTableByteSize, this`found, this`count
      reads spine`next, spine`newPathLen, spine`flags, Paths(), mcount, opath
    {
      && Holds(t, bs) && Globals()
      && Terminated(opath[..], 0) && opath !in Paths() && path == CStrAt(opath[..], 0)
      && Used() == u && c == Chain(t, path, u)
      && if c == [] then CanFinish(opath[..], final) else final == Follow(t, path, c)
    }

    /** mcount has room for the entries that will be recorded. */
    static ghost predicate Room(n: nat, length: nat, allocs: nat) {
      n + length <= MAX_DEPTH || n + allocs < MAX_DEPTH
    }

    /** What findMapping ends with. */
    ghost predicate Finished(t: seq<Mapping>, bs: seq<seq<char>>, c: seq<nat>, final: string, allocs: nat,
            found0: MapEntry?, m0: seq<MapEntry?>, r: MapEntry?)
      reads this`head, this`spine, this`owned, this`mpcount, this`mapTableByteSize, this`found, this`count
      reads spine`next, spine`newPathLen, spine`flags, Paths(), mcount
    {
      Preserved(t, bs, r) && LookupEnds(c, final, allocs, found0, m0, r)
    }

    lemma ReadyFacts(opath: array<char>, path: string, c: seq<nat>, t: seq<Mapping>, bs: seq<seq<char>>, u: set<nat>,
            final: string)
      requires Ready(opath, path, c, t, bs, u, final)
      ensures Holds(t, bs) && Valid() && Table() == t && Buffers() == bs && |t| == |spine|
      ensures Globals() && Terminated(opath[..], 0) && opath !in Paths() && path == CStrAt(opath[..], 0)
      ensures count <= MAX_DEPTH == mcount.Length && Used() == u && c == Chain(t, path, u)
      ensures if c == [] then CanFinish(opath[..], final) else final == Follow(t, path, c)
    {
    }

    lemma NothingWritten()
      requires Valid()
      ensures Preserved(Table(), Buffers(), null)
    {
      forall i | 0 <= i < |spine|
        ensures BufferKept(spine[i], Buffers()[i], null)
      {
        SoundAt(i);
      }
    }

    lemma HoldsFacts(t: seq<Mapping>, bs: seq<seq<char>>)
      requires Holds(t, bs)
      ensures Valid() && Table() == t && Buffers() == bs
    {
    }

    /** The rest of the path goes behind the target of the entry in found, and the globals are reset. */
    method FinishFound(opath: array<char>, ghost t: seq<Mapping>, ghost bs: seq<seq<char>>, ghost k: nat)
      returns (r: MapEntry?)
      requires Holds(t, bs) && k < |spine| && found == spine[k] && opath !in Paths() && TailFits(spine[k], opath[..])
      modifies this`found, this`count, spine[k].newPath
      ensures found == null && count == 0 && r == old(found) && r in spine && Preserved(t, bs, r)
      ensures CStrAt(r.newPath[..], 0) == old(Behind(spine[k], opath[..])) && Terminated(r.newPath[..], 0)
    {
      hide *;
      HoldsFacts(t, bs);
      PathOfEntry(k);
      r := found;
      WriteBackEntry(r, opath, k);
      found := null;
      count := 0;
    }

    lemma FoundAt(b: seq<char>, final: string) returns (k: nat)
      requires CanFinish(b, final) && found != null && spine != []
      ensures k < |spine| && spine[k] == found && TailFits(spine[k], b) && final == Behind(spine[k], b)
      ensures found in spine && found.newPath in Paths()
    {
      k :| 0 <= k < |spine| && spine[k] == found;
    }

    lemma EndsAt(t: seq<Mapping>, bs: seq<seq<char>>, final: string, allocs: nat, found0: MapEntry?, m0: seq<MapEntry?>,
            r: MapEntry?)
      requires Preserved(t, bs, r) && found == null && count == 0 && r == found0 && mcount.Length == MAX_DEPTH
      requires r != null && r in spine && CStrAt(r.newPath[..], 0) == final && Terminated(r.newPath[..], 0)
      ensures Finished(t, bs, [], final, allocs, found0, m0, r)
    {
    }

    lemma EndsNowhere(t: seq<Mapping>, bs: seq<seq<char>>, final: string, allocs: nat, found0: MapEntry?,
            m0: seq<MapEntry?>)
      requires Preserved(t, bs, null) && Globals() && found == found0 && m0 == mcount[..count]
      requires found == null || spine == []
      ensures Finished(t, bs, [], final, allocs, found0, m0, null)
    {
    }

    /** Nothing more applies: the entry in found, if any, receives the rest of the path. */
    method FinishLookup(opath: array<char>, ghost path: string, ghost allocs: nat, ghost t: seq<Mapping>,
            ghost bs: seq<seq<char>>, ghost u: set<nat>, ghost final: string)
      returns (r: MapEntry?)
      requires Ready(opath, path, [], t, bs, u, final)
      modifies this`found, this`count, Paths()
      ensures Finished(t, bs, [], final, allocs, old(found), old(mcount[..count]), r)
    {
      hide *;
      ReadyFacts(opath, path, [], t, bs, u, final);
      ghost var f, m := found, mcount[..count];
      HeadIs();
      NothingWritten();
      if head != null && found != null {
        ghost var k := FoundAt(opath[..], final);
        r := FinishFound(opath, t, bs, k);
        EndsAt(t, bs, final, allocs, f, m, r);
      } else {
        r := null;
        EndsNowhere(t, bs, final, allocs, f, m);
      }
    }

    /** The entry k was selected for path, and c starts with it. */
    ghost predicate Picked(path: string, c: seq<nat>, t: seq<Mapping>, u: set<nat>, k: nat) {
      && k < |t| && t[k].keyLen <= |path| && k !in u && c != [] && c[0] == k
      && c[1..] == Chain(t, Rewrite(t[k], path), u + {k})
      && Follow(t, path, c) == Follow(t, Rewrite(t[k], path), c[1..])
    }

    lemma PickedFacts(path: string, c: seq<nat>, t: seq<Mapping>, u: set<nat>, k: nat)
      requires Picked(path, c, t, u, k)
      ensures k < |t| && t[k].keyLen <= |path| && k !in u && c != [] && c[0] == k && |c| == |c[1..]| + 1
      ensures c[1..] == Chain(t, Rewrite(t[k], path), u + {k})
      ensures Follow(t, path, c) == Follow(t, Rewrite(t[k], path), c[1..])
      ensures forall i :: 0 <= i < |c| ==> c[i] < |t|
    {
      assert forall i :: 1 <= i < |c| ==> c[i] == c[1..][i - 1];
    }

    lemma PickedIs(path: string, c: seq<nat>, t: seq<Mapping>, u: set<nat>)
      requires c == Chain(t, path, u)
      ensures match Select(t, path, u)
        case None => c == [] && Follow(t, path, c) == path
        case Some(k) => k < |t| && Picked(path, c, t, u, k)
    {
      ChainStep(t, path, u);
      hide Chain, Follow, Rewrite;
    }

    /** strlen and the two scans: the next entry of the chain. */
    method PickEntry(opath: array<char>, ghost path: string, ghost c: seq<nat>, ghost t: seq<Mapping>,
            ghost bs: seq<seq<char>>, ghost u: set<nat>, ghost final: string)
      returns (p: string, ret: MapEntry?, ghost k: nat)
      requires Ready(opath, path, c, t, bs, u, final)
      ensures Ready(opath, path, c, t, bs, u, final) && p == path
      ensures if ret == null then c == [] && Follow(t, path, c) == path
              else k < |spine| && ret == spine[k] && Picked(path, c, t, u, k)
    {
      hide Ready, Picked, Valid, Table, Buffers, Globals, CanFinish, Chain, Follow, Select, Rewrite, Used, CStrAt;
      hide Terminated, Values, Contents, Holds;
      ReadyFacts(opath, path, c, t, bs, u, final);
      p := ReadString(opath, 0);
      ret, k := SelectEntry(p);
      PickedIs(path, c, t, u);
    }

    lemma UsedOf()
      requires count <= mcount.Length
      ensures forall i :: i in Used() <==> 0 <= i < |spine| && spine[i] in mcount[..count]
    {
    }

    lemma UsedGrows(m: seq<MapEntry?>, u: set<nat>, k: nat)
      requires k < |spine| && 0 < count <= mcount.Length && mcount[..count] == m + [spine[k]]
      requires forall i :: 0 <= i < |spine| && i != k ==> spine[i] != spine[k]
      requires forall i :: i in u <==> 0 <= i < |spine| && spine[i] in m
      ensures Used() == u + {k}
    {
    }

    /** mcount[count] = ret; count++. */
    method RecordUse(ret: MapEntry, ghost t: seq<Mapping>, ghost bs: seq<seq<char>>, ghost k: nat)
      requires Holds(t, bs) && k < |spine| && ret == spine[k] && count < mcount.Length && k !in Used()
      modifies this`count, mcount
      ensures Holds(t, bs) && count == old(count) + 1 && Used() == old(Used()) + {k}
      ensures count <= mcount.Length && mcount[..count] == old(mcount[..count]) + [ret]
    {
      hide Holds, Valid, Table, Buffers, Used;
      HoldsFacts(t, bs);
      OpenSpine(k);
      UsedOf();
      ghost var m, u := mcount[..count], Used();
      ghost var mc: object := mcount;
      assert mc !in (set p | p in Paths() :: p as object);
      mcount[count] := ret;
      count := count + 1;
      assert Holds(t, bs);
      assert mcount[..count] == m + [ret];
      UsedGrows(m, u, k);
    }

    /** The state between the record in mcount, which now is m, and the next lookup. */
    ghost predicate Recorded(opath: array<char>, path: string, m: seq<MapEntry?>, k: nat, t: seq<Mapping>,
            bs: seq<seq<char>>, u: set<nat>)
      reads this`head, this`spine, this`owned, this`mpcount, this`mapTableByteSize, this`count
      reads spine`next, spine`newPathLen, spine`flags, Paths(), mcount, opath
    {
      && Holds(t, bs)
      && Terminated(opath[..], 0) && opath !in Paths() && path == CStrAt(opath[..], 0)
      && count <= MAX_DEPTH == mcount.Length && mcount[..count] == m && Used() == u
      && k < |spine| && spine[k] in m
    }

    lemma GlobalsAre()
      requires Globals()
      ensures count <= MAX_DEPTH == mcount.Length && (found == null || found in mcount[..count])
    {
    }

    lemma GlobalsKept()
      requires count <= MAX_DEPTH == mcount.Length && (found == null || found in mcount[..count])
      ensures Globals()
    {
    }

    lemma UnusedIsNotFound(k: nat)
      requires Globals() && k < |spine| && count <= mcount.Length && k !in Used()
      ensures found != spine[k]
    {
      UsedIs(k);
    }

    lemma RecordedTmp(tmp: array<char>, next: string, m: seq<MapEntry?>, k: nat, t: seq<Mapping>, bs: seq<seq<char>>,
            u: set<nat>)
      requires Holds(t, bs) && tmp !in Paths() && Terminated(tmp[..], 0) && next == CStrAt(tmp[..], 0)
      requires count <= MAX_DEPTH == mcount.Length && mcount[..count] == m && Used() == u && k < |spine|
      requires spine[k] in m
      ensures Recorded(tmp, next, m, k, t, bs, u)
    {
    }

    method Record(opath: array<char>, path: string, ret: MapEntry, ghost c: seq<nat>, ghost t: seq<Mapping>,
            ghost bs: seq<seq<char>>, ghost u: set<nat>, ghost k: nat, ghost final: string)
      requires Ready(opath, path, c, t, bs, u, final) && k < |spine| && ret == spine[k] && k !in u && count < MAX_DEPTH
      modifies this`count, mcount
      ensures Recorded(opath, path, old(mcount[..count]) + [ret], k, t, bs, u + {k}) && found != ret
      ensures count == old(count) + 1 && Globals()
    {
      hide *;
      ReadyFacts(opath, path, c, t, bs, u, final);
      UnusedIsNotFound(k);
      ghost var o, m := opath[..], mcount[..count];
      GlobalsAre();
      RecordUse(ret, t, bs, k);
      assert opath[..] == o && ret in m + [ret] && (found in m ==> found in m + [ret]);
      RecordedTmp(opath, path, m + [ret], k, t, bs, u + {k});
      GlobalsKept();
    }

    lemma RecordedFacts(opath: array<char>, path: string, m: seq<MapEntry?>, k: nat, t: seq<Mapping>,
            bs: seq<seq<char>>,
            u: set<nat>)
      requires Recorded(opath, path, m, k, t, bs, u)
      ensures Holds(t, bs) && Valid() && Table() == t && Buffers() == bs
      ensures opath !in Paths() && Terminated(opath[..], 0) && path == CStrAt(opath[..], 0)
      ensures count <= MAX_DEPTH == mcount.Length && mcount[..count] == m && Used() == u && k < |spine| && spine[k] in m
    {
    }

    /** The path rewritten by the entry, in a fresh buffer. */
    method NextPath(opath: array<char>, path: string, ret: MapEntry, ghost m: seq<MapEntry?>, ghost k: nat,
            ghost t: seq<Mapping>, ghost bs: seq<seq<char>>, ghost u: set<nat>)
      returns (tmp: array<char>)
      requires Recorded(opath, path, m, k, t, bs, u) && k < |spine| && ret == spine[k] && k < |t|
      requires t[k].keyLen <= |path|
      ensures fresh(tmp) && Recorded(tmp, Rewrite(t[k], path), m, k, t, bs, u) && Rewritten(ret, tmp[..])
    {
      hide Recorded, Holds, Valid, Table, Buffers, Used, Values, Contents, Rewrite, CStrAt, Terminated, TailFits;
      hide Behind;
      hide Rewritten, Trunc, MapEntry.Sound, MapEntry.Value, MapEntry.Target;
      RecordedFacts(opath, path, m, k, t, bs, u);
      EntryAt(k);
      SoundAt(k);
      tmp := BuildTmp(ret, opath, path);
      RecordedFacts(opath, path, m, k, t, bs, u);
      assert tmp !in Paths();
      RecordedTmp(tmp, Rewrite(t[k], path), m, k, t, bs, u);
    }

    lemma NowReady(tmp: array<char>, next: string, c: seq<nat>, m: seq<MapEntry?>, k: nat, t: seq<Mapping>,
            bs: seq<seq<char>>, u: set<nat>)
      requires Recorded(tmp, next, m, k, t, bs, u) && k < |spine| && found == spine[k] && Rewritten(spine[k], tmp[..])
      requires c == Chain(t, next, u)
      ensures Ready(tmp, next, c, t, bs, u, Follow(t, next, c))
    {
      PathOfEntry(k);
      assert Follow(t, next, []) == next;
      hide Chain, Follow, Holds, Used, Behind, TailFits;
    }

    static lemma RoomFor(n: nat, length: nat, allocs: nat)
      requires Room(n, length, allocs) && length > 0
      ensures n < MAX_DEPTH && (allocs > 0 ==> Room(n + 1, length - 1, allocs - 1))
    {
    }

    /** found = ret. */
    method Turn(tmp: array<char>, ghost next: string, ret: MapEntry, ghost c: seq<nat>, ghost m: seq<MapEntry?>,
            ghost t: seq<Mapping>, ghost bs: seq<seq<char>>, ghost u: set<nat>, ghost k: nat)
      requires Recorded(tmp, next, m, k, t, bs, u) && k < |spine| && ret == spine[k] && Rewritten(ret, tmp[..])
      requires c == Chain(t, next, u)
      modifies this`found
      ensures found == ret && Ready(tmp, next, c, t, bs, u, Follow(t, next, c))
    {
      hide Recorded, Ready, Rewritten, Chain, Follow, Holds, Valid, Table, Buffers, Used;
      RecordedFacts(tmp, next, m, k, t, bs, u);
      ghost var b, self: object := tmp[..], this;
      assert self !in set p | p in Paths() :: p as object;
      found := ret;
      assert tmp[..] == b;
      RecordedTmp(tmp, next, m, k, t, bs, u);
      NowReady(tmp, next, c, m, k, t, bs, u);
    }

    /** The rewritten path and the entry it came from, which is never the one found before. */
    method Advance(opath: array<char>, path: string, ret: MapEntry, ghost c: seq<nat>, ghost m: seq<MapEntry?>,
            ghost t: seq<Mapping>, ghost bs: seq<seq<char>>, ghost u: set<nat>, ghost k: nat)
      returns (tmp: array<char>)
      requires Recorded(opath, path, m, k, t, bs, u) && k < |spine| && ret == spine[k] && found != ret
      requires k < |t| && t[k].keyLen <= |path|
      requires c == Chain(t, Rewrite(t[k], path), u)
      modifies this`found
      ensures fresh(tmp) && found == ret && count <= mcount.Length && mcount[..count] == m
      ensures Ready(tmp, Rewrite(t[k], path), c, t, bs, u, Follow(t, Rewrite(t[k], path), c))
    {
      RecordedFacts(opath, path, m, k, t, bs, u);
      hide *;
      tmp := NextPath(opath, path, ret, m, k, t, bs, u);
      if found != ret {
        Turn(tmp, Rewrite(t[k], path), ret, c, m, t, bs, u, k);
      } else {
        assert false;
      }
    }

    lemma NoTemporary(opath: array<char>, path: string, m: seq<MapEntry?>, t: seq<Mapping>, bs: seq<seq<char>>,
            u: set<nat>,
            k: nat, c: seq<nat>, final: string, found0: MapEntry?)
      requires k < |spine| && Recorded(opath, path, m + [spine[k]], k, t, bs, u) && found == found0 && Globals()
      requires c != [] && c[0] == k && forall i :: 0 <= i < |c| ==> c[i] < |t|
      ensures Finished(t, bs, c, final, 0, found0, m, null)
    {
      NothingWritten();
      assert Picks(spine, c[..1]) == [spine[k]];
    }

    lemma LookupStep(t: seq<Mapping>, bs: seq<seq<char>>, k: nat, c: seq<nat>, final: string, allocs: nat,
            found0: MapEntry?, m0: seq<MapEntry?>, r: MapEntry?)
      requires allocs > 0 && c != [] && c[0] == k && k < |spine|
      requires Finished(t, bs, c[1..], final, allocs - 1, spine[k], m0 + [spine[k]], r)
      ensures Finished(t, bs, c, final, allocs, found0, m0, r)
    {
      hide Preserved, Globals, Idle, Picks, Node, CStrAt, Terminated;
      TailOf(c);
      if |c| > allocs {
        PicksCons(spine, c, allocs);
        assert m0 + [spine[k]] + Picks(spine, c[1..][..allocs]) == m0 + Picks(spine, c[..allocs + 1]);
      }
    }

    /** Follow rewrites until no unused entry applies, then write the final path into the last entry used. */
    method FindMapping(opath: array<char>, allocs: nat, ghost path: string, ghost c: seq<nat>, ghost t: seq<Mapping>,
            ghost bs: seq<seq<char>>, ghost u: set<nat>, ghost final: string)
      returns (r: MapEntry?)
      requires Ready(opath, path, c, t, bs, u, final) && Room(count, |c|, allocs)
      modifies this`found, this`count, mcount, Paths()
      ensures Finished(t, bs, c, final, allocs, old(found), old(mcount[..count]), r)
      decreases |c|, 1
    {
      hide *;
      var p, ret, k := PickEntry(opath, path, c, t, bs, u, final);
      if ret != null {
        r := ApplyEntry(opath, allocs, p, ret, c, t, bs, u, final, k);
      } else {
        r := FinishLookup(opath, p, allocs, t, bs, u, final);
      }
    }

    /** An entry applies: record it, build the rewritten path, look that up. */
    method ApplyEntry(opath: array<char>, allocs: nat, path: string, ret: MapEntry, ghost c: seq<nat>,
            ghost t: seq<Mapping>, ghost bs: seq<seq<char>>, ghost u: set<nat>, ghost final: string, ghost k: nat)
      returns (r: MapEntry?)
      requires Ready(opath, path, c, t, bs, u, final) && k < |spine| && ret == spine[k] && Picked(path, c, t, u, k)
      requires Room(count, |c|, allocs)
      modifies this`found, this`count, mcount, Paths()
      ensures Finished(t, bs, c, final, allocs, old(found), old(mcount[..count]), r)
      decreases |c|, 0
    {
      hide *;
      ReadyFacts(opath, path, c, t, bs, u, final);
      ghost var f, m := found, mcount[..count];
      PickedFacts(path, c, t, u, k);
      RoomFor(count, |c|, allocs);
      Record(opath, path, ret, c, t, bs, u, k, final);
      if allocs == 0 {
        NoTemporary(opath, path, m, t, bs, u + {k}, k, c, final, f);
        return null;
      }
      var tmp := Advance(opath, path, ret, c[1..], m + [ret], t, bs, u + {k}, k);
      r := FindMapping(tmp, allocs - 1, Rewrite(t[k], path), c[1..], t, bs, u + {k}, final);
      LookupStep(t, bs, k, c, final, allocs, f, m, r);
    }

    // ----- the hook that opens files, payload/mappath.c:941-957 -----

    /** The table, the counter and the lookup globals as a value. */
    ghost function Abstract(): (s: State)
      requires Globals()
      reads this`spine, this`count, this`found, this`mapTableByteSize, mcount
      reads spine`newPathLen, spine`flags, Paths()
      ensures s.Fits()
    {
      State(Table(), mapTableByteSize, MarksOf(spine, mcount[..count], found), found != null, count)
    }

    lemma AbstractIs()
      requires Globals()
      ensures |Table()| == |spine| && Abstract().Fits()
      ensures Abstract()
           == State(Table(), mapTableByteSize, MarksOf(spine, mcount[..count], found), found != null, count)
    {
    }

    lemma UsedIsMarked()
      requires Globals()
      ensures Used() == Abstract().Used()
    {
    }

    lemma CanStart(b: seq<char>, p: string, a: State)
      requires Valid() && Globals() && a == Abstract() && Terminated(b, 0) && p == CStrAt(b, 0)
      requires a.table != [] && a.pending ==>
                 var k := LastFrom(a.marks, 0);
                 && k.Some? && a.table[k.value].targetLen <= |p| < MAX_PATH
                 && Leftover(a, p) == TailOrNot(a.table[k.value], p)
      ensures CanFinish(b, Leftover(a, p))
    {
      hide Leftover, Terminated, Valid, Values;
      if found != null && spine != [] {
        var k := LastFrom(a.marks, 0).value;
        SoundAt(k);
        EntryAt(k);
        assert found == spine[k] && spine[k] in spine;
        CStrSuffixEnds(b, spine[k].newPathLen);
      }
    }

    lemma StartLookup(path: array<char>, allocs: nat, p: string, c: seq<nat>, bs: seq<seq<char>>, a: State,
            final: string)
      requires Valid() && Globals() && Terminated(path[..], 0) && path !in Paths() && p == CStrAt(path[..], 0)
      requires bs == Buffers() && a == Abstract() && c == Chain(a.table, p, a.Used()) && Safe(a, p, allocs)
      requires final == if c == [] then Leftover(a, p) else Follow(a.table, p, c)
      ensures Ready(path, p, c, a.table, bs, a.Used(), final) && Room(count, |c|, allocs)
      ensures var m := mcount[..count];
        a == State(a.table, mapTableByteSize, MarksOf(spine, m, found), found != null, |m|)
    {
      UsedIsMarked();
      SafeMeans(a, p, allocs);
      if c == [] {
        CanStart(path[..], p, a);
      }
      hide Valid, Globals, Used, Table, Buffers, Chain, Follow, Safe, Leftover, CanFinish, Terminated, CStrAt;
    }

    lemma FinishedFacts(t: seq<Mapping>, bs: seq<seq<char>>, c: seq<nat>, final: string, allocs: nat,
            found0: MapEntry?, m0: seq<MapEntry?>, r: MapEntry?)
      requires Finished(t, bs, c, final, allocs, found0, m0, r)
      ensures Valid() && Table() == t && Globals() && Separate(spine) && |t| == |spine|
      ensures count <= mcount.Length && |mcount[..count]| == count
      ensures forall i :: 0 <= i < |c| ==> c[i] < |spine|
      ensures r != null ==> Terminated(r.newPath[..], 0)
      ensures if c == [] && (found0 == null || spine == []) then r == null && found == found0 && mcount[..count] == m0
              else if |c| <= allocs then
                r != null && found == null && count == 0 && mcount[..count] == [] && CStrAt(r.newPath[..], 0) == final
              else
                && r == null && found == (if allocs == 0 then found0 else spine[c[allocs - 1]])
                && mcount[..count] == m0 + Picks(spine, c[..allocs + 1])
    {
      Open();
    }

    /** What findMapping ends with is what the value-level lookup says. */
    lemma LookupMeans(t: seq<Mapping>, bs: seq<seq<char>>, c: seq<nat>, final: string, p: string, allocs: nat,
            found0: MapEntry?, m0: seq<MapEntry?>, a: State, r: MapEntry?)
      requires a.Fits() && a == State(t, mapTableByteSize, MarksOf(spine, m0, found0), found0 != null, |m0|)
      requires c == Chain(t, p, a.Used()) && final == if c == [] then Leftover(a, p) else Follow(t, p, c)
      requires Finished(t, bs, c, final, allocs, found0, m0, r)
      ensures Valid() && Globals()
      ensures Lookup(a, p, allocs) == (if r == null then p else CStrAt(r.newPath[..], 0), Abstract())
      ensures r != null ==> Terminated(r.newPath[..], 0)
    {
      hide *;
      FinishedFacts(t, bs, c, final, allocs, found0, m0, r);
      LookupIs(a, p, allocs);
      AbstractIs();
      if c == [] && (found0 == null || spine == []) {
      } else if |c| <= allocs {
        MarksReset(spine);
      } else {
        MarksMore(spine, m0, found0, c[..allocs + 1], found);
      }
    }

    /** The bytes that the value-level counter theorems speak of are those in the blocks of the list. */
    lemma TableHolds()
      requires Valid()
      ensures Held(Table()) == HeldBytes(spine) <= mapTableByteSize
    {
      Open();
      ValuesHold(spine);
    }

    /** No stored target is longer than the length recorded for it, as UnmappedPath asks. */
    lemma TargetsMeasured()
      requires Valid()
      ensures forall m :: m in Table() ==> |m.target| <= m.targetLen
    {
      forall m | m in Table()
        ensures |m.target| <= m.targetLen
      {
        var k :| 0 <= k < |Table()| && Table()[k] == m;
        SoundAt(k);
      }
    }

    /** A lookup from any state that is safe opens the path that the value-level lookup gives, and leaves its state. */
    method OpenPath(path: array<char>, allocs: nat) returns (target: string)
      requires Valid() && Globals() && Terminated(path[..], 0) && path !in Paths()
      requires Safe(Abstract(), CStrAt(path[..], 0), allocs)
      modifies this`found, this`count, mcount, Paths()
      ensures Valid() && Globals()
      ensures (target, Abstract()) == Lookup(old(Abstract()), old(CStrAt(path[..], 0)), allocs)
    {
      hide Valid, Globals, Abstract, Table, Buffers, Chain, Ready, Finished, Lookup, Leftover, Follow, Terminated;
      hide CStrAt;
      hide Safe, MarksOf, Values, Contents, Room;
      GlobalsAre();
      ghost var p, a := CStrAt(path[..], 0), Abstract();
      ghost var c, f, m := Chain(a.table, p, a.Used()), found, mcount[..count];
      ghost var t, bs, final := a.table, Buffers(), if c == [] then Leftover(a, p) else Follow(a.table, p, c);
      StartLookup(path, allocs, p, c, bs, a, final);
      target := ReadString(path, 0);
      var curr := FindMapping(path, allocs, p, c, t, bs, a.Used(), final);
      LookupMeans(t, bs, c, final, p, allocs, f, m, a, curr);
      if curr != null {
        target := ReadString(curr.newPath, 0);
      }
    }

    // ----- runs -----

    /** A path in a buffer of its own. */
    static method PathBuffer(path: string) returns (b: array<char>)
      requires NoNul(path)
      ensures fresh(b) && Terminated(b[..], 0) && CStrAt(b[..], 0) == path
    {
      b := new char[|path| + 1](i => '\0');
      StrNCpy(b, 0, path, |path|);
      PlainCopy(path);
      assert b[..][0..0 + |path|] == path;
      CStrIs(b[..], 0, path);
    }

    /** An entry that makes the list longer was not in it before. */
    lemma LastIsNew(es: seq<MapEntry>, t: seq<Mapping>, bytes: nat, op: TableOp)
      requires Valid() && |es| == |t| && |spine| == |Table()| > |es|
      requires if op.DeleteAll? then spine == KeptWith(es, t, op.flags) else Trimmed(es, t, Table(), OpKey(op)) <= spine
      ensures spine[|es|] !in es && spine[|es|] in spine
    {
      Open();
      DistinctEntries(spine);
      if op.DeleteAll? {
        HeldKept(t, op.flags);
      } else {
        assert es <= spine;
      }
    }

    method TableOperation(op: TableOp)
      requires Valid() && op.WellFormed() && !op.Find?
      modifies this`head, this`mpcount, this`spine, this`owned, this`mapTableByteSize, this`conditionApphome
      modifies spine`next, spine`newPathLen, spine`flags, Paths()
      ensures Valid() && |Table()| == |spine| && |old(Table())| == |old(spine)|
      ensures var r := TableStep(old(Table()), old(mapTableByteSize), op);
        && Table() == r.table && mapTableByteSize == r.bytes
        && (if op.DeleteAll? then spine == KeptWith(old(spine), old(Table()), op.flags)
            else Trimmed(old(spine), old(Table()), r.table, OpKey(op)) <= spine)
      ensures |spine| > |old(spine)| ==> fresh(spine[|old(spine)|])
      ensures forall e :: e in spine ==> e in old(spine) || (fresh(e) && fresh(e.newPath))
    {
      hide Valid, AddSpec, MapPathSpec, DeleteSpec, Kept, KeptWith, Trimmed, Values, KeyOf;
      ghost var es, t, bytes := spine, Table(), mapTableByteSize;
      var code;
      match op {
        case Add(o, n, flags, a) => code := AddMapping(o, n, flags, a);
        case Map(o, n, flags, a) => code := MapPath(o, n, flags, a);
        case Delete(key) => code := DeleteMapping(key);
        case DeleteAll(flags) => var done := DeleteAllMappings(flags);
      }
      if |spine| > |es| {
        LastIsNew(es, t, bytes, op);
      }
    }

    method ApplyToTable(op: TableOp)
      requires Valid() && Globals() && op.WellFormed() && !op.Find?
      modifies this`head, this`mpcount, this`spine, this`owned, this`mapTableByteSize, this`conditionApphome
      modifies spine`next, spine`newPathLen, spine`flags, Paths()
      ensures Valid() && Globals() && Abstract() == StepSpec(old(Abstract()), op).0
      ensures forall e :: e in spine ==> e in old(spine) || (fresh(e) && fresh(e.newPath))
    {
      hide *;
      GlobalsAre();
      AbstractIs();
      ghost var es, a, m, f := spine, Abstract(), mcount[..count], found;
      TableOperation(op);
      GlobalsKept();
      AbstractIs();
      MarksFollow(es, spine, m, f, a.table, a.bytes, op);
      StepIs(a, op);
    }

    method Apply(op: TableOp) returns (targets: seq<string>)
      requires Valid() && Globals() && op.WellFormed() && StepSafe(Abstract(), op)
      modifies this`head, this`mpcount, this`spine, this`owned, this`mapTableByteSize, this`conditionApphome
      modifies this`found, this`count, mcount, spine`next, spine`newPathLen, spine`flags, Paths()
      ensures Valid() && Globals() && (Abstract(), targets) == StepSpec(old(Abstract()), op)
      ensures forall e :: e in spine ==> e in old(spine) || (fresh(e) && fresh(e.newPath))
    {
      hide Valid, Globals, Abstract, Safe, Lookup, TableStep, Terminated, CStrAt, NoNul, Values;
      if op.Find? {
        var b := PathBuffer(op.path);
        var target := OpenPath(b, op.temporaries);
        targets := [target];
      } else {
        ApplyToTable(op);
        targets := [];
      }
    }

    /** Every run of operations and lookups leaves the list, the counters and the ownership of memory as described by
        Valid, and the table, the counter and the lookup globals as the value-level run says, whichever allocations
        fail; and each lookup opens the path it gives. */
    method Run(ops: seq<TableOp>) returns (targets: seq<string>)
      requires Valid() && Globals() && RunSafe(Abstract(), ops) && forall op :: op in ops ==> op.WellFormed()
      modifies this`head, this`mpcount, this`spine, this`owned, this`mapTableByteSize, this`conditionApphome
      modifies this`found, this`count, mcount, spine`next, spine`newPathLen, spine`flags, Paths()
      ensures Valid() && Globals() && (Abstract(), targets) == RunSpec(old(Abstract()), ops)
      ensures forall e :: e in spine ==> e in old(spine) || (fresh(e) && fresh(e.newPath))
    {
      hide Valid, Globals, Abstract, StepSpec, RunSpec, RunSafe, Values, Table;
      var i := 0;
      targets := [];
      ghost var s0 := Abstract();
      assert ops[0..] == ops && [] + RunSpec(s0, ops).1 == RunSpec(s0, ops).1;
      while i < |ops|
        invariant 0 <= i <= |ops| && Valid() && Globals() && Abstract().Fits() && RunSafe(Abstract(), ops[i..])
        invariant RunSpec(s0, ops) == (RunSpec(Abstract(), ops[i..]).0, targets + RunSpec(Abstract(), ops[i..]).1)
        invariant forall e :: e in spine ==> e in old(spine) || (fresh(e) && fresh(e.newPath))
      {
        RunStep(Abstract(), ops[i..]);
        assert ops[i..][0] == ops[i] && ops[i..][1..] == ops[i + 1..];
        NodesKnown();
        var next := Apply(ops[i]);
        ghost var later := RunSpec(Abstract(), ops[i + 1..]).1;
        assert targets + (next + later) == targets + next + later;
        targets := targets + next;
        i := i + 1;
      }
      NoSteps(Abstract());
      assert ops[i..] == [] && targets + [] == targets;
    }
  }
}
