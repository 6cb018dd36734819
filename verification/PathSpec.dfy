/** The path-mapping table as a list of values: keys, lookup by rewriting, budget. */
module PathSpec {
  import opened Common

  const MAX_TABLE_SIZE: nat := 0x80000
  /** sizeof(MapEntry_t) on the 64-bit target. */
  const ENTRY_SIZE: nat := 48
  /** The length of mcount. */
  const MAX_DEPTH: nat := 0x20

  type Flags = bv32

  const FLAG_COPY: Flags := 1
  const FLAG_TABLE: Flags := 2
  const FLAG_PROTECT: Flags := 4
  const FLAG_MAX_PRIORITY: Flags := 8

  predicate Has(flags: Flags, mask: Flags) { flags & mask != 0 }

  /** The flags an update leaves: ownership of the key stays with the entry. */
  function UpdatedFlags(current: Flags, flags: Flags): (r: Flags)
    ensures Has(r, FLAG_COPY) == Has(current, FLAG_COPY)
    ensures r & 1 == current & 1 && r & 4 == flags & 4 && r & 0xFFFF_FFFA == flags & 0xFFFF_FFFA
  {
    (current & FLAG_COPY) | (flags & !FLAG_COPY)
  }

  // ----- C strings -----

  ghost predicate NoNul(s: string) { '\0' !in s }

  /** The first n characters, as strncmp and strncpy see a string. */
  function Trunc(s: string, n: nat): string {
    if |s| <= n then s else s[..n]
  }

  /** strncmp(a, b, n) == 0. */
  predicate SameFirst(a: string, b: string, n: nat) {
    Trunc(a, n) == Trunc(b, n)
  }

  // ----- one mapping -----

  /** key and target are the C strings stored in the entry; keyLen and targetLen are the lengths
      recorded beside them, which are larger when the argument was shortened after being measured. */
  datatype Mapping = Mapping(key: string, keyLen: nat, target: string, targetLen: nat, flags: Flags)

  predicate Matches(m: Mapping, path: string) {
    m.keyLen <= |path| && SameFirst(m.key, path, m.keyLen)
  }

  /** The entry's target already prefixes the path, so it is skipped. */
  predicate Reached(m: Mapping, path: string) {
    SameFirst(m.target, path, m.targetLen)
  }

  predicate Applies(m: Mapping, path: string) {
    Matches(m, path) && !Reached(m, path)
  }

  /** The rewritten path: the target followed by the rest of the path when both fit in MAX_PATH and the
      recorded length is the target's; otherwise the target alone. */
  function Rewrite(m: Mapping, path: string): string
    requires m.keyLen <= |path|
  {
    if m.targetLen + (|path| - m.keyLen) < MAX_PATH && |m.target| == m.targetLen
    then m.target + path[m.keyLen..]
    else m.target
  }

  // ----- lookup: findMapping as repeated rewriting -----

  predicate Eligible(m: Mapping, path: string, priority: bool) {
    Applies(m, path) && (priority ==> Has(m.flags, FLAG_MAX_PRIORITY))
  }

  /** The first unused eligible entry from index i on. */
  function FirstFrom(t: seq<Mapping>, i: nat, path: string, used: set<nat>, priority: bool): (r: Option<nat>)
    requires i <= |t|
    ensures r.Some? ==> i <= r.value < |t| && r.value !in used && Eligible(t[r.value], path, priority)
    ensures r.Some? ==> forall j :: i <= j < r.value && Eligible(t[j], path, priority) ==> j in used
    ensures r.None? ==> forall j :: i <= j < |t| && Eligible(t[j], path, priority) ==> j in used
    decreases |t| - i
  {
    if i == |t| then None
    else if Eligible(t[i], path, priority) && i !in used then Some(i)
    else FirstFrom(t, i + 1, path, used, priority)
  }

  /** Entries of maximal priority first, then list order; paths of at most 6 characters match nothing. */
  function Select(t: seq<Mapping>, path: string, used: set<nat>): (r: Option<nat>)
    ensures r.Some? ==> r.value < |t| && r.value !in used && Applies(t[r.value], path)
  {
    if |path| <= 6 then None
    else
      var p := FirstFrom(t, 0, path, used, true);
      if p.Some? then p else FirstFrom(t, 0, path, used, false)
  }

  ghost function Unused(t: seq<Mapping>, used: set<nat>): set<nat> {
    set i | 0 <= i < |t| && i !in used
  }

  /** The entries a lookup applies, in order: no entry is used twice. */
  ghost function Chain(t: seq<Mapping>, path: string, used: set<nat>): (c: seq<nat>)
    ensures forall k :: 0 <= k < |c| ==> c[k] < |t| && c[k] !in used
    ensures forall k, l :: 0 <= k < l < |c| ==> c[k] != c[l]
    decreases Unused(t, used)
  {
    match Select(t, path, used)
    case None => []
    case Some(i) =>
      assert i in Unused(t, used) && i !in Unused(t, used + {i});
      [i] + Chain(t, Rewrite(t[i], path), used + {i})
  }

  /** The path after a chain of rewrites. */
  ghost function Follow(t: seq<Mapping>, path: string, c: seq<nat>): string
    decreases |c|
  {
    if c == [] || c[0] >= |t| || t[c[0]].keyLen > |path| then path
    else Follow(t, Rewrite(t[c[0]], path), c[1..])
  }

  /** The outcome of a lookup: the last entry applied, if any, and the path it leaves. */
  ghost function Resolve(t: seq<Mapping>, path: string): (Option<nat>, string) {
    var c := Chain(t, path, {});
    (if c == [] then None else Some(c[|c| - 1]), Follow(t, path, c))
  }

  lemma FollowCons(t: seq<Mapping>, path: string, i: nat, c: seq<nat>)
    requires i < |t| && t[i].keyLen <= |path|
    ensures Follow(t, path, [i] + c) == Follow(t, Rewrite(t[i], path), c)
  {
    assert ([i] + c)[1..] == c;
  }

  /** One unfolding of a lookup. */
  lemma ChainStep(t: seq<Mapping>, path: string, used: set<nat>)
    ensures match Select(t, path, used)
      case None => Chain(t, path, used) == [] && Follow(t, path, []) == path
      case Some(i) =>
        var next := Rewrite(t[i], path);
        var rest := Chain(t, next, used + {i});
        && Chain(t, path, used) == [i] + rest && ([i] + rest)[1..] == rest
        && Follow(t, path, [i] + rest) == Follow(t, next, rest)
  {
    match Select(t, path, used)
    case None =>
    case Some(i) => FollowCons(t, path, i, Chain(t, Rewrite(t[i], path), used + {i}));
  }

  ghost function Members(c: seq<nat>): set<nat> { set i | i in c }

  /** A chain never exceeds the number of unused entries, so a lookup ends on every table, cyclic or not. */
  lemma {:induction false} ChainBound(t: seq<Mapping>, path: string, used: set<nat>)
    ensures |Chain(t, path, used)| <= |Unused(t, used)|
    decreases Unused(t, used)
  {
    match Select(t, path, used)
    case None =>
    case Some(i) =>
      assert i in Unused(t, used) && Unused(t, used + {i}) == Unused(t, used) - {i};
      ChainBound(t, Rewrite(t[i], path), used + {i});
  }

  ghost function UpTo(n: nat): (r: set<nat>)
    ensures |r| == n && forall i :: i in r <==> 0 <= i < n
  {
    if n == 0 then {} else UpTo(n - 1) + {n - 1}
  }

  lemma ChainAtMostTable(t: seq<Mapping>, path: string)
    ensures |Chain(t, path, {})| <= |t|
  {
    ChainBound(t, path, {});
    assert Unused(t, {}) == UpTo(|t|);
  }

  lemma NoMembers(used: set<nat>)
    ensures used + Members([]) == used
  {
  }

  lemma MembersCons(used: set<nat>, i: nat, c: seq<nat>)
    ensures used + Members([i] + c) == used + {i} + Members(c)
  {
  }

  lemma UnusedShrinks(t: seq<Mapping>, path: string, used: set<nat>)
    ensures match Select(t, path, used)
      case None => true
      case Some(i) => i < |t| && t[i].keyLen <= |path| && Unused(t, used + {i}) < Unused(t, used)
  {
    hide FirstFrom;
    if Select(t, path, used).Some? {
      var i := Select(t, path, used).value;
      assert i in Unused(t, used) && i !in Unused(t, used + {i});
    }
  }

  /** The chain stops exactly where no unused entry applies any more. */
  lemma {:induction false} ChainExhausts(t: seq<Mapping>, path: string, used: set<nat>)
    ensures var c := Chain(t, path, used);
      Select(t, Follow(t, path, c), used + Members(c)) == None
    decreases Unused(t, used)
  {
    hide *;
    ChainStep(t, path, used);
    NoMembers(used);
    if Select(t, path, used).Some? {
      var i := Select(t, path, used).value;
      UnusedShrinks(t, path, used);
      var next := Rewrite(t[i], path);
      ChainExhausts(t, next, used + {i});
      MembersCons(used, i, Chain(t, next, used + {i}));
    }
  }

  /** A lookup finds nothing exactly when no entry applies, and then leaves the path alone. Otherwise the
      path it leaves is one that only entries already used, or targets already reached, still match. */
  lemma ResolveExact(t: seq<Mapping>, path: string)
    ensures Resolve(t, path).0.None? <==> |path| <= 6 || forall m :: m in t ==> !Applies(m, path)
    ensures Resolve(t, path).0.None? ==> Resolve(t, path).1 == path
    ensures var final := Resolve(t, path).1;
      |final| > 6 ==> forall i :: 0 <= i < |t| && i !in Members(Chain(t, path, {})) ==> !Applies(t[i], final)
  {
    var c := Chain(t, path, {});
    ChainExhausts(t, path, {});
    assert {} + Members(c) == Members(c);
    var final := Follow(t, path, c);
    if |final| > 6 {
      assert FirstFrom(t, 0, final, Members(c), false).None?;
      assert forall i :: 0 <= i < |t| && Applies(t[i], final) ==> Eligible(t[i], final, false);
    }
    if |path| > 6 && Select(t, path, {}).None? {
      assert forall i :: 0 <= i < |t| && Applies(t[i], path) ==> Eligible(t[i], path, false);
    }
  }

  /** A priority entry that applies wins over every ordinary one. */
  lemma PriorityFirst(t: seq<Mapping>, path: string, used: set<nat>, i: nat)
    requires |path| > 6 && i < |t| && i !in used && Eligible(t[i], path, true)
    ensures Select(t, path, used).Some?
    ensures var j := Select(t, path, used).value; Has(t[j].flags, FLAG_MAX_PRIORITY) && j <= i
  {
  }

  /** An entry whose recorded key length is not its key's length never matches any path or key. */
  lemma MiscountedKeyIsDead(m: Mapping, path: string)
    requires |m.key| < m.keyLen
    ensures !Matches(m, path)
  {
    if m.keyLen <= |path| {
      assert |Trunc(path, m.keyLen)| == m.keyLen;
    }
  }

  lemma CyclicSteps(a: Mapping, b: Mapping, p: string, q: string, flags: Flags)
    requires a == Mapping("/dev_aa", 7, "/dev_bb", 7, flags) && b == Mapping("/dev_bb", 7, "/dev_aa", 7, flags)
    requires p == "/dev_aa/x" && q == "/dev_bb/x"
    ensures Applies(a, p) && !Applies(b, p) && Rewrite(a, p) == q
    ensures Applies(b, q) && !Applies(a, q) && Rewrite(b, q) == p
  {
    assert p[..7] == a.key && q[..7] == b.key && p[..7] != b.key && q[..7] != a.key;
    assert a.target + p[7..] == q && b.target + q[7..] == p;
  }

  /** The only applicable unused entry is the one selected. */
  lemma SelectOnly(t: seq<Mapping>, path: string, used: set<nat>, i: nat)
    requires |path| > 6 && i < |t| && i !in used && Applies(t[i], path)
    requires forall j :: 0 <= j < |t| && j != i ==> j in used || !Applies(t[j], path)
    ensures Select(t, path, used) == Some(i)
  {
    assert Eligible(t[i], path, false);
  }

  /** Two entries that map to each other: the lookup terminates, and hands back the original path. */
  lemma CyclicMap(flags: Flags)
    ensures var t := [Mapping("/dev_aa", 7, "/dev_bb", 7, flags), Mapping("/dev_bb", 7, "/dev_aa", 7, flags)];
      Resolve(t, "/dev_aa/x") == (Some(1), "/dev_aa/x")
  {
    var a, b := Mapping("/dev_aa", 7, "/dev_bb", 7, flags), Mapping("/dev_bb", 7, "/dev_aa", 7, flags);
    var t, p, q := [a, b], "/dev_aa/x", "/dev_bb/x";
    CyclicSteps(a, b, p, q, flags);
    SelectOnly(t, p, {}, 0);
    SelectOnly(t, q, {0}, 1);
    assert Select(t, p, {0, 1}) == None;
    hide Select, Rewrite, Applies, Matches;
    assert {0} + {1} == {0, 1} && {} + {0} == {0};
    assert Chain(t, p, {0, 1}) == [];
    assert Chain(t, q, {0}) == [1] + [];
    assert Chain(t, p, {}) == [0] + [1];
    FollowCons(t, p, 0, [1]);
    FollowCons(t, q, 1, []);
  }

  /** A target given with the /./ token is recorded two characters too long, and the rest of the path is lost. */
  lemma TokenLosesSuffix(flags: Flags, rest: string)
    requires 0 < |rest| < 100 && NoNul(rest)
    ensures Rewrite(Mapping("/dev_bdvd", 9, "/dev_hdd0", 11, flags), "/dev_bdvd" + rest) == "/dev_hdd0"
  {
  }

  predicate StartsWith(s: string, prefix: string) {
    SameFirst(s, prefix, |prefix|)
  }

  /** The new path once a /./ token has been taken off, its recorded length, and the resulting flags. */
  predicate HasToken(npath: string, flags: Flags) {
    |npath| > 3 && StartsWith(npath, "/./") && !Has(flags, FLAG_PROTECT)
  }

  function TargetOf(npath: string, flags: Flags): (r: string)
    ensures |r| <= |npath| && (NoNul(npath) ==> NoNul(r))
  {
    if HasToken(npath, flags) then npath[2..] else npath
  }

  function FlagsOf(npath: string, flags: Flags): Flags {
    if HasToken(npath, flags) then flags | FLAG_PROTECT else flags
  }

  /** The rest of the path survives a rewrite exactly when the target was given without the /./ token and both
      fit in a path buffer. */
  lemma RestSurvives(key: string, npath: string, flags: Flags, path: string)
    requires |key| < |path|
    ensures var m := Mapping(key, |key|, TargetOf(npath, flags), |npath|, FlagsOf(npath, flags));
      Rewrite(m, path) == m.target + path[|key|..] <==>
      !HasToken(npath, flags) && |npath| + (|path| - |key|) < MAX_PATH
  {
    var m := Mapping(key, |key|, TargetOf(npath, flags), |npath|, FlagsOf(npath, flags));
    assert |m.target| == |npath| <==> !HasToken(npath, flags);
    assert |m.target + path[|key|..]| > |m.target|;
  }

  // ----- the table operations on values -----

  datatype Code = OK | EINVAL | ENOMEM | EAGAIN | EPERM | ESRCH

  /** Only these mount points can be mapped. */
  predicate Mappable(key: string) {
    StartsWith(key, "/dev_") || StartsWith(key, "/app_") || StartsWith(key, "/host_")
  }

  /** Drop leading characters up to a slash that is not followed by a slash or a dot. */
  function SkipTo(s: string): (r: Option<string>)
    ensures r.Some? ==> |r.value| <= |s|
    ensures r.Some? && NoNul(s) ==> NoNul(r.value)
  {
    if s == "" then None
    else if s[0] == '/' && !(|s| > 1 && (s[1] == '/' || s[1] == '.')) then Some(s)
    else if |s| == 1 then None
    else SkipTo(s[1..])
  }

  /** The key addMapping uses; the length recorded with it is still |opath|. */
  function KeyOf(opath: string): (r: Option<string>)
    ensures r.Some? ==> |r.value| <= |opath|
    ensures r.Some? && NoNul(opath) ==> NoNul(r.value)
  {
    if |opath| > 6 then SkipTo(opath) else Some(opath)
  }

  predicate HasKey(m: Mapping, key: string) {
    m.keyLen == |key| && SameFirst(m.key, key, m.keyLen)
  }

  function FindKeyFrom(t: seq<Mapping>, i: nat, key: string): (r: Option<nat>)
    requires i <= |t|
    ensures r.Some? ==> i <= r.value < |t| && HasKey(t[r.value], key)
    ensures forall j :: i <= j < (if r.Some? then r.value else |t|) ==> !HasKey(t[j], key)
    decreases |t| - i
  {
    if i == |t| then None else if HasKey(t[i], key) then Some(i) else FindKeyFrom(t, i + 1, key)
  }

  /** getMapping: keys of at most 6 characters are never found. */
  function FindKey(t: seq<Mapping>, key: string): (r: Option<nat>)
    ensures r.Some? ==> r.value < |t| && HasKey(t[r.value], key) && |key| > 6
  {
    if |key| > 6 then FindKeyFrom(t, 0, key) else None
  }

  /** A list without its k-th element. */
  function Cut<T>(t: seq<T>, k: nat): (r: seq<T>)
    requires k < |t|
    ensures |r| == |t| - 1
  {
    t[..k] + t[k + 1..]
  }

  /** deleteMapping. */
  function DeleteSpec(t: seq<Mapping>, key: string): (Code, seq<Mapping>) {
    if t == [] || !Mappable(key) then (EINVAL, t)
    else match FindKeyFrom(t, 0, key)
      case None => (ESRCH, t)
      case Some(i) => if Has(t[i].flags, FLAG_PROTECT) then (EPERM, t) else (OK, Cut(t, i))
  }

  predicate Removable(m: Mapping, flags: Flags) {
    (flags == 0 || Has(m.flags, flags)) && !Has(m.flags, FLAG_PROTECT)
  }

  /** deleteAllMappings keeps exactly the entries that are protected or do not match, in order. */
  function Kept(t: seq<Mapping>, flags: Flags): seq<Mapping> {
    if t == [] then []
    else (if Removable(t[0], flags) then [] else [t[0]]) + Kept(t[1..], flags)
  }

  /** Which of the three allocations of addMapping succeed. */
  datatype Allocs = Allocs(entry: bool, key: bool, path: bool)

  datatype Outcome = Outcome(code: Code, table: seq<Mapping>, bytes: nat)

  /** The bytes reserved for a new entry. */
  function Reserved(olen: nat, flags: Flags): nat {
    ENTRY_SIZE + MAX_PATH + if Has(flags, FLAG_COPY) then olen + 1 else 0
  }

  /** Every allocation that is asked for succeeds. */
  predicate AllocsSucceed(flags: Flags, a: Allocs) {
    a.entry && (Has(flags, FLAG_COPY) ==> a.key) && a.path
  }

  /** What the byte counter grows by: the failure paths do not give everything back. */
  function Growth(olen: nat, flags: Flags, a: Allocs): (r: nat)
    ensures r <= Reserved(olen, flags)
    ensures AllocsSucceed(flags, a) ==> r == Reserved(olen, flags)
  {
    if !a.entry then ENTRY_SIZE
    else if Has(flags, FLAG_COPY) && !a.key then olen + 1
    else if !a.path then MAX_PATH + if Has(flags, FLAG_COPY) then 1 else 0
    else Reserved(olen, flags)
  }

  /** addMapping on an absent key with a new path. */
  function InsertSpec(t: seq<Mapping>, bytes: nat, m: Mapping, a: Allocs): Outcome {
    if bytes + Reserved(m.keyLen, m.flags) > MAX_TABLE_SIZE then Outcome(EAGAIN, t, bytes)
    else if m.targetLen >= MAX_PATH then Outcome(EINVAL, t, bytes)
    else
      var grown := bytes + Growth(m.keyLen, m.flags, a);
      if AllocsSucceed(m.flags, a) then Outcome(OK, t + [m], grown) else Outcome(ENOMEM, t, grown)
  }

  /** addMapping: update, delete or append. */
  function AddSpec(t: seq<Mapping>, bytes: nat, opath: Option<string>, npath: Option<string>, flags: Flags,
          a: Allocs): Outcome {
    var key := if opath.None? then None else KeyOf(opath.value);
    if key.None? || !Mappable(key.value) then Outcome(if npath.None? then OK else EINVAL, t, bytes)
    else match FindKey(t, key.value)
      case Some(i) =>
        if npath.Some? && 6 < |npath.value| < MAX_PATH then
          var f := UpdatedFlags(t[i].flags, FlagsOf(npath.value, flags));
          var m := Mapping(t[i].key, t[i].keyLen, TargetOf(npath.value, flags), |npath.value|, f);
          Outcome(OK, t[i := m], bytes)
        else
          var (code, t') := DeleteSpec(t, key.value);
          Outcome(code, t', bytes)
      case None =>
        if npath.None? then Outcome(OK, t, bytes)
        else
          var np := npath.value;
          InsertSpec(t, bytes, Mapping(key.value, |opath.value|, TargetOf(np, flags), |np|, FlagsOf(np, flags)), a)
  }

  // ----- map_path and sys_map_paths -----

  /** map_path: a path mapped to itself is a request to remove the mapping. */
  function MapPathSpec(t: seq<Mapping>, bytes: nat, oldpath: Option<string>, newpath: Option<string>, flags: Flags,
          a: Allocs): Outcome {
    if oldpath.None? then Outcome(EINVAL, t, bytes)
    else AddSpec(t, bytes, oldpath, if newpath == oldpath then None else newpath, flags, a)
  }

  /** The app-home flag after map_path: it follows the mapping of /dev_bdvd, whether or not that succeeds. */
  function ApphomeMapped(app: bool, oldpath: Option<string>, newpath: Option<string>): bool {
    if oldpath == Some("/dev_bdvd") then newpath.Some? && newpath != oldpath else app
  }

  /** The app-home flag after deleteAllMappings. */
  function ApphomeAfter(app: bool, t: seq<Mapping>, flags: Flags): bool {
    app && forall m :: m in t && Removable(m, flags) ==> m.key != "/dev_bdvd"
  }

  /** One pair of user-space pointers: the strings behind them, what pathdup_from_user returns for each (0 when it can
      be copied), and the allocations that will succeed. */
  datatype UserPair = UserPair(path: Option<string>, newPath: Option<string>, pathFault: int, newPathFault: int,
                               allocs: Allocs) {
    ghost predicate Clean() {
      (path.Some? ==> NoNul(path.value)) && (newPath.Some? ==> NoNul(newPath.value))
    }

    /** The error met before anything is mapped. */
    function Fault(): Option<int> {
      if path.None? then Some(-1)
      else if pathFault != 0 then Some(pathFault)
      else if newPath.Some? && newPathFault != 0 then Some(newPathFault)
      else None
    }
  }

  /** What map_path_user2 returns: a fault of its arguments, or what map_path said. */
  datatype UserCode = Faulted(error: int) | Mapped(code: Code)

  datatype SysResult = Done | Failed | Invalid

  datatype MapRun = MapRun(ok: bool, table: seq<Mapping>, bytes: nat, apphome: bool)

  /** map_path_user2. */
  function MapUserSpec(t: seq<Mapping>, bytes: nat, app: bool, p: UserPair, flags: Flags): (UserCode, MapRun) {
    if p.Fault().Some? then (Faulted(p.Fault().value), MapRun(false, t, bytes, app))
    else
      var r := MapPathSpec(t, bytes, p.path, p.newPath, flags | FLAG_COPY, p.allocs);
      (Mapped(r.code), MapRun(r.code == OK, r.table, r.bytes, ApphomeMapped(app, p.path, p.newPath)))
  }

  /** The pairs mapped one after the other, up to the first failure. */
  function MapAll(t: seq<Mapping>, bytes: nat, app: bool, ps: seq<UserPair>): MapRun
    decreases |ps|
  {
    if ps == [] then MapRun(true, t, bytes, app)
    else
      var r := MapUserSpec(t, bytes, app, ps[0], FLAG_TABLE).1;
      if !r.ok then r else MapAll(r.table, r.bytes, r.apphome, ps[1..])
  }

  /** sys_map_paths after the pointers have been checked: all pairs, or else no removable table entry at all. */
  function MapAllOrNone(t: seq<Mapping>, bytes: nat, app: bool, ps: seq<UserPair>): MapRun {
    var r := MapAll(t, bytes, app, ps);
    if r.ok then r else MapRun(false, Kept(r.table, FLAG_TABLE), r.bytes, ApphomeAfter(r.apphome, r.table, FLAG_TABLE))
  }

  lemma KeptFirst(t: seq<Mapping>, flags: Flags)
    ensures t == [] ==> Kept(t, flags) == []
    ensures t != [] && Removable(t[0], flags) ==> Kept(t, flags) == Kept(t[1..], flags)
    ensures t != [] && !Removable(t[0], flags) ==>
              var k := Kept(t[1..], flags); Kept(t, flags) == [t[0]] + k && ([t[0]] + k)[1..] == k
  {
    hide Removable;
    if t != [] {
      var k := Kept(t[1..], flags);
      assert [] + k == k;
    }
  }

  /** What is kept of a table: exactly the entries that may not be removed, in their order. */
  lemma {:induction false} KeptExactly(t: seq<Mapping>, flags: Flags)
    ensures forall m :: m in Kept(t, flags) <==> m in t && !Removable(m, flags)
    ensures Kept(Kept(t, flags), flags) == Kept(t, flags)
  {
    hide *;
    KeptFirst(t, flags);
    if t != [] {
      KeptExactly(t[1..], flags);
      assert t == [t[0]] + t[1..];
      KeptFirst(Kept(t, flags), flags);
    }
  }

  // ----- what runs of the operations do to the list -----

  function Keys(t: seq<Mapping>): (ks: seq<string>)
    ensures |ks| == |t| && forall i :: 0 <= i < |t| ==> ks[i] == t[i].key
  {
    seq(|t|, i requires 0 <= i < |t| => t[i].key)
  }

  /** The list order is kept: addMapping leaves the keys as they are, drops one, or puts a new one last. */
  lemma AddKeepsOrder(t: seq<Mapping>, bytes: nat, opath: Option<string>, npath: Option<string>, flags: Flags,
          a: Allocs)
    ensures var u := AddSpec(t, bytes, opath, npath, flags, a).table;
      || Keys(u) == Keys(t)
      || (exists i :: 0 <= i < |t| && u == Cut(t, i) && !Has(t[i].flags, FLAG_PROTECT))
      || (u != [] && u[..|u| - 1] == t)
  {
  }

  /** addMapping never lowers the byte counter and never takes it past the budget. */
  lemma AddKeepsBudget(t: seq<Mapping>, bytes: nat, opath: Option<string>, npath: Option<string>, flags: Flags,
          a: Allocs)
    requires bytes <= MAX_TABLE_SIZE
    ensures bytes <= AddSpec(t, bytes, opath, npath, flags, a).bytes <= MAX_TABLE_SIZE
  {
  }

  /** getMapping finds a new entry exactly when its key is longer than 6 characters and was given in canonical form. */
  lemma InsertedIsFound(t: seq<Mapping>, m: Mapping)
    requires FindKey(t, m.key) == None
    ensures FindKey(t + [m], m.key).Some? <==> |m.key| > 6 && m.keyLen == |m.key|
  {
    if |m.key| > 6 {
      var u := t + [m];
      assert u[|t|] == m && forall i :: 0 <= i < |t| ==> u[i] == t[i] && !HasKey(t[i], m.key);
      assert HasKey(u[|t|], m.key) <==> m.keyLen == |m.key|;
    }
  }

  /** And so it is exactly then that map_path can take an unprotected entry out again, or give it another target; any
      other entry makes it add a second one, if anything. */
  lemma RemovedThroughMapPath(t: seq<Mapping>, bytes: nat, m: Mapping, opath: string, npath: string, flags: Flags,
          a: Allocs)
    requires FindKey(t, m.key) == None && KeyOf(opath) == Some(m.key) && Mappable(m.key)
    requires !Has(m.flags, FLAG_PROTECT) && 6 < |npath| < MAX_PATH
    ensures var reachable := |m.key| > 6 && m.keyLen == |m.key|;
      && (AddSpec(t + [m], bytes, Some(opath), None, flags, a).table == t <==> reachable)
      && (var n := Mapping(m.key, |opath|, TargetOf(npath, flags), |npath|, FlagsOf(npath, flags));
          AddSpec(t + [m], bytes, Some(opath), Some(npath), flags, a) ==
          if reachable then Outcome(OK, t + [n.(keyLen := m.keyLen, flags := UpdatedFlags(m.flags, n.flags))], bytes)
          else InsertSpec(t + [m], bytes, n, a))
  {
    InsertedIsFound(t, m);
    var u := t + [m];
    assert u[|t|] == m && forall i :: 0 <= i < |t| ==> u[i] == t[i];
    hide KeyOf, Mappable, TargetOf, FlagsOf, UpdatedFlags, InsertSpec;
    if FindKey(u, m.key).Some? {
      assert FindKey(u, m.key) == FindKeyFrom(u, 0, m.key) == Some(|t|);
      assert Cut(u, |t|) == t;
      assert forall n: Mapping :: u[|t| := n] == t + [n];
    }
  }

  /** deleteMapping on its own, which only addMapping calls, has no test of the length: it takes the entry out exactly
      when the recorded length is right. */
  lemma DeletedByKey(t: seq<Mapping>, m: Mapping)
    requires FindKeyFrom(t, 0, m.key) == None && Mappable(m.key) && !Has(m.flags, FLAG_PROTECT)
    ensures DeleteSpec(t + [m], m.key) == (OK, t) <==> m.keyLen == |m.key|
  {
    var u := t + [m];
    assert u[|t|] == m && forall i :: 0 <= i < |t| ==> u[i] == t[i];
    assert HasKey(m, m.key) <==> m.keyLen == |m.key|;
    if FindKeyFrom(u, 0, m.key).Some? {
      assert FindKeyFrom(u, 0, m.key) == Some(|t|) && Cut(u, |t|) == t;
    }
  }

  /** A key of 6 characters is stored again and again. */
  lemma ShortKeysRepeat(a: Allocs)
    requires AllocsSucceed(0, a)
    ensures var one := AddSpec([], 0, Some("/dev_a"), Some("/dev_hdd0"), 0, a);
      var two := AddSpec(one.table, one.bytes, Some("/dev_a"), Some("/dev_hdd0"), 0, a);
      two.code == OK && |two.table| == 2 && two.table[0] == two.table[1]
  {
    assert 0 as Flags & FLAG_COPY == 0 && 0 as Flags & FLAG_PROTECT == 0;
    assert Trunc("/dev_a", 5) == "/dev_";
  }

  /** Removing a mapping that was just added gives back the table, unless the mapping protects itself. */
  lemma AddThenDelete(t: seq<Mapping>, bytes: nat, key: string, npath: string, flags: Flags, a: Allocs)
    requires |key| > 6 && KeyOf(key) == Some(key) && FindKey(t, key) == None
    requires AddSpec(t, bytes, Some(key), Some(npath), flags, a).code == OK
    ensures var u := AddSpec(t, bytes, Some(key), Some(npath), flags, a).table;
      DeleteSpec(u, key) == if Has(FlagsOf(npath, flags), FLAG_PROTECT) then (EPERM, u) else (OK, t)
  {
    var m := Mapping(key, |key|, TargetOf(npath, flags), |npath|, FlagsOf(npath, flags));
    InsertedIsFound(t, m);
    assert forall i :: 0 <= i < |t| ==> (t + [m])[i] == t[i];
    assert FindKeyFrom(t + [m], 0, key) == Some(|t|);
    assert Cut(t + [m], |t|) == t;
  }

  lemma CutKeeps(t: seq<Mapping>, k: nat, j: nat)
    requires k < |t| && j < |t| && j != k
    ensures t[j] in Cut(t, k)
  {
    assert Cut(t, k)[if j < k then j else j - 1] == t[j];
  }

  /** Neither way of deleting removes an entry that is protected. */
  lemma ProtectedSurvives(t: seq<Mapping>, m: Mapping, key: string, flags: Flags)
    requires m in t && Has(m.flags, FLAG_PROTECT)
    ensures m in DeleteSpec(t, key).1 && m in Kept(t, flags)
  {
    KeptExactly(t, flags);
    var (code, u) := DeleteSpec(t, key);
    if code == OK {
      var i := FindKeyFrom(t, 0, key).value;
      var j :| 0 <= j < |t| && t[j] == m;
      hide *;
      CutKeeps(t, i, j);
    }
  }

  /** A sweep for table entries leaves only protected ones. */
  lemma NoTableEntryLeft(t: seq<Mapping>)
    ensures forall m :: m in Kept(t, FLAG_TABLE) && Has(m.flags, FLAG_TABLE) ==> Has(m.flags, FLAG_PROTECT)
  {
    KeptExactly(t, FLAG_TABLE);
  }
}
