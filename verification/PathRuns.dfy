/** Runs of operations on the path-mapping table: what the byte counter counts, and what one lookup leaves
    behind for the next. */
module PathRuns {
  import opened Common
  import opened PathSpec

  // ----- the state between two calls -----

  /** What mcount and found hold of one entry. */
  datatype Mark = Mark(used: bool, last: bool)

  const BLANK := Mark(false, false)

  /** The entry that found points to, if it is still in the table. */
  ghost function LastFrom(marks: seq<Mark>, i: nat): (r: Option<nat>)
    requires i <= |marks|
    ensures r.Some? ==> i <= r.value < |marks| && marks[r.value].last
    ensures forall j :: i <= j < (if r.Some? then r.value else |marks|) ==> !marks[j].last
    decreases |marks| - i
  {
    if i == |marks| then None else if marks[i].last then Some(i) else LastFrom(marks, i + 1)
  }

  /** The table, its byte counter and the lookup globals: marks has one element for each entry, pending says
      that found is set, and count is the number of slots of mcount in use. */
  datatype State = State(table: seq<Mapping>, bytes: nat, marks: seq<Mark>, pending: bool, count: nat) {
    ghost predicate Fits() {
      |marks| == |table|
    }

    ghost function Used(): set<nat> {
      set i | 0 <= i < |marks| && marks[i].used
    }

    ghost predicate Idle() {
      !pending && count == 0 && forall m :: m in marks ==> m == BLANK
    }

    function Reset(): (r: State)
      ensures r.Idle()
    {
      this.(marks := seq(|marks|, i => BLANK), pending := false, count := 0)
    }
  }

  // ----- one lookup, from any state -----

  /** The marks after a lookup that ran out of memory: c has been recorded, and found is its last entry but one. */
  function Marked(marks: seq<Mark>, c: seq<nat>): (r: seq<Mark>)
    requires c != []
    ensures |r| == |marks|
  {
    seq(|marks|, i requires 0 <= i < |marks| =>
      Mark(marks[i].used || i in c, if |c| == 1 then marks[i].last else i == c[|c| - 2]))
  }

  /** A target, and behind it what the path has behind as many characters, unless the target's length is miscounted. */
  ghost function TailOrNot(m: Mapping, path: string): string
    requires m.targetLen <= |path|
  {
    if |m.target| == m.targetLen then m.target + path[m.targetLen..] else m.target
  }

  /** What a lookup that finds nothing hands out when found is still set: the target of that entry, with whatever
      the path has behind as many characters. */
  ghost function Leftover(s: State, path: string): string
    requires s.Fits()
  {
    match LastFrom(s.marks, 0)
    case None => path
    case Some(k) =>
      var m := s.table[k];
      if |path| < m.targetLen then path else TailOrNot(m, path)
  }

  /** findMapping when only the first allocs temporary buffers can be allocated: the path that is opened in the
      end, and the state left behind. */
  ghost function Lookup(s: State, path: string, allocs: nat): (r: (string, State))
    requires s.Fits()
    ensures r.1.Fits() && r.1.table == s.table && r.1.bytes == s.bytes
  {
    var c := Chain(s.table, path, s.Used());
    if c == [] && (s.table == [] || !s.pending) then (path, s)
    else if |c| <= allocs then (if c == [] then Leftover(s, path) else Follow(s.table, path, c), s.Reset())
    else (path, s.(marks := Marked(s.marks, c[..allocs + 1]), pending := s.pending || allocs > 0,
                   count := s.count + allocs + 1))
  }

  /** The lookup stays inside mcount; and when it ends at an entry that an earlier one left in found, that entry is
      still in the table, and the path reaches past its target and fits in its buffer. */
  ghost predicate Safe(s: State, path: string, allocs: nat)
    requires s.Fits()
  {
    var c := Chain(s.table, path, s.Used());
    && (s.count + |c| <= MAX_DEPTH || s.count + allocs < MAX_DEPTH)
    && (c == [] && s.table != [] && s.pending ==>
          var k := LastFrom(s.marks, 0);
          k.Some? && s.table[k.value].targetLen <= |path| < MAX_PATH)
  }

  lemma SafeMeans(s: State, path: string, allocs: nat)
    requires s.Fits() && Safe(s, path, allocs)
    ensures var n := |Chain(s.table, path, s.Used())|; s.count + n <= MAX_DEPTH || s.count + allocs < MAX_DEPTH
    ensures Chain(s.table, path, s.Used()) == [] && s.table != [] && s.pending ==>
              var k := LastFrom(s.marks, 0);
              && k.Some? && s.table[k.value].targetLen <= |path| < MAX_PATH
              && Leftover(s, path) == TailOrNot(s.table[k.value], path)
  {
    hide Chain;
  }

  lemma LookupIs(s: State, path: string, allocs: nat)
    requires s.Fits()
    ensures var c := Chain(s.table, path, s.Used());
      Lookup(s, path, allocs) ==
      if c == [] && (s.table == [] || !s.pending) then (path, s)
      else if |c| <= allocs then
        (if c == [] then Leftover(s, path) else Follow(s.table, path, c),
         State(s.table, s.bytes, seq(|s.table|, i => BLANK), false, 0))
      else
        (path, State(s.table, s.bytes, Marked(s.marks, c[..allocs + 1]), s.pending || allocs > 0, s.count + allocs + 1))
  {
    hide Chain, Follow, Leftover, Marked;
  }

  lemma FrontMarked(marks: seq<Mark>, c: seq<nat>, n: nat)
    requires n < |c|
    ensures var r := Marked(marks, c[..n + 1]);
      && |r| == |marks|
      && forall i :: 0 <= i < |marks| ==>
           && (r[i].used <==> marks[i].used || exists k :: 0 <= k <= n && c[k] == i)
           && (r[i].last <==> if n == 0 then marks[i].last else i == c[n - 1])
  {
    var front := c[..n + 1];
    forall i: nat
      ensures i in front <==> exists k :: 0 <= k <= n && c[k] == i
    {
      if k :| 0 <= k <= n && c[k] == i {
        assert front[k] == i;
      }
    }
  }

  /** A lookup that can make only n of its temporary buffers records one entry more, the one it could not make a buffer
      for, and leaves found at the last entry it could; the path is opened as it was given. */
  lemma FailedLookup(s: State, path: string, n: nat)
    requires s.Fits() && n < |Chain(s.table, path, s.Used())|
    ensures var c := Chain(s.table, path, s.Used());
      var (target, u) := Lookup(s, path, n);
      && target == path && u.count == s.count + n + 1 && (u.pending <==> s.pending || n > 0)
      && forall i :: 0 <= i < |s.marks| ==>
           && (u.marks[i].used <==> s.marks[i].used || exists k :: 0 <= k <= n && c[k] == i)
           && (u.marks[i].last <==> if n == 0 then s.marks[i].last else i == c[n - 1])
  {
    hide *;
    var c := Chain(s.table, path, s.Used());
    LookupIs(s, path, n);
    FrontMarked(s.marks, c, n);
  }

  // ----- runs -----

  datatype TableOp =
    | Add(opath: Option<string>, npath: Option<string>, flags: Flags, allocs: Allocs)
    | Map(oldpath: Option<string>, newpath: Option<string>, flags: Flags, allocs: Allocs)
    | Delete(key: string)
    | DeleteAll(flags: Flags)
    | Find(path: string, temporaries: nat)
  {
    ghost predicate WellFormed() {
      && (Add? ==> (opath.Some? ==> NoNul(opath.value)) && (npath.Some? ==> NoNul(npath.value)))
      && (Map? ==> (oldpath.Some? ==> NoNul(oldpath.value)) && (newpath.Some? ==> NoNul(newpath.value)))
      && (Find? ==> NoNul(path))
    }
  }

  /** What an operation does to the table and the counter. */
  function TableStep(t: seq<Mapping>, bytes: nat, op: TableOp): Outcome {
    match op
    case Add(o, n, flags, a) => AddSpec(t, bytes, o, n, flags, a)
    case Map(o, n, flags, a) => MapPathSpec(t, bytes, o, n, flags, a)
    case Delete(key) => var (code, u) := DeleteSpec(t, key); Outcome(code, u, bytes)
    case DeleteAll(flags) => Outcome(OK, Kept(t, flags), bytes)
    case Find(_, _) => Outcome(OK, t, bytes)
  }

  /** The key an operation works on. */
  function OpKey(op: TableOp): Option<string> {
    match op
    case Add(o, _, _, _) => if o.None? then None else KeyOf(o.value)
    case Map(o, _, _, _) => if o.None? then None else KeyOf(o.value)
    case Delete(key) => Some(key)
    case _ => None
  }

  /** The elements of xs whose entries deleteAllMappings keeps. */
  function KeptWith<T>(xs: seq<T>, t: seq<Mapping>, flags: Flags): (r: seq<T>)
    requires |xs| == |t|
    ensures |r| == |Kept(t, flags)|
    ensures forall x :: x in r ==> x in xs
  {
    if t == [] then [] else (if Removable(t[0], flags) then [] else [xs[0]]) + KeptWith(xs[1..], t[1..], flags)
  }

  /** KeptWith follows deleteAllMappings one entry at a time; on the table itself it is Kept. */
  lemma {:induction false} KeptWithTable(t: seq<Mapping>, flags: Flags)
    ensures KeptWith(t, t, flags) == Kept(t, flags)
  {
    if t != [] {
      KeptWithTable(t[1..], flags);
    }
  }

  lemma KeptWithFirst<T>(xs: seq<T>, t: seq<Mapping>, flags: Flags)
    requires |xs| == |t|
    ensures t == [] ==> KeptWith(xs, t, flags) == []
    ensures t != [] ==>
              var first := if Removable(t[0], flags) then [] else [xs[0]];
              KeptWith(xs, t, flags) == first + KeptWith(xs[1..], t[1..], flags)
  {
    hide Removable;
  }

  lemma {:induction false} KeptStep<T>(xs: seq<T>, t: seq<Mapping>, j: nat, flags: Flags)
    requires j < |t| == |xs|
    ensures KeptWith(xs[..j + 1], t[..j + 1], flags)
         == KeptWith(xs[..j], t[..j], flags) + if Removable(t[j], flags) then [] else [xs[j]]
  {
    hide *;
    KeptWithFirst(xs[..j + 1], t[..j + 1], flags);
    KeptWithFirst(xs[..j], t[..j], flags);
    if j == 0 {
      KeptWithFirst(xs[..1][1..], t[..1][1..], flags);
    } else {
      KeptStep(xs[1..], t[1..], j - 1, flags);
      assert t[..j + 1][1..] == t[1..][..j] && t[..j][1..] == t[1..][..j - 1];
      assert xs[..j + 1][1..] == xs[1..][..j] && xs[..j][1..] == xs[1..][..j - 1];
    }
  }

  /** When a table t becomes u by addMapping or deleteMapping, data xs kept beside it loses what belongs to the entry
      deleted, if one is. */
  function Trimmed<T>(xs: seq<T>, t: seq<Mapping>, u: seq<Mapping>, key: Option<string>): (r: seq<T>)
    requires |xs| == |t|
    ensures forall x :: x in r ==> x in xs
  {
    if |u| < |t| && key.Some? && FindKeyFrom(t, 0, key.value).Some? then Cut(xs, FindKeyFrom(t, 0, key.value).value)
    else xs
  }

  /** Data kept beside the table follows every operation; x joins a new entry. */
  function CarriedBy<T>(xs: seq<T>, t: seq<Mapping>, bytes: nat, op: TableOp, x: T): (r: seq<T>)
    requires |xs| == |t|
    ensures |r| == |TableStep(t, bytes, op).table|
  {
    var u := TableStep(t, bytes, op).table;
    if op.DeleteAll? then KeptWith(xs, t, op.flags)
    else Trimmed(xs, t, u, OpKey(op)) + if |u| > |t| then [x] else []
  }

  /** The state after one operation, and the path it opened if it is a lookup. */
  ghost function StepSpec(s: State, op: TableOp): (r: (State, seq<string>))
    requires s.Fits()
    ensures r.0.Fits()
  {
    match op
    case Find(path, n) => var (target, u) := Lookup(s, path, n); (u, [target])
    case _ =>
      var r := TableStep(s.table, s.bytes, op);
      (State(r.table, r.bytes, CarriedBy(s.marks, s.table, s.bytes, op, BLANK), s.pending, s.count), [])
  }

  ghost function RunSpec(s: State, ops: seq<TableOp>): (r: (State, seq<string>))
    requires s.Fits()
    ensures r.0.Fits()
    decreases |ops|
  {
    if ops == [] then (s, [])
    else
      var (u, opened0) := StepSpec(s, ops[0]);
      var (v, opened1) := RunSpec(u, ops[1..]);
      (v, opened0 + opened1)
  }

  ghost predicate StepSafe(s: State, op: TableOp)
    requires s.Fits()
  {
    op.Find? ==> Safe(s, op.path, op.temporaries)
  }

  /** Every lookup of the run is safe in the state it meets. */
  ghost predicate RunSafe(s: State, ops: seq<TableOp>)
    requires s.Fits()
    decreases |ops|
  {
    ops == [] || (StepSafe(s, ops[0]) && RunSafe(StepSpec(s, ops[0]).0, ops[1..]))
  }

  lemma RunStep(s: State, ops: seq<TableOp>)
    requires s.Fits() && ops != []
    ensures var (u, opened0) := StepSpec(s, ops[0]);
      RunSpec(s, ops) == (RunSpec(u, ops[1..]).0, opened0 + RunSpec(u, ops[1..]).1)
    ensures RunSafe(s, ops) <==> StepSafe(s, ops[0]) && RunSafe(StepSpec(s, ops[0]).0, ops[1..])
  {
    hide StepSpec, StepSafe;
  }

  lemma StepIs(s: State, op: TableOp)
    requires s.Fits() && !op.Find?
    ensures var r := TableStep(s.table, s.bytes, op);
      StepSpec(s, op).0 ==
      State(r.table, r.bytes, CarriedBy(s.marks, s.table, s.bytes, op, BLANK), s.pending, s.count)
  {
    hide TableStep, CarriedBy;
  }

  lemma StepTable(s: State, op: TableOp)
    requires s.Fits()
    ensures var u := StepSpec(s, op).0;
      var r := TableStep(s.table, s.bytes, op);
      u.table == r.table && u.bytes == r.bytes
  {
    hide AddSpec, MapPathSpec, DeleteSpec, Kept, CarriedBy;
  }

  // ----- the byte counter -----

  /** The bytes that belong to the entries of a table. */
  function Held(t: seq<Mapping>): nat {
    if t == [] then 0 else Reserved(t[0].keyLen, t[0].flags) + Held(t[1..])
  }

  lemma {:induction false} HeldCut(t: seq<Mapping>, k: nat)
    requires k < |t|
    ensures Held(Cut(t, k)) + Reserved(t[k].keyLen, t[k].flags) == Held(t)
  {
    hide Reserved;
    if k == 0 {
      assert Cut(t, 0) == t[1..];
    } else {
      HeldCut(t[1..], k - 1);
      assert Cut(t, k) == [t[0]] + Cut(t[1..], k - 1);
    }
  }

  lemma {:induction false} HeldAppend(t: seq<Mapping>, m: Mapping)
    ensures Held(t + [m]) == Held(t) + Reserved(m.keyLen, m.flags)
  {
    hide Reserved;
    if t == [] {
      assert t + [m] == [m] && [m][1..] == [];
    } else {
      HeldAppend(t[1..], m);
      assert (t + [m])[1..] == t[1..] + [m];
    }
  }

  /** An update keeps the ownership of the key, and with it the bytes held. */
  lemma {:induction false} HeldUpdate(t: seq<Mapping>, k: nat, m: Mapping)
    requires k < |t| && m.keyLen == t[k].keyLen && Has(m.flags, FLAG_COPY) == Has(t[k].flags, FLAG_COPY)
    ensures Held(t[k := m]) == Held(t)
  {
    if k == 0 {
      assert t[0 := m][1..] == t[1..];
    } else {
      HeldUpdate(t[1..], k - 1, m);
      assert t[k := m][1..] == t[1..][k - 1 := m];
    }
  }

  lemma {:induction false} HeldKept(t: seq<Mapping>, flags: Flags)
    ensures Held(Kept(t, flags)) <= Held(t) && |Kept(t, flags)| <= |t|
    ensures Held(Kept(t, flags)) == Held(t) <==> |Kept(t, flags)| == |t|
  {
    if t != [] {
      KeptFirst(t, flags);
      HeldKept(t[1..], flags);
    }
  }

  /** An operation loses bytes when it removes an entry or runs out of memory. */
  ghost predicate Loses(t: seq<Mapping>, bytes: nat, op: TableOp) {
    var r := TableStep(t, bytes, op);
    |r.table| < |t| || r.code == ENOMEM
  }

  lemma InsertCounts(t: seq<Mapping>, bytes: nat, m: Mapping, a: Allocs)
    requires bytes <= MAX_TABLE_SIZE
    ensures var r := InsertSpec(t, bytes, m, a);
      && bytes <= r.bytes <= MAX_TABLE_SIZE
      && r.bytes - Held(r.table) >= bytes - Held(t)
      && |r.table| >= |t|
      && (r.bytes - Held(r.table) == bytes - Held(t) <==> r.code != ENOMEM)
  {
    HeldAppend(t, m);
    hide Has;
  }

  lemma DeleteCounts(t: seq<Mapping>, key: string)
    ensures var (code, u) := DeleteSpec(t, key);
      Held(u) <= Held(t) && code != ENOMEM && (Held(u) == Held(t) <==> |u| == |t|) && |u| <= |t|
  {
    var (code, u) := DeleteSpec(t, key);
    if code == OK {
      HeldCut(t, FindKeyFrom(t, 0, key).value);
    }
  }

  lemma AddCounts(t: seq<Mapping>, bytes: nat, opath: Option<string>, npath: Option<string>, flags: Flags, a: Allocs)
    requires bytes <= MAX_TABLE_SIZE
    ensures var r := AddSpec(t, bytes, opath, npath, flags, a);
      && bytes <= r.bytes <= MAX_TABLE_SIZE
      && r.bytes - Held(r.table) >= bytes - Held(t)
      && (r.bytes - Held(r.table) == bytes - Held(t) <==> |r.table| >= |t| && r.code != ENOMEM)
  {
    var key := if opath.None? then None else KeyOf(opath.value);
    hide KeyOf, InsertSpec, DeleteSpec, Mappable, TargetOf, FlagsOf, UpdatedFlags, Has, Held;
    if key.Some? && Mappable(key.value) {
      match FindKey(t, key.value)
      case None =>
        if npath.Some? {
          var np := npath.value;
          InsertCounts(t, bytes, Mapping(key.value, |opath.value|, TargetOf(np, flags), |np|, FlagsOf(np, flags)), a);
        }
      case Some(i) =>
        if npath.Some? && 6 < |npath.value| < MAX_PATH {
          var f := UpdatedFlags(t[i].flags, FlagsOf(npath.value, flags));
          HeldUpdate(t, i, Mapping(t[i].key, t[i].keyLen, TargetOf(npath.value, flags), |npath.value|, f));
        } else {
          DeleteCounts(t, key.value);
        }
    }
  }

  /** One operation: the counter never falls nor passes the budget, and its distance to the bytes held grows exactly
      when the operation loses bytes. */
  lemma StepCounts(t: seq<Mapping>, bytes: nat, op: TableOp)
    requires bytes <= MAX_TABLE_SIZE
    ensures var r := TableStep(t, bytes, op);
      && bytes <= r.bytes <= MAX_TABLE_SIZE
      && r.bytes - Held(r.table) >= bytes - Held(t)
      && (r.bytes - Held(r.table) == bytes - Held(t) <==> !Loses(t, bytes, op))
  {
    hide AddSpec, DeleteSpec, Kept, Held;
    match op
    case Add(o, n, flags, a) => AddCounts(t, bytes, o, n, flags, a);
    case Map(o, n, flags, a) => AddCounts(t, bytes, o, if n == o then None else n, flags, a);
    case Delete(key) => DeleteCounts(t, key);
    case DeleteAll(flags) => HeldKept(t, flags);
    case Find(_, _) =>
  }

  /** No operation of the run loses bytes. */
  ghost predicate Lossless(s: State, ops: seq<TableOp>)
    requires s.Fits()
    decreases |ops|
  {
    ops == [] || (!Loses(s.table, s.bytes, ops[0]) && Lossless(StepSpec(s, ops[0]).0, ops[1..]))
  }

  lemma NoSteps(s: State)
    requires s.Fits()
    ensures RunSpec(s, []) == (s, [])
  {
  }

  /** Over every run the counter only grows, stays within the budget and covers the bytes held; and it is exact at the
      end precisely when it was exact at the start and no operation removed an entry or ran out of memory. */
  lemma {:induction false} RunKeepsBudget(s: State, ops: seq<TableOp>)
    requires s.Fits() && Held(s.table) <= s.bytes <= MAX_TABLE_SIZE
    ensures var u := RunSpec(s, ops).0;
      && s.bytes <= u.bytes <= MAX_TABLE_SIZE && Held(u.table) <= u.bytes
      && u.bytes - Held(u.table) >= s.bytes - Held(s.table)
      && (u.bytes - Held(u.table) == s.bytes - Held(s.table) <==> Lossless(s, ops))
    decreases |ops|
  {
    hide StepSpec, TableStep, Loses, Held, RunSpec;
    if ops == [] {
      NoSteps(s);
    } else {
      RunStep(s, ops);
      StepTable(s, ops[0]);
      StepCounts(s.table, s.bytes, ops[0]);
      RunKeepsBudget(StepSpec(s, ops[0]).0, ops[1..]);
    }
  }

  /** In particular from the empty table. */
  lemma CounterExact(ops: seq<TableOp>)
    ensures var start := State([], 0, [], false, 0);
      var u := RunSpec(start, ops).0;
      u.bytes == Held(u.table) <==> Lossless(start, ops)
  {
    RunKeepsBudget(State([], 0, [], false, 0), ops);
  }

  /** An insertion into the empty table whose entry cannot be allocated leaves 48 bytes counted and none held. */
  lemma FailureLeaks()
    ensures AddSpec([], 0, Some("/dev_bdvd"), Some("/dev_hdd0"), 0, Allocs(false, true, true))
         == Outcome(ENOMEM, [], 48)
    ensures Held([]) == 0
  {
    assert 0 as Flags & FLAG_COPY == 0;
    assert Trunc("/dev_bdvd", 5) == "/dev_";
  }

  lemma NoRoom(t: seq<Mapping>, bytes: nat, op: TableOp)
    requires MAX_TABLE_SIZE < bytes + ENTRY_SIZE + MAX_PATH
    ensures |TableStep(t, bytes, op).table| <= |t|
  {
    if op.DeleteAll? {
      HeldKept(t, op.flags);
    }
    hide KeyOf, Mappable, TargetOf, FlagsOf, UpdatedFlags, Has, Kept;
  }

  /** Once the counter leaves no room for another entry the table never grows again, even when it is emptied. */
  lemma {:induction false} FullForGood(s: State, ops: seq<TableOp>)
    requires s.Fits() && s.bytes <= MAX_TABLE_SIZE < s.bytes + ENTRY_SIZE + MAX_PATH
    ensures |RunSpec(s, ops).0.table| <= |s.table|
    decreases |ops|
  {
    hide StepSpec, Held, RunSpec, TableStep;
    if ops == [] {
      NoSteps(s);
    } else {
      RunStep(s, ops);
      StepTable(s, ops[0]);
      StepCounts(s.table, s.bytes, ops[0]);
      NoRoom(s.table, s.bytes, ops[0]);
      FullForGood(StepSpec(s, ops[0]).0, ops[1..]);
    }
  }

  // ----- what a failed lookup does to the next one -----

  lemma {:induction false} FirstSmaller(t: seq<Mapping>, i: nat, path: string, v: set<nat>, u: set<nat>, priority: bool)
    requires i <= |t|
    ensures match FirstFrom(t, i, path, v, priority)
      case None => FirstFrom(t, i, path, v + u, priority) == None
      case Some(j) => j !in u ==> FirstFrom(t, i, path, v + u, priority) == Some(j)
    decreases |t| - i
  {
    if i < |t| {
      FirstSmaller(t, i + 1, path, v, u, priority);
    }
  }

  lemma SelectSmaller(t: seq<Mapping>, path: string, v: set<nat>, u: set<nat>)
    ensures match Select(t, path, v)
      case None => Select(t, path, v + u) == None
      case Some(i) => i !in u ==> Select(t, path, v + u) == Some(i)
  {
    FirstSmaller(t, 0, path, v, u, true);
    FirstSmaller(t, 0, path, v, u, false);
    hide FirstFrom;
  }

  /** Leftover records u change the chain of rewrites exactly when one of its entries is among them. */
  lemma {:induction false} ChainUnaffected(t: seq<Mapping>, path: string, v: set<nat>, u: set<nat>)
    ensures Chain(t, path, v + u) == Chain(t, path, v) <==> u !! Members(Chain(t, path, v))
    decreases Unused(t, v)
  {
    var c := Chain(t, path, v);
    ChainStep(t, path, v);
    ChainStep(t, path, v + u);
    SelectSmaller(t, path, v, u);
    hide Chain, Select, Rewrite, Follow;
    match Select(t, path, v)
    case None =>
    case Some(i) =>
      UnusedShrinks(t, path, v);
      var next := Rewrite(t[i], path);
      var rest := Chain(t, next, v + {i});
      assert c == [i] + rest && c[0] == i && Members(c) == {i} + Members(rest);
      if i in u {
        assert Chain(t, path, v + u) != c;
      } else {
        ChainUnaffected(t, next, v + {i}, u);
        assert v + {i} + u == v + u + {i};
        assert ([i] + Chain(t, next, v + u + {i}))[1..] == Chain(t, next, v + u + {i});
      }
  }

  /** A lookup from any state opens what one from an idle state opens when no entry of its chain is recorded, enough
      memory is there, and, if the chain is empty, no entry is pending. */
  lemma LookupResolves(s: State, path: string, allocs: nat)
    requires s.Fits()
    requires var c := Chain(s.table, path, {});
      s.Used() !! Members(c) && |c| <= allocs && (c == [] ==> !s.pending)
    ensures Lookup(s, path, allocs).0 == Resolve(s.table, path).1
  {
    ChainUnaffected(s.table, path, {}, s.Used());
    assert {} + s.Used() == s.Used();
    hide Chain;
  }

  /** A path that no entry maps is left alone exactly when nothing is pending, or it starts with the whole target of the
      pending entry. */
  lemma UnmappedPath(s: State, path: string, allocs: nat)
    requires s.Fits() && Chain(s.table, path, {}) == [] && Safe(s, path, allocs)
    requires forall m :: m in s.table ==> |m.target| <= m.targetLen
    ensures Lookup(s, path, allocs).0 == path <==>
            !s.pending || s.table == [] || Reached(s.table[LastFrom(s.marks, 0).value], path)
  {
    ChainUnaffected(s.table, path, {}, s.Used());
    assert {} + s.Used() == s.Used() && Members([]) == {};
    if s.pending && s.table != [] {
      var m := s.table[LastFrom(s.marks, 0).value];
      assert path == path[..m.targetLen] + path[m.targetLen..];
      if |m.target| == m.targetLen {
        assert (m.target + path[m.targetLen..])[..m.targetLen] == m.target;
      }
    }
  }

  lemma IdleUsesNone(s: State)
    requires s.Idle()
    ensures s.Used() == {}
  {
    assert forall i :: 0 <= i < |s.marks| ==> s.marks[i] in s.marks;
  }

  lemma ChanceSteps(a: Mapping, b: Mapping, p: string, q: string, flags: Flags)
    requires a == Mapping("/dev_aa", 7, "/dev_bb", 7, flags) && b == Mapping("/dev_aa/x", 9, "/dev_bb/x", 9, flags)
    requires p == "/dev_aa/x" && q == "/dev_bb/x"
    ensures Applies(a, p) && Applies(b, p) && Rewrite(a, p) == q && Rewrite(b, p) == q
    ensures !Applies(a, q) && !Applies(b, q)
  {
    assert p[..7] == a.key && q[..7] == a.target && p[..7] != a.target && q[..7] != a.key;
    assert p[..9] == b.key && a.target + p[7..] == q && b.target + p[9..] == q;
  }

  /** The converse of LookupResolves fails: with the first of two entries recorded the second one alone leads to the
      same path here. */
  lemma SamePathByChance(flags: Flags)
    requires !Has(flags, FLAG_MAX_PRIORITY)
    ensures var t := [Mapping("/dev_aa", 7, "/dev_bb", 7, flags), Mapping("/dev_aa/x", 9, "/dev_bb/x", 9, flags)];
      var s := State(t, 0, [Mark(true, false), BLANK], false, 1);
      Chain(t, "/dev_aa/x", {}) == [0] && Lookup(s, "/dev_aa/x", 1).0 == Resolve(t, "/dev_aa/x").1 == "/dev_bb/x"
  {
    var a, b := Mapping("/dev_aa", 7, "/dev_bb", 7, flags), Mapping("/dev_aa/x", 9, "/dev_bb/x", 9, flags);
    var t, p, q := [a, b], "/dev_aa/x", "/dev_bb/x";
    ChanceSteps(a, b, p, q, flags);
    assert FirstFrom(t, 0, p, {}, true) == None;
    SelectOnly(t, p, {0}, 1);
    assert Select(t, p, {}) == Some(0);
    assert Select(t, q, {0}) == None && Select(t, q, {0, 1}) == None;
    hide Select, Rewrite, Applies, Matches, FirstFrom;
    var s := State(t, 0, [Mark(true, false), BLANK], false, 1);
    assert s.Used() == {0} && {} + {0} == {0} && {0} + {1} == {0, 1};
    assert Chain(t, q, {0}) == [] && Chain(t, q, {0, 1}) == [];
    assert Chain(t, p, {}) == [0] + [] && Chain(t, p, {0}) == [1] + [];
    FollowCons(t, p, 0, []);
    FollowCons(t, p, 1, []);
  }

  /** After a lookup whose first allocation failed, found is null and one entry is recorded. From then on it is skipped,
      and a lookup changes that exactly when some other entry applies: one that finds nothing leaves the record in
      place, for any path and any memory. */
  lemma FirstFailure(s: State, path: string, later: string, allocs: nat)
    requires s.Fits() && s.Idle() && Chain(s.table, path, {}) != []
    ensures var i := Chain(s.table, path, {})[0];
      var u := Lookup(s, path, 0).1;
      && u.Used() == {i} && u.count == 1 && !u.pending && Lookup(s, path, 0).0 == path
      && (Lookup(u, later, allocs).1 == u <==> Chain(u.table, later, {i}) == [])
      && (Chain(u.table, later, {i}) == [] ==> Lookup(u, later, allocs).0 == later)
  {
    var c := Chain(s.table, path, {});
    IdleUsesNone(s);
    assert c[..1] == [c[0]];
    var u := Lookup(s, path, 0).1;
    hide Chain, Follow;
    assert u.marks == Marked(s.marks, [c[0]]);
    assert u.Used() == {c[0]};
    assert u.count == 1 && u.Reset().count == 0;
  }

  lemma StrayEnd(u: State, allocs: nat)
    requires |u.table| == 2 && u.table[0].target == "/dev_bb" && u.table[0].targetLen == 7
    requires u.marks == [Mark(true, true), Mark(true, false)] && u.pending && u.count == 2
    requires Chain(u.table, "/dev_hdd0/y", {0, 1}) == []
    ensures Safe(u, "/dev_hdd0/y", allocs) && Lookup(u, "/dev_hdd0/y", allocs).0 == "/dev_bbd0/y"
  {
    hide Chain, Follow;
    assert u.Used() == {0, 1} && LastFrom(u.marks, 0) == Some(0);
    assert "/dev_bb" + "/dev_hdd0/y"[7..] == "/dev_bbd0/y";
  }

  lemma StraySteps(a: Mapping, b: Mapping, p: string, q: string, r: string, flags: Flags)
    requires a == Mapping("/dev_aa", 7, "/dev_bb", 7, flags) && b == Mapping("/dev_bb", 7, "/dev_cc", 7, flags)
    requires p == "/dev_aa/x" && q == "/dev_bb/x" && r == "/dev_cc/x"
    ensures Applies(a, p) && !Applies(b, p) && Rewrite(a, p) == q && Applies(b, q) && !Applies(a, q)
    ensures Rewrite(b, q) == r
    ensures !Applies(a, r) && !Applies(b, r) && !Applies(a, "/dev_hdd0/y") && !Applies(b, "/dev_hdd0/y")
  {
    assert p[..7] == a.key && q[..7] == b.key && r[..7] == b.target && "/dev_hdd0/y"[..7] == "/dev_hd";
    assert a.key != b.key && a.key != b.target && b.key != b.target && "/dev_hd" != a.key && "/dev_hd" != b.key;
    assert a.target + p[7..] == q && b.target + q[7..] == r;
  }

  lemma StrayChains(t: seq<Mapping>, flags: Flags)
    requires t == [Mapping("/dev_aa", 7, "/dev_bb", 7, flags), Mapping("/dev_bb", 7, "/dev_cc", 7, flags)]
    requires !Has(flags, FLAG_MAX_PRIORITY)
    ensures Chain(t, "/dev_aa/x", {}) == [0, 1] && Chain(t, "/dev_hdd0/y", {0, 1}) == []
  {
    var p, q, r := "/dev_aa/x", "/dev_bb/x", "/dev_cc/x";
    StraySteps(t[0], t[1], p, q, r, flags);
    SelectOnly(t, p, {}, 0);
    SelectOnly(t, q, {0}, 1);
    assert Select(t, r, {0, 1}) == None && Select(t, "/dev_hdd0/y", {0, 1}) == None;
    hide Select, Rewrite, Applies, Matches, FirstFrom;
    assert {} + {0} == {0} && {0} + {1} == {0, 1};
    assert Chain(t, r, {0, 1}) == [];
    assert Chain(t, q, {0}) == [1] + [];
    assert Chain(t, p, {}) == [0] + [1];
  }

  lemma MarkBoth(marks: seq<Mark>)
    requires marks == [BLANK, BLANK]
    ensures [0, 1][..2] == [0, 1] && Marked(marks, [0, 1]) == [Mark(true, true), Mark(true, false)]
  {
  }

  /** An entry found by a lookup that then failed stays pending: the next lookup of a path that nothing maps, however
      unrelated, is sent into that entry's target. */
  lemma StrayPath(flags: Flags, allocs: nat)
    requires !Has(flags, FLAG_MAX_PRIORITY)
    ensures var t := [Mapping("/dev_aa", 7, "/dev_bb", 7, flags), Mapping("/dev_bb", 7, "/dev_cc", 7, flags)];
      var s := State(t, 0, [BLANK, BLANK], false, 0);
      var u := Lookup(s, "/dev_aa/x", 1).1;
      Safe(u, "/dev_hdd0/y", allocs) && Lookup(u, "/dev_hdd0/y", allocs).0 == "/dev_bbd0/y"
  {
    var t := [Mapping("/dev_aa", 7, "/dev_bb", 7, flags), Mapping("/dev_bb", 7, "/dev_cc", 7, flags)];
    var s := State(t, 0, [BLANK, BLANK], false, 0);
    StrayChains(t, flags);
    IdleUsesNone(s);
    MarkBoth(s.marks);
    var u := State(t, 0, [Mark(true, true), Mark(true, false)], true, 2);
    assert Lookup(s, "/dev_aa/x", 1).1 == u by {
      hide Chain, Follow, Marked;
    }
    hide *;
    StrayEnd(u, allocs);
  }

  /** When the entry in found is deleted, a lookup is safe only if another entry applies: otherwise it writes through
      the freed entry, as long as the table is not empty. */
  lemma FoundDeleted(s: State, k: nat, key: string, path: string, allocs: nat)
    requires s.Fits() && s.pending && k < |s.marks| && s.marks[k].last
    requires forall j :: 0 <= j < |s.marks| && s.marks[j].last ==> j == k
    requires FindKeyFrom(s.table, 0, key) == Some(k) && DeleteSpec(s.table, key).0 == OK && |s.table| > 1
    ensures var u := StepSpec(s, Delete(key)).0;
      && u.table == Cut(s.table, k) && u.pending
      && (Safe(u, path, allocs) ==> Chain(u.table, path, u.Used()) != [])
  {
    var u := StepSpec(s, Delete(key)).0;
    assert u.marks == Cut(s.marks, k) + [];
    assert forall i :: 0 <= i < |u.marks| ==> u.marks[i] == s.marks[if i < k then i else i + 1];
    assert LastFrom(u.marks, 0) == None;
    hide Chain;
  }

  // ----- when lookups are safe -----

  /** Every recorded slot is an entry still in the table. */
  ghost predicate Tidy(s: State)
    requires s.Fits()
  {
    s.count <= |s.Used()|
  }

  /** As long as no recorded entry has been removed, a table that fits in mcount cannot overrun it. */
  lemma RoomInTable(s: State, path: string)
    requires s.Fits() && Tidy(s)
    ensures s.count + |Chain(s.table, path, s.Used())| <= |s.table|
  {
    ChainBound(s.table, path, s.Used());
    var all := UpTo(|s.table|);
    assert Unused(s.table, s.Used()) == all - s.Used() && s.Used() <= all;
  }

  /** Each lookup of the run meets at most 32 entries, and has enough memory for any of them. */
  ghost predicate Healthy(s: State, ops: seq<TableOp>)
    requires s.Fits()
    decreases |ops|
  {
    || ops == []
    || ((ops[0].Find? ==> |s.table| <= MAX_DEPTH <= ops[0].temporaries)
        && Healthy(StepSpec(s, ops[0]).0, ops[1..]))
  }

  lemma HealthyLookup(s: State, path: string, allocs: nat)
    requires s.Fits() && s.Idle() && |s.table| <= MAX_DEPTH <= allocs
    ensures Safe(s, path, allocs) && Lookup(s, path, allocs).0 == Resolve(s.table, path).1
    ensures Lookup(s, path, allocs).1.Idle()
  {
    ChainAtMostTable(s.table, path);
    IdleUsesNone(s);
    hide Chain;
  }

  lemma BlanksCarried(marks: seq<Mark>, t: seq<Mapping>, bytes: nat, op: TableOp)
    requires |marks| == |t| && forall m :: m in marks ==> m == BLANK
    ensures forall m :: m in CarriedBy(marks, t, bytes, op, BLANK) ==> m == BLANK
  {
    hide TableStep;
  }

  /** With at most 32 entries and enough memory every run is safe, and leaves the lookup globals idle. */
  lemma {:induction false} HealthyRunsAreSafe(s: State, ops: seq<TableOp>)
    requires s.Fits() && s.Idle() && Healthy(s, ops)
    ensures RunSafe(s, ops) && RunSpec(s, ops).0.Idle()
    decreases |ops|
  {
    if ops != [] {
      RunStep(s, ops);
      hide Safe, TableStep, Lookup, RunSafe, RunSpec, CarriedBy;
      if ops[0].Find? {
        HealthyLookup(s, ops[0].path, ops[0].temporaries);
      } else {
        BlanksCarried(s.marks, s.table, s.bytes, ops[0]);
      }
      HealthyRunsAreSafe(StepSpec(s, ops[0]).0, ops[1..]);
    }
  }
}
