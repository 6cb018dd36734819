/** What PathSpec computes, said over again in the characters, flag bits and byte counts of payload/mappath.c: the order
    of a lookup, what a mapping stores, what each call returns, and what is left after deletions. */
module PathLaws {
  import opened Common
  import opened PathSpec

  // ----- the order of a lookup -----

  /** The key begins the path and the target does not, both measured by the recorded lengths. */
  predicate Maps(m: Mapping, path: string) {
    && m.keyLen <= |m.key| && m.keyLen <= |path| && m.key[..m.keyLen] == path[..m.keyLen]
    && m.target != path
    && !(m.targetLen <= |m.target| && m.targetLen <= |path| && m.target[..m.targetLen] == path[..m.targetLen])
  }

  lemma AppliesIs(m: Mapping, path: string)
    ensures Applies(m, path) <==> Maps(m, path)
  {
  }

  /** Entry j is the next one to be applied: an unused one that maps the path, before which no unused one with
      FLAG_MAX_PRIORITY maps it; and without that flag itself, no unused one at all, nor a later one with the flag. */
  ghost predicate Next(t: seq<Mapping>, path: string, used: set<nat>, j: nat) {
    && |path| > 6 && j < |t| && j !in used && Maps(t[j], path)
    && (t[j].flags & 8 != 0 ==> forall i :: 0 <= i < j && t[i].flags & 8 != 0 && Maps(t[i], path) ==> i in used)
    && (t[j].flags & 8 == 0 ==> forall i :: 0 <= i < j && Maps(t[i], path) ==> i in used)
    && (t[j].flags & 8 == 0 ==> forall i :: 0 <= i < |t| && t[i].flags & 8 != 0 && Maps(t[i], path) ==> i in used)
  }

  ghost predicate NoNext(t: seq<Mapping>, path: string, used: set<nat>) {
    |path| <= 6 || forall i :: 0 <= i < |t| && Maps(t[i], path) ==> i in used
  }

  lemma EligibleIs(m: Mapping, path: string, priority: bool)
    ensures Eligible(m, path, priority) <==> Maps(m, path) && (priority ==> m.flags & 8 != 0)
  {
    AppliesIs(m, path);
  }

  /** Slot order matters: the entry chosen is the next one in that order, and none is chosen exactly when there is no
      next one. */
  lemma SlotOrder(t: seq<Mapping>, path: string, used: set<nat>, j: nat)
    ensures Select(t, path, used) == Some(j) <==> Next(t, path, used, j)
    ensures Select(t, path, used) == None <==> NoNext(t, path, used)
  {
    forall i: nat, priority | i < |t|
      ensures Eligible(t[i], path, priority) <==> Maps(t[i], path) && (priority ==> t[i].flags & 8 != 0)
    {
      EligibleIs(t[i], path, priority);
    }
    hide Eligible, Maps;
    var p, q := FirstFrom(t, 0, path, used, true), FirstFrom(t, 0, path, used, false);
  }

  /** The path an entry leaves: the target, and behind it what follows the key, where that fits in 0x420 characters and
      the target was not shortened after it had been measured. */
  predicate Leads(t: seq<Mapping>, j: nat, path: string, next: string) {
    && j < |t| && t[j].keyLen <= |path|
    && var target, rest := t[j].target, path[t[j].keyLen..];
       next == if |target| == t[j].targetLen && |target| + |rest| < 0x420 then target + rest else target
  }

  /** The entries used before the k-th step. */
  function Before(c: seq<nat>, k: nat): set<nat>
    requires k <= |c|
  {
    set i | 0 <= i < k :: c[i]
  }

  /** The entries c lead from the path through ps, each being the next one, up to a path where there is none. */
  ghost predicate Trace(t: seq<Mapping>, path: string, used: set<nat>, c: seq<nat>, ps: seq<string>) {
    && |ps| == |c| + 1 && ps[0] == path
    && (forall k :: 0 <= k < |c| ==> Next(t, ps[k], used + Before(c, k), c[k]) && Leads(t, c[k], ps[k], ps[k + 1]))
    && NoNext(t, ps[|c|], used + Before(c, |c|))
  }

  lemma LeadsTo(t: seq<Mapping>, path: string, used: set<nat>, j: nat)
    requires Next(t, path, used, j)
    ensures j < |t| && Maps(t[j], path) && t[j].keyLen <= |path|
    ensures forall next :: Leads(t, j, path, next) <==> next == Rewrite(t[j], path)
  {
  }

  lemma BeforeTail(c: seq<nat>, used: set<nat>, k: nat)
    requires 0 < k <= |c|
    ensures used + Before(c, k) == used + {c[0]} + Before(c[1..], k - 1)
    ensures used + Before(c, 0) == used
  {
    assert forall i :: 0 < i < k ==> c[i] == c[1..][i - 1];
    assert forall i :: 0 <= i < k - 1 ==> c[1..][i] == c[i + 1];
  }

  lemma TraceStep(t: seq<Mapping>, path: string, used: set<nat>, c: seq<nat>, ps: seq<string>)
    requires c != [] && |ps| == |c| + 1 && ps[0] == path
    ensures Trace(t, path, used, c, ps) <==>
            && Next(t, path, used, c[0]) && Leads(t, c[0], path, ps[1])
            && Trace(t, ps[1], used + {c[0]}, c[1..], ps[1..])
  {
    hide Next, NoNext, Leads, Before;
    var d, qs := c[1..], ps[1..];
    forall k | 0 <= k <= |d|
      ensures used + {c[0]} + Before(d, k) == used + Before(c, k + 1)
    {
      BeforeTail(c, used, k + 1);
    }
    BeforeTail(c, used, 1);
    if Trace(t, ps[1], used + {c[0]}, d, qs) && Next(t, path, used, c[0]) && Leads(t, c[0], path, ps[1]) {
      forall k | 0 <= k < |c|
        ensures Next(t, ps[k], used + Before(c, k), c[k]) && Leads(t, c[k], ps[k], ps[k + 1])
      {
        if k > 0 {
          assert d[k - 1] == c[k];
          assert Next(t, qs[k - 1], used + {c[0]} + Before(d, k - 1), d[k - 1]);
        }
      }
    }
    if Trace(t, path, used, c, ps) {
      assert Next(t, ps[0], used + Before(c, 0), c[0]);
      forall k | 0 <= k < |d|
        ensures Next(t, qs[k], used + {c[0]} + Before(d, k), d[k]) && Leads(t, d[k], qs[k], qs[k + 1])
      {
        assert Next(t, ps[k + 1], used + Before(c, k + 1), c[k + 1]);
      }
    }
  }

  lemma TraceFront(t: seq<Mapping>, path: string, used: set<nat>, c: seq<nat>, ps: seq<string>)
    ensures Trace(t, path, used, c, ps) ==> |ps| == |c| + 1 && ps[0] == path
    ensures Trace(t, path, used, [], ps) ==> NoNext(t, path, used)
    ensures NoNext(t, path, used) ==> Trace(t, path, used, [], [path])
  {
    hide Next, NoNext, Leads;
    assert used + Before([], 0) == used;
  }

  /** A lookup is the one way of going on with the next entry until there is none: its entries, and the path it
      leaves. */
  lemma {:induction false} LookupTrace(t: seq<Mapping>, path: string, used: set<nat>, c: seq<nat>, ps: seq<string>)
    requires Trace(t, path, used, c, ps)
    ensures c == Chain(t, path, used) && ps[|c|] == Follow(t, path, c)
    decreases |c|
  {
    hide *;
    TraceFront(t, path, used, c, ps);
    ChainStep(t, path, used);
    if c != [] {
      TraceStep(t, path, used, c, ps);
      SlotOrder(t, path, used, c[0]);
      LeadsTo(t, path, used, c[0]);
      LookupTrace(t, ps[1], used + {c[0]}, c[1..], ps[1..]);
    } else {
      SlotOrder(t, path, used, 0);
    }
  }

  /** And there is one on every table. */
  lemma {:induction false} TraceExists(t: seq<Mapping>, path: string, used: set<nat>)
    ensures exists ps :: Trace(t, path, used, Chain(t, path, used), ps)
    decreases Unused(t, used)
  {
    hide *;
    ChainStep(t, path, used);
    match Select(t, path, used)
    case None =>
      SlotOrder(t, path, used, 0);
      TraceFront(t, path, used, [], [path]);
      assert Trace(t, path, used, Chain(t, path, used), [path]);
    case Some(i) =>
      UnusedShrinks(t, path, used);
      SlotOrder(t, path, used, i);
      var next := Rewrite(t[i], path);
      LeadsTo(t, path, used, i);
      TraceExists(t, next, used + {i});
      var qs :| Trace(t, next, used + {i}, Chain(t, next, used + {i}), qs);
      var ps := [path] + qs;
      TraceFront(t, next, used + {i}, Chain(t, next, used + {i}), qs);
      assert ps[1..] == qs && Chain(t, path, used)[0] == i;
      TraceStep(t, path, used, Chain(t, path, used), ps);
  }

  // ----- what a mapping stores -----

  /** A slash that no slash and no dot follows. */
  predicate Starts(s: string, i: nat) {
    i < |s| && s[i] == '/' && (i + 1 < |s| ==> s[i + 1] != '/' && s[i + 1] != '.')
  }

  /** The key of a path: a path of at most 6 characters itself, otherwise its rest from the first such slash on. */
  ghost predicate Names(opath: string, key: string) {
    if |opath| <= 6 then key == opath
    else exists i: nat :: Starts(opath, i) && key == opath[i..] && forall j :: 0 <= j < i ==> !Starts(opath, j)
  }

  predicate MountPoint(key: string) {
    "/dev_" <= key || "/app_" <= key || "/host_" <= key
  }

  predicate Keyed(m: Mapping, key: string) {
    m.keyLen == |key| && key <= m.key
  }

  /** Entry k is the first with the key. */
  ghost predicate FirstKeyed(t: seq<Mapping>, key: string, k: nat) {
    k < |t| && Keyed(t[k], key) && forall j :: 0 <= j < k ==> !Keyed(t[j], key)
  }

  lemma {:induction false} SkipsTo(s: string, i: nat)
    requires i <= |s| && forall j :: 0 <= j < i ==> !Starts(s, j)
    ensures SkipTo(s) == SkipTo(s[i..])
    decreases i
  {
    if i > 0 {
      SkipsTo(s, i - 1);
      assert !Starts(s, i - 1) && s[i - 1..][1..] == s[i..] && s[i - 1..][0] == s[i - 1];
    } else {
      assert s[0..] == s;
    }
  }

  lemma FirstStart(s: string) returns (i: nat)
    ensures i <= |s| && (forall j :: 0 <= j < i ==> !Starts(s, j)) && (i < |s| ==> Starts(s, i))
  {
    i := 0;
    while i < |s| && !Starts(s, i)
      invariant i <= |s| && forall j :: 0 <= j < i ==> !Starts(s, j)
    {
      i := i + 1;
    }
  }

  lemma SkipHere(s: string, i: nat)
    requires i <= |s| && (i < |s| ==> Starts(s, i))
    ensures SkipTo(s[i..]) == if i < |s| then Some(s[i..]) else None
  {
  }

  /** The key addMapping uses. */
  lemma KeyIs(opath: string, key: string)
    ensures KeyOf(opath) == Some(key) <==> Names(opath, key)
    ensures KeyOf(opath) == None <==> |opath| > 6 && forall i: nat :: !Starts(opath, i)
  {
    if |opath| > 6 {
      var i := FirstStart(opath);
      SkipsTo(opath, i);
      SkipHere(opath, i);
      hide SkipTo;
      assert i < |opath| ==> Starts(opath, i);
    }
  }

  lemma KeyedIs(m: Mapping, key: string)
    ensures HasKey(m, key) <==> Keyed(m, key)
  {
  }

  lemma MountPointIs(key: string)
    ensures Mappable(key) <==> MountPoint(key)
  {
  }

  /** getMapping and the loop of deleteMapping find the first entry with the key; getMapping none for a short key. */
  lemma FirstKeyedIs(t: seq<Mapping>, key: string, k: nat)
    ensures FindKeyFrom(t, 0, key) == Some(k) <==> FirstKeyed(t, key, k)
    ensures FindKey(t, key) == Some(k) <==> |key| > 6 && FirstKeyed(t, key, k)
    ensures FindKeyFrom(t, 0, key) == None <==> forall j :: 0 <= j < |t| ==> !Keyed(t[j], key)
  {
    forall j | 0 <= j < |t|
      ensures HasKey(t[j], key) <==> Keyed(t[j], key)
    {
      KeyedIs(t[j], key);
    }
    hide Keyed, HasKey;
    var r := FindKeyFrom(t, 0, key);
  }

  lemma NoneKeyed(t: seq<Mapping>, key: string)
    requires |key| > 6 && FindKey(t, key) == None
    ensures forall j :: 0 <= j < |t| ==> !Keyed(t[j], key)
  {
    FirstKeyedIs(t, key, 0);
  }

  /** A new path that asks for protection by its first three characters. */
  predicate Token(npath: string, flags: Flags) {
    |npath| > 3 && npath[..3] == "/./" && flags & 4 == 0
  }

  /** The flags of an entry: FLAG_PROTECT when asked for in either way, FLAG_COPY as in the word that decides it, and
      every other flag as asked for. */
  predicate Flagged(stored: Flags, flags: Flags, copy: Flags, token: bool) {
    && (stored & 4 != 0 <==> token || flags & 4 != 0)
    && stored & 0xFFFF_FFFA == flags & 0xFFFF_FFFA && stored & 1 == copy & 1
  }

  /** What an entry holds of the new path and flags it was given: the token is taken off, though the recorded length
      still counts it. */
  predicate Holds(m: Mapping, npath: string, flags: Flags, copy: Flags) {
    && m.target == (if Token(npath, flags) then npath[2..] else npath) && m.targetLen == |npath|
    && Flagged(m.flags, flags, copy, Token(npath, flags))
  }

  lemma TokenIs(npath: string, flags: Flags)
    ensures HasToken(npath, flags) <==> Token(npath, flags)
    ensures TargetOf(npath, flags) == if Token(npath, flags) then npath[2..] else npath
  {
  }

  lemma FlagsOfIs(npath: string, flags: Flags)
    ensures FlagsOf(npath, flags) == if HasToken(npath, flags) then flags | 4 else flags
  {
    hide HasToken;
  }

  lemma FlaggedNew(flags: Flags, token: bool)
    ensures Flagged(if token then flags | 4 else flags, flags, flags, token)
  {
  }

  lemma FlaggedUpdate(f: Flags, flags: Flags, copy: Flags, token: bool)
    requires Flagged(f, flags, flags, token)
    ensures Flagged(UpdatedFlags(copy, f), flags, copy, token)
  {
    hide UpdatedFlags;
  }

  lemma HoldsIs(m: Mapping, npath: string, flags: Flags, copy: Flags)
    ensures Holds(m, npath, flags, copy) <==>
            && m.target == (if Token(npath, flags) then npath[2..] else npath) && m.targetLen == |npath|
            && Flagged(m.flags, flags, copy, Token(npath, flags))
    ensures Token(npath, flags) ==> |npath| > 3
  {
    hide Flagged;
  }

  lemma HoldsNew(key: string, n: nat, npath: string, flags: Flags)
    ensures Holds(Mapping(key, n, TargetOf(npath, flags), |npath|, FlagsOf(npath, flags)), npath, flags, flags)
  {
    TokenIs(npath, flags);
    FlagsOfIs(npath, flags);
    FlaggedNew(flags, Token(npath, flags));
    hide HasToken, Token, TargetOf, FlagsOf, Flagged;
  }

  lemma HoldsUpdate(key: string, n: nat, npath: string, flags: Flags, copy: Flags)
    ensures var f := UpdatedFlags(copy, FlagsOf(npath, flags));
      Holds(Mapping(key, n, TargetOf(npath, flags), |npath|, f), npath, flags, copy)
  {
    hide *;
    HoldsNew(key, n, npath, flags);
    var m := Mapping(key, n, TargetOf(npath, flags), |npath|, FlagsOf(npath, flags));
    HoldsIs(m, npath, flags, flags);
    FlaggedUpdate(m.flags, flags, copy, Token(npath, flags));
    HoldsIs(m.(flags := UpdatedFlags(copy, m.flags)), npath, flags, copy);
  }

  /** The table after a mapping was stored: one entry more at the end, with the key that the path names; or, where
      such a key was there, its first entry with a new target and new flags. All other entries are as they were. */
  ghost predicate Stored(t: seq<Mapping>, opath: string, npath: string, flags: Flags, u: seq<Mapping>, k: nat) {
    k < |u| &&
    if k == |t| then
      && u == t + [u[k]] && Names(opath, u[k].key) && u[k].keyLen == |opath| && Holds(u[k], npath, flags, flags)
      && (|u[k].key| > 6 ==> forall j :: 0 <= j < |t| ==> !Keyed(t[j], u[k].key))
    else
      && k < |t| && u == t[k := u[k]] && u[k].key == t[k].key && u[k].keyLen == t[k].keyLen
      && Holds(u[k], npath, flags, t[k].flags)
      && exists key :: Names(opath, key) && |key| > 6 && FirstKeyed(t, key, k)
  }

  /** What a successful addMapping with a new path leaves, whenever it does not delete. */
  lemma MappingStored(t: seq<Mapping>, bytes: nat, opath: string, npath: string, flags: Flags, a: Allocs)
    requires var o := AddSpec(t, bytes, Some(opath), Some(npath), flags, a); o.code == OK && |o.table| >= |t|
    ensures exists k :: Stored(t, opath, npath, flags, AddSpec(t, bytes, Some(opath), Some(npath), flags, a).table, k)
  {
    var u := AddSpec(t, bytes, Some(opath), Some(npath), flags, a).table;
    var key := KeyOf(opath).value;
    KeyIs(opath, key);
    hide KeyOf, Mappable, TargetOf, FlagsOf, UpdatedFlags, Names, Holds, Keyed, HasKey, Has;
    match FindKey(t, key)
    case Some(k) =>
      FirstKeyedIs(t, key, k);
      HoldsUpdate(t[k].key, t[k].keyLen, npath, flags, t[k].flags);
      assert Stored(t, opath, npath, flags, u, k);
    case None =>
      HoldsNew(key, |opath|, npath, flags);
      if |key| > 6 {
        NoneKeyed(t, key);
      }
      assert Stored(t, opath, npath, flags, u, |t|);
  }

  lemma HeldProtection(m: Mapping, npath: string, flags: Flags, copy: Flags)
    requires Holds(m, npath, flags, copy) && (Token(npath, flags) || flags & 4 != 0)
    ensures Has(m.flags, FLAG_PROTECT)
  {
  }

  /** An entry that asked for protection, by token or by flag, is never removed: not by a key, nor by a sweep. */
  lemma ProtectionHolds(t: seq<Mapping>, opath: string, npath: string, flags: Flags, u: seq<Mapping>, k: nat,
                        key: string, mask: Flags)
    requires Stored(t, opath, npath, flags, u, k) && (Token(npath, flags) || flags & 4 != 0)
    ensures u[k] in DeleteSpec(u, key).1 && u[k] in Kept(u, mask)
  {
    hide DeleteSpec, Kept, Names, FirstKeyed, Holds, Token, Keyed, Has;
    HeldProtection(u[k], npath, flags, if k == |t| then flags else t[k].flags);
    ProtectedSurvives(u, u[k], key, mask);
  }

  // ----- what the calls return -----

  /** deleteMapping, case by case. */
  lemma DeleteReturns(t: seq<Mapping>, key: string, k: nat)
    ensures t == [] || !MountPoint(key) ==> DeleteSpec(t, key) == (EINVAL, t)
    ensures t != [] && MountPoint(key) && (forall j :: 0 <= j < |t| ==> !Keyed(t[j], key)) ==>
              DeleteSpec(t, key) == (ESRCH, t)
    ensures MountPoint(key) && FirstKeyed(t, key, k) ==>
              DeleteSpec(t, key) == if t[k].flags & 4 != 0 then (EPERM, t) else (OK, t[..k] + t[k + 1..])
  {
    MountPointIs(key);
    FirstKeyedIs(t, key, k);
    hide Mappable, MountPoint, Keyed, FindKeyFrom;
  }

  /** addMapping with a key that was found. */
  lemma FoundReturns(t: seq<Mapping>, bytes: nat, opath: string, npath: Option<string>, flags: Flags, a: Allocs,
                     key: string, k: nat)
    requires Names(opath, key) && MountPoint(key) && |key| > 6 && FirstKeyed(t, key, k)
    ensures var o := AddSpec(t, bytes, Some(opath), npath, flags, a);
      && o.bytes == bytes
      && (npath.Some? && 6 < |npath.value| < 0x420 ==> o.code == OK && |o.table| == |t|)
      && (!(npath.Some? && 6 < |npath.value| < 0x420) ==>
            (o.code, o.table) == if t[k].flags & 4 != 0 then (EPERM, t) else (OK, t[..k] + t[k + 1..]))
  {
    KeyIs(opath, key);
    MountPointIs(key);
    FirstKeyedIs(t, key, k);
    DeleteReturns(t, key, k);
    hide KeyOf, Mappable, MountPoint, Names, FirstKeyed, FindKey, DeleteSpec, TargetOf, FlagsOf, UpdatedFlags;
  }

  /** addMapping with a new key: the budget of 0x80000 is tested first, then the length, then the allocations are made;
      one that fails leaves bytes counted. */
  lemma NewReturns(t: seq<Mapping>, bytes: nat, opath: string, npath: string, flags: Flags, a: Allocs, key: string)
    requires Names(opath, key) && MountPoint(key)
    requires |key| <= 6 || forall j :: 0 <= j < |t| ==> !Keyed(t[j], key)
    ensures var o := AddSpec(t, bytes, Some(opath), Some(npath), flags, a);
      var copied := if flags & 1 != 0 then |opath| + 1 else 0;
      if bytes + 48 + 0x420 + copied > 0x80000 then o == Outcome(EAGAIN, t, bytes)
      else if |npath| >= 0x420 then o == Outcome(EINVAL, t, bytes)
      else if !a.entry then o == Outcome(ENOMEM, t, bytes + 48)
      else if flags & 1 != 0 && !a.key then o == Outcome(ENOMEM, t, bytes + |opath| + 1)
      else if !a.path then o == Outcome(ENOMEM, t, bytes + 0x420 + if flags & 1 != 0 then 1 else 0)
      else o.code == OK && |o.table| == |t| + 1 && o.bytes == bytes + 48 + 0x420 + copied
  {
    KeyIs(opath, key);
    MountPointIs(key);
    if |key| > 6 && FindKey(t, key).Some? {
      FirstKeyedIs(t, key, FindKey(t, key).value);
    }
    HoldsNew(key, |opath|, npath, flags);
    hide KeyOf, Mappable, MountPoint, Names, Keyed, FindKeyFrom, TargetOf, FlagsOf, Token;
  }

  /** addMapping with nothing to add. */
  lemma NothingAdded(t: seq<Mapping>, bytes: nat, opath: Option<string>, npath: Option<string>, flags: Flags, a: Allocs)
    ensures (opath.None? || (forall key :: Names(opath.value, key) ==> !MountPoint(key))) ==>
              AddSpec(t, bytes, opath, npath, flags, a) == Outcome(if npath.None? then OK else EINVAL, t, bytes)
    ensures forall key :: opath.Some? && Names(opath.value, key) && npath.None?
                          && (|key| <= 6 || forall j :: 0 <= j < |t| ==> !Keyed(t[j], key)) ==>
              AddSpec(t, bytes, opath, npath, flags, a) == Outcome(OK, t, bytes)
  {
    if opath.Some? {
      var r := KeyOf(opath.value);
      forall key
        ensures Names(opath.value, key) <==> r == Some(key)
        ensures Mappable(key) <==> MountPoint(key)
        ensures |key| > 6 && (forall j :: 0 <= j < |t| ==> !Keyed(t[j], key)) ==> FindKey(t, key) == None
      {
        KeyIs(opath.value, key);
        MountPointIs(key);
        if FindKey(t, key).Some? {
          FirstKeyedIs(t, key, FindKey(t, key).value);
        }
      }
      hide KeyOf, Mappable, MountPoint, Names, Keyed, FindKeyFrom, TargetOf, FlagsOf;
    }
  }

  // ----- what a sweep leaves -----

  /** A sweep for these flags may not take the entry: it is protected, or has none of them. */
  predicate Stays(m: Mapping, mask: Flags) {
    m.flags & 4 != 0 || (mask != 0 && m.flags & mask == 0)
  }

  predicate Rising(ks: seq<nat>) {
    forall i, j :: 0 <= i < j < |ks| ==> ks[i] < ks[j]
  }

  /** The elements of u are those of t at the places ks, and may not be taken. */
  predicate Picks(t: seq<Mapping>, mask: Flags, u: seq<Mapping>, ks: seq<nat>) {
    |ks| == |u| && forall i :: 0 <= i < |ks| ==> ks[i] < |t| && u[i] == t[ks[i]] && Stays(u[i], mask)
  }

  predicate Complete(t: seq<Mapping>, mask: Flags, ks: seq<nat>) {
    forall k :: 0 <= k < |t| && Stays(t[k], mask) ==> k in ks
  }

  /** u is what is left of t: at the places ks, in their order, which are those of all entries that stay. */
  predicate LeftAt(t: seq<Mapping>, mask: Flags, u: seq<Mapping>, ks: seq<nat>) {
    Rising(ks) && Picks(t, mask, u, ks) && Complete(t, mask, ks)
  }

  ghost predicate Left(t: seq<Mapping>, mask: Flags, u: seq<Mapping>) {
    exists ks :: LeftAt(t, mask, u, ks)
  }

  lemma ProtectedIs(flags: Flags, mask: Flags)
    ensures (Has(flags, FLAG_PROTECT) <==> flags & 4 != 0) && (Has(flags, mask) <==> flags & mask != 0)
  {
  }

  lemma StaysIs(m: Mapping, mask: Flags)
    ensures Removable(m, mask) <==> !Stays(m, mask)
  {
    var kept, matched := Has(m.flags, FLAG_PROTECT), Has(m.flags, mask);
    ProtectedIs(m.flags, mask);
    hide Has, FLAG_PROTECT;
  }

  /** The same places counted from one element earlier. */
  function Shifted(ks: seq<nat>): (up: seq<nat>)
    ensures |up| == |ks| && forall i :: 0 <= i < |ks| ==> up[i] == ks[i] + 1
  {
    seq(|ks|, i requires 0 <= i < |ks| => ks[i] + 1)
  }

  lemma ShiftedHas(ks: seq<nat>, k: nat)
    requires k > 0 && k - 1 in ks
    ensures k in Shifted(ks) && k in [0] + Shifted(ks)
  {
    hide Shifted;
    var i :| 0 <= i < |ks| && ks[i] == k - 1;
    assert Shifted(ks)[i] == k && ([0] + Shifted(ks))[i + 1] == k;
  }

  lemma CompleteShifted(t: seq<Mapping>, mask: Flags, ks: seq<nat>)
    requires t != [] && Complete(t[1..], mask, ks)
    ensures Stays(t[0], mask) ==> Complete(t, mask, [0] + Shifted(ks))
    ensures !Stays(t[0], mask) ==> Complete(t, mask, Shifted(ks))
  {
    hide Stays, Shifted;
    forall k | 0 < k < |t| && Stays(t[k], mask)
      ensures k in Shifted(ks) && k in [0] + Shifted(ks)
    {
      assert t[1..][k - 1] == t[k];
      ShiftedHas(ks, k);
    }
  }

  lemma RisingShifted(ks: seq<nat>)
    requires Rising(ks)
    ensures Rising(Shifted(ks)) && Rising([0] + Shifted(ks))
  {
    hide Shifted;
  }

  lemma PicksShifted(t: seq<Mapping>, mask: Flags, u: seq<Mapping>, ks: seq<nat>)
    requires t != [] && Picks(t[1..], mask, u, ks)
    ensures Picks(t, mask, u, Shifted(ks))
    ensures Stays(t[0], mask) ==> Picks(t, mask, [t[0]] + u, [0] + Shifted(ks))
  {
    hide Stays, Shifted;
  }

  lemma LeftFirst(t: seq<Mapping>, mask: Flags, u: seq<Mapping>)
    requires t != [] && Left(t[1..], mask, u)
    ensures Left(t, mask, if Stays(t[0], mask) then [t[0]] + u else u)
  {
    var ks :| LeftAt(t[1..], mask, u, ks);
    CompleteShifted(t, mask, ks);
    RisingShifted(ks);
    PicksShifted(t, mask, u, ks);
    hide Complete, Rising, Picks, Shifted, Stays;
    if Stays(t[0], mask) {
      assert LeftAt(t, mask, [t[0]] + u, [0] + Shifted(ks));
    } else {
      assert LeftAt(t, mask, u, Shifted(ks));
    }
  }

  lemma LeftNothing(mask: Flags)
    ensures Left([], mask, [])
  {
    assert LeftAt([], mask, [], []);
  }

  /** deleteAllMappings leaves every entry that may not be taken, in the old order, and nothing else. */
  lemma {:induction false} SweepLeaves(t: seq<Mapping>, mask: Flags)
    ensures Left(t, mask, Kept(t, mask))
  {
    hide *;
    KeptFirst(t, mask);
    if t == [] {
      LeftNothing(mask);
    } else {
      SweepLeaves(t[1..], mask);
      LeftFirst(t, mask, Kept(t[1..], mask));
      StaysIs(t[0], mask);
    }
  }

  // ----- map_path and sys_map_paths -----

  /** map_path_user2 for the word flags: a path that is missing or cannot be copied is an error with nothing changed; a
      path mapped to itself is unmapped, the key is copied, and the app-home flag follows /dev_bdvd. */
  lemma UserReturns(t: seq<Mapping>, bytes: nat, app: bool, p: UserPair, flags: Flags)
    ensures var (code, r) := MapUserSpec(t, bytes, app, p, flags);
      if p.path.None? then code == Faulted(-1) && r == MapRun(false, t, bytes, app)
      else if p.pathFault != 0 then code == Faulted(p.pathFault) && r == MapRun(false, t, bytes, app)
      else if p.newPath.Some? && p.newPathFault != 0 then
        code == Faulted(p.newPathFault) && r == MapRun(false, t, bytes, app)
      else
        var np := if p.newPath == p.path then None else p.newPath;
        var o := AddSpec(t, bytes, p.path, np, flags | 1, p.allocs);
        && code == Mapped(o.code) && r.table == o.table && r.bytes == o.bytes && (r.ok <==> o.code == OK)
        && r.apphome == if p.path.value == "/dev_bdvd" then np.Some? else app
  {
    hide AddSpec, Has;
    var f := flags | FLAG_COPY;
    assert f == flags | 1;
    hide FLAG_COPY;
  }

  /** The state after the pairs before the n-th. */
  function Upto(t: seq<Mapping>, bytes: nat, app: bool, ps: seq<UserPair>, n: nat): MapRun
    requires n <= |ps|
  {
    MapAll(t, bytes, app, ps[..n])
  }

  /** One pair as a table entry. */
  function MapOne(r: MapRun, p: UserPair): MapRun {
    MapUserSpec(r.table, r.bytes, r.apphome, p, 2).1
  }

  lemma MapFirst(t: seq<Mapping>, bytes: nat, app: bool, p: UserPair, ps: seq<UserPair>)
    ensures MapAll(t, bytes, app, []) == MapRun(true, t, bytes, app)
    ensures var r := MapOne(MapRun(true, t, bytes, app), p);
      MapAll(t, bytes, app, [p] + ps) == if r.ok then MapAll(r.table, r.bytes, r.apphome, ps) else r
  {
    hide MapUserSpec;
    assert ([p] + ps)[1..] == ps;
  }

  /** One pair more at the end: it is mapped in the state the others leave, unless one of them has failed. */
  lemma {:induction false} MapLast(t: seq<Mapping>, bytes: nat, app: bool, ps: seq<UserPair>, p: UserPair)
    ensures var r := MapAll(t, bytes, app, ps);
      MapAll(t, bytes, app, ps + [p]) == if r.ok then MapOne(r, p) else r
    decreases |ps|
  {
    hide *;
    if ps == [] {
      MapFirst(t, bytes, app, p, []);
      var r := MapOne(MapRun(true, t, bytes, app), p);
      MapFirst(r.table, r.bytes, r.apphome, p, []);
      assert [] + [p] == [p] + [];
    } else {
      MapFirst(t, bytes, app, ps[0], ps[1..]);
      MapFirst(t, bytes, app, ps[0], ps[1..] + [p]);
      assert [ps[0]] + ps[1..] == ps && [ps[0]] + (ps[1..] + [p]) == ps + [p];
      var r := MapOne(MapRun(true, t, bytes, app), ps[0]);
      MapLast(r.table, r.bytes, r.apphome, ps[1..], p);
    }
  }

  lemma UptoNext(t: seq<Mapping>, bytes: nat, app: bool, ps: seq<UserPair>, n: nat)
    requires n < |ps|
    ensures Upto(t, bytes, app, ps, 0) == MapRun(true, t, bytes, app)
    ensures Upto(t, bytes, app, ps, |ps|) == MapAll(t, bytes, app, ps)
    ensures var r := Upto(t, bytes, app, ps, n);
      Upto(t, bytes, app, ps, n + 1) == if r.ok then MapOne(r, ps[n]) else r
  {
    MapLast(t, bytes, app, ps[..n], ps[n]);
    assert ps[..n] + [ps[n]] == ps[..n + 1] && ps[..|ps|] == ps;
    hide MapOne;
  }

  /** The n-th pair is the first that cannot be mapped. */
  ghost predicate FailsAt(t: seq<Mapping>, bytes: nat, app: bool, ps: seq<UserPair>, n: nat) {
    n < |ps| && var r := Upto(t, bytes, app, ps, n); r.ok && !MapOne(r, ps[n]).ok
  }

  lemma {:induction false} StuckAt(t: seq<Mapping>, bytes: nat, app: bool, ps: seq<UserPair>, n: nat, k: nat)
    requires FailsAt(t, bytes, app, ps, n) && n < k <= |ps|
    ensures Upto(t, bytes, app, ps, k) == MapOne(Upto(t, bytes, app, ps, n), ps[n])
  {
    hide MapOne, Upto;
    UptoNext(t, bytes, app, ps, k - 1);
    if k > n + 1 {
      StuckAt(t, bytes, app, ps, n, k - 1);
    }
  }

  lemma UptoZero(t: seq<Mapping>, bytes: nat, app: bool, ps: seq<UserPair>)
    ensures Upto(t, bytes, app, ps, 0) == MapRun(true, t, bytes, app)
    ensures Upto(t, bytes, app, ps, |ps|) == MapAll(t, bytes, app, ps)
  {
    assert ps[..|ps|] == ps;
  }

  lemma {:induction false} FailureBefore(t: seq<Mapping>, bytes: nat, app: bool, ps: seq<UserPair>, k: nat)
    requires k <= |ps| && !Upto(t, bytes, app, ps, k).ok
    ensures exists n :: FailsAt(t, bytes, app, ps, n)
  {
    hide MapOne, Upto;
    if k > 0 {
      UptoNext(t, bytes, app, ps, k - 1);
      if Upto(t, bytes, app, ps, k - 1).ok {
        assert FailsAt(t, bytes, app, ps, k - 1);
      } else {
        FailureBefore(t, bytes, app, ps, k - 1);
      }
    } else {
      UptoZero(t, bytes, app, ps);
    }
  }

  /** The pairs are mapped in order up to the first that cannot be; the whole fails exactly when there is one. */
  lemma PairsInOrder(t: seq<Mapping>, bytes: nat, app: bool, ps: seq<UserPair>)
    ensures !MapAll(t, bytes, app, ps).ok <==> exists n :: FailsAt(t, bytes, app, ps, n)
    ensures forall n: nat :: FailsAt(t, bytes, app, ps, n) ==>
                          MapAll(t, bytes, app, ps) == MapOne(Upto(t, bytes, app, ps, n), ps[n])
  {
    hide MapOne, Upto;
    UptoZero(t, bytes, app, ps);
    if !MapAll(t, bytes, app, ps).ok {
      FailureBefore(t, bytes, app, ps, |ps|);
    }
    forall n: nat | FailsAt(t, bytes, app, ps, n)
      ensures MapAll(t, bytes, app, ps) == MapOne(Upto(t, bytes, app, ps, n), ps[n])
    {
      StuckAt(t, bytes, app, ps, n, |ps|);
    }
  }

  /** What a clean-up of table entries leaves of a state: of the table what it may not take, the counter, and the
      app-home flag unless an entry for /dev_bdvd goes. */
  ghost predicate CleanedUp(r: MapRun, t: seq<Mapping>, bytes: nat, app: bool) {
    && Left(r.table, 2, t) && bytes == r.bytes
    && (app <==> r.apphome && forall m :: m in r.table && !Stays(m, 2) ==> m.key != "/dev_bdvd")
  }

  lemma CleanUp(r: MapRun)
    ensures CleanedUp(r, Kept(r.table, FLAG_TABLE), r.bytes, ApphomeAfter(r.apphome, r.table, FLAG_TABLE))
  {
    SweepLeaves(r.table, 2);
    forall m | m in r.table
      ensures Removable(m, FLAG_TABLE) <==> !Stays(m, 2)
    {
      StaysIs(m, 2);
    }
    hide Left, Removable, Stays, Kept;
  }

  lemma PickedMembers(t: seq<Mapping>, mask: Flags, u: seq<Mapping>, ks: seq<nat>, m: Mapping)
    requires Picks(t, mask, u, ks) && m in u
    ensures m in t && Stays(m, mask)
  {
    hide Stays;
    var i: nat :| i < |u| && u[i] == m;
    assert t[ks[i]] == m;
  }

  lemma KeptMembers(t: seq<Mapping>, mask: Flags, u: seq<Mapping>, ks: seq<nat>, m: Mapping)
    requires Picks(t, mask, u, ks) && Complete(t, mask, ks) && m in t && Stays(m, mask)
    ensures m in u
  {
    hide Stays;
    var k: nat :| k < |t| && t[k] == m;
    assert k in ks;
    var i: nat :| i < |ks| && ks[i] == k;
    assert u[i] == m;
  }

  lemma LeftMembers(t: seq<Mapping>, mask: Flags, u: seq<Mapping>, m: Mapping)
    requires Left(t, mask, u)
    ensures m in u <==> m in t && Stays(m, mask)
  {
    var ks :| LeftAt(t, mask, u, ks);
    hide Stays, Picks, Complete, Rising;
    if m in u {
      PickedMembers(t, mask, u, ks, m);
    } else if m in t && Stays(m, mask) {
      KeptMembers(t, mask, u, ks, m);
    }
  }

  lemma TableStays(m: Mapping)
    ensures Stays(m, 2) <==> m.flags & 2 == 0 || m.flags & 4 != 0
  {
  }

  /** No table entry is left unless it is protected, and everything else is. */
  lemma CleanTable(r: MapRun, t: seq<Mapping>, bytes: nat, app: bool)
    requires CleanedUp(r, t, bytes, app)
    ensures forall m :: m in t && m.flags & 2 != 0 ==> m.flags & 4 != 0
    ensures forall m :: m in t <==> m in r.table && (m.flags & 2 == 0 || m.flags & 4 != 0)
  {
    hide Left, Stays;
    forall m: Mapping
      ensures m in t <==> m in r.table && (m.flags & 2 == 0 || m.flags & 4 != 0)
    {
      LeftMembers(r.table, 2, t, m);
      TableStays(m);
    }
  }
}
