# Verified models of the payload's arithmetic, path mapping, disc emulation and printing

This project models four parts of the PS3HEN payload and proves properties of them.

1. **Signing arithmetic** (`payload/qa.h`): big-endian byte arrays with carry and borrow loops, Montgomery
   multiplication driven by a table of inverses modulo 256, square-and-multiply, inversion by Fermat's theorem, the
   affine curve law, scalar multiplication and ECDSA signing. The methods work in place on arrays, with the aliasing
   the code relies on, and are proved against values modulo N, the curve law of SEC 1 section 2.2.1 and the signature
   equation of FIPS 186-4 section 6.4.
   Files: `ModArith`, `Bignum`, `Montgomery`, `Curve`, `Ecdsa`.
2. **Path mapping** (`payload/mappath.c`): the linked list with insertion, update and deletion, ownership of copied
   keys, the byte budget, and the recursive lookup that rewrites a path through a chain of entries. The class
   `MapTable` works on linked nodes with character buffers; `PathSpec` says on plain lists what one operation
   computes, `PathLaws` what that means in characters, flag bits and byte counts, `PathRuns` what runs of operations
   and lookups do to the list, the counter and the lookup globals.
3. **Disc images** (`payload/storage_ext.c`, `payload/scsi.h`): the split-file reader, the raw CD reader with its
   window of 64 sectors, track tables and addresses, and the mount machine.
   Files: `DiscImage`, `DiscIso`, `DiscCd`, `Tracks`, `Mount`.
4. **Printing and parsing** (`debug/src/printf.c`, `lv2/src/libc_c.c`): the seven-state format interpreter with its
   truncating writes, integer and string formatting, and `strtoull`. The references are sections 7.19.6.1, 7.19.6.5
   and 7.20.1.4 of C99. `FormatSpec` gives the printed text by directives and `Directives` what each of them shows,
   `Printer` is the interpreter over a buffer, `Strtoull` the parser and the round trip between the two.

`dafny verify dfyconfig.toml` checks everything. In the proofs, `hide` keeps definitions a step does not need out of
the solver's sight, and many small lemmas hand single facts to such steps. `Common` holds the types and constants that
several modules share.

## What the proofs found

Each of these is a behaviour of the code that the model keeps, with a lemma or a contract that shows it.

- `bn_to_mon` needs a reduced argument. For every odd N that leaves two bits of its length free, N itself comes out
  unreduced and N + 1 comes out as zero (`Ecdsa.ToMonNeedsReduced`). The statement goes one way only, because other
  unreduced numbers come out right by chance (`Ecdsa.UnreducedByChance`). The signer reduces hash and key first, but
  not the x-coordinate. Montgomery multiplication and addition keep residues even so (`Montgomery.BnMonMul`,
  `Bignum.AddWordCong`), and the signature equation holds for the R that is returned, whatever the x-coordinate; but
  that R is the x-coordinate if and only if it is below N, for an order of the built-in size
  (`Ecdsa.Domain.GenerateEcdsa`). The zero nonce is not excluded and signs as (0, 0).
- The encoding of infinity as (0, 0) is ambiguous exactly on curves whose b is divisible by p
  (`Curve.InfinityIsNoPoint`), and there every chord through (0, 0) is answered wrongly (`Curve.AmbiguousInfinity`).
  The built-in curve is not one of them (`Ecdsa.FixedCurve`).
- A mapping target given with the `/./` token is recorded two characters longer than it is stored, so the rest of
  every path rewritten by it is lost (`PathSpec.RestSurvives`, `PathSpec.TokenLosesSuffix`).
- A key that is not in canonical form, or has at most 6 characters, is stored but not found again by `getMapping`, so
  `map_path` can neither update nor remove such an entry, but stores another one (`PathSpec.InsertedIsFound`,
  `PathSpec.RemovedThroughMapPath`, exactly; `PathSpec.ShortKeysRepeat`, `PathSpec.MiscountedKeyIsDead`).
  `deleteMapping` itself would take a short key out, but `addMapping`, its only caller, asks `getMapping` first
  (`PathSpec.DeletedByKey`).
- The byte counter never falls. It is exact after a run if and only if no operation of the run removed an entry or ran
  out of memory (`PathRuns.RunKeepsBudget`, `PathRuns.CounterExact`); an insertion whose first allocation fails leaves
  48 bytes counted for nothing (`PathRuns.FailureLeaks`). Once it is within 1104 bytes of the limit the table never
  grows again, even when it is emptied (`PathRuns.FullForGood`).
- A lookup that cannot allocate a temporary buffer leaves `found` and `count` for the next one. Recorded entries are
  skipped, which changes the chain of rewrites exactly when one of them is on it (`PathRuns.ChainUnaffected`). When the
  first allocation failed, a lookup that finds nothing does not clear the record (`PathRuns.FirstFailure`, exactly).
  When a later one failed, the next path that nothing maps is sent into the pending entry's target, unless it starts
  with that target (`PathRuns.UnmappedPath`, exactly; `PathRuns.StrayPath`); and if the pending entry has been deleted
  by then, that lookup writes through the freed entry (`PathRuns.FoundDeleted`).
- The app-home flag follows the request to map `/dev_bdvd`, whether or not it succeeds
  (`PathTable.MapTable.MapPath`).
- The window of the raw CD reader is compared by a 32-bit difference; a window left near sector 2^32 by a read past
  the end answers a request near sector 0 with other sectors (`DiscCd.WrappedAnswer`; `DiscCd.WrapExample` shows it on
  a fresh drive for every raw image whose first sector is not all zeros).
- A drive starts with the window number 0x80000000 and an unfilled window. A request from sector 0 on then negates
  -2^31, which C leaves undefined, and a small request that reaches into the 64 sectors from 2^31 on is answered from
  the unfilled window (`DiscCd.FreshDrive`, both exactly; `DiscCd.UnknownWindow`).
- When a refill of the window fails, a read error leaves the window with its old number and unknown contents; and for
  a request from user space the page is freed and used again. An empty request from user space outside the window
  frees it too (`DiscCd.CdDrive.ProcessReadCdIso2352Cmd`, exactly).
- A large kernel request multiplies two 32-bit numbers: it is read whole if and only if it has less than 2^32 bytes
  (`DiscCd.KernelBytes`, `DiscCd.CdDrive.ReadDirect`).
- The 2048-byte reader copies from offset 24 of each raw sector, so its copies stay inside its buffer if and only if a
  sector holds at least 2072 bytes (`DiscCd.CopiesStayInside`). Of the seven sector sizes only 2048 does not: there the
  last copy runs 24 bytes past the buffer (`DiscCd.OnlyCookedOverruns`), and each block is the end of one sector and
  the front of the next (`DiscCd.CopiedBytes`).
- When a CD image can be stat'ed but not opened, `mount_ps_cd` fails but leaves its object allocated
  (`Mount.Engine.MountPsxDiscfile` and `Mount.Engine.MountPs2Discfile` state the exact condition).
- With a `.lsd` or `.sbi` file beside a 2352-byte image the sector count is computed from that file's size
  (`Mount.CountedFromImage`, exactly; `Mount.CompanionEmptiesDisc`).
- The base offset of a refused mount stays in force (`Mount.Engine.MountCommon` gives it after every outcome), and a CD
  mount of an image without a leading picture uses it: right if and only if it is 0. `Mount.StaleOffset` is such a run.
- `get_cd_sector_size` runs before the test for a disc already mounted (storage_ext.c:4083 and 4099), so a refused proxy
  mount changes the sector size under a mounted CD. That is the only operation that breaks the agreement between the
  two, and exactly when the sizes differ (`Mount.Engine.MountProxy`, `Mount.Engine.Run`); a larger size makes the
  window too small for its 64 sectors (`Mount.StaleSize`).
- Track sizes add up to the disc if and only if every track starts no later than it ends; each that does not adds 2^32
  (`Tracks.SizesFillExactly`, `Tracks.SizeWraps`).
- READ CD dereferences a null pointer at the first sector outside all tracks (`Tracks.ReadCdQ`,
  `Tracks.AllSectorsHeld`).
- Grouping swallows zeros that the precision or a `#` octal number asked for, by an exactly known number
  (`FormatSpec.FmtIntGroupedLength`). A character is padded as asked if and only if its width is at most 1
  (`FormatSpec.CharIgnoresWidth`). Without grouping an integer is printed as C99 has it unless number and precision are
  both 0 (`FormatSpec.ZeroPrecisionZero`, exactly). Behind a `0x` prefix `strtoull` reads a number if and only if a
  hexadecimal digit follows (`Strtoull.BarePrefix`).

## Model

| member | source | states |
|---|---|---|
| Bignum.BnCompare | payload/qa.h:63-75 | the sign of the difference of the two numbers, for any length |
| Bignum.BnAdd1 | payload/qa.h:77-91 | sum plus carry times 256^n is the exact sum of the operands, also when the result is written over an operand |
| Bignum.BnSub1 | payload/qa.h:93-107 | difference modulo 256^n with the borrow that makes it exact, also when aliased |
| Bignum.BnReduce | payload/qa.h:109-113 | one conditional subtraction of N |
| Bignum.BnAdd | payload/qa.h:115-121 | the stored value for all operands, reduced or not |
| Bignum.BnSub | payload/qa.h:123-127 | the stored value for all operands, reduced or not |
| Bignum.AddWordIsModular | payload/qa.h:115-121 | on reduced operands bn_add is addition modulo N |
| Bignum.AddWordCong | payload/qa.h:115-121 | with one operand reduced it keeps the residue of the sum within n bytes |
| Bignum.SubWordIsModular | payload/qa.h:123-127 | on reduced operands bn_sub is subtraction modulo N |
| Montgomery.Inv256 | payload/qa.h:129-146 | every one of the 128 table entries is the inverse of its odd number modulo 256 |
| Montgomery.LowDigitVanishes | payload/qa.h:148-155 | the multiple of N chosen from the table makes the low digit divisible by 256 |
| Montgomery.BnMonMulAddDig | payload/qa.h:148-171 | one digit step stores the exact sum divided by 256, less N at most twice, for any operands; it divides by 256 modulo N, and stays below N on reduced operands |
| Montgomery.BnMonMul | payload/qa.h:173-184 | d * 256^n congruent to a * b modulo odd N for any a and b, d aliasing a or b; d < N when a < N, or when b is 1 and N at least 256^n / 512 |
| Montgomery.DecMul | payload/qa.h:173-184 | on Montgomery forms bn_mon_mul is multiplication of residues |
| Montgomery.DecLinear | payload/qa.h:115-127 | on Montgomery forms bn_add and bn_sub are addition and subtraction of residues |
| Montgomery.DecEnc | payload/qa.h:186-201 | leaving Montgomery form undoes entering it |
| Montgomery.DecInjective | payload/qa.h:186-201 | two reduced numbers with the same residue are equal |
| Montgomery.DoubledIsModular | payload/qa.h:186-192 | repeated bn_add doublings multiply a reduced number by a power of two modulo N |
| Montgomery.BnToMon | payload/qa.h:186-192 | enters Montgomery form on reduced arguments, and what happens to any other |
| Montgomery.DecOfCong | payload/qa.h:194-201 | what a number stands for depends only on its residue |
| Montgomery.BnFromMon | payload/qa.h:194-201 | a number congruent to the residue that d stands for; that residue itself when d is reduced or N at least 256^n / 512 |
| Montgomery.BnMonExp | payload/qa.h:203-221 | the Montgomery form of the power, for any base and exponent bytes of any length |
| Montgomery.BnMonInv | payload/qa.h:264-272 | the Montgomery form of the power N - 2 |
| Montgomery.PowerInverts | payload/qa.h:264-272 | for an odd prime N that power is the inverse of a unit, and zero for zero |
| ModArith.Fermat | payload/qa.h:264-272 | a^(p-2) * a is 1 modulo a prime p that does not divide a |
| Curve.DoubleIsSum | payload/qa.h:304-337 | the doubling formula satisfies the law of SEC 1 section 2.2.1 on every point of the curve, (0, 0) standing for infinity |
| Curve.AddIsSum | payload/qa.h:339-390 | the addition formula satisfies that law in all five cases |
| Curve.InfinityIsNoPoint | payload/qa.h:292-302 | (0, 0) is also an affine point of the curve if and only if p divides b |
| Curve.AmbiguousInfinity | payload/qa.h:339-355 | on such a curve the formula's answer for (0, 0) and any point off the line x = 0 is on no line through both |
| Curve.SumOnCurve | payload/qa.h:304-390 | whatever satisfies the law lies on the curve again |
| Curve.AddOnCurve | payload/qa.h:304-390 | sums and doubles of curve points are curve points with reduced coordinates |
| Curve.SumUnique | payload/qa.h:304-390 | the law determines the sum |
| Curve.AddCommutes | payload/qa.h:339-390 | addition commutes on the whole curve |
| Curve.MultipleOnCurve | payload/qa.h:392-405 | every multiple of a curve point is on the curve |
| Curve.MultipleStep | payload/qa.h:392-405 | appending a bit to the scalar doubles, and adds the point when the bit is set |
| Curve.MultipleIsSum | payload/qa.h:392-405 | the first multiple is the point; by the law of SEC 1, twice a multiple is its sum with itself, and the next one its sum with the point |
| Ecdsa.Domain.constructor | payload/qa.h:448-468 | setting the curve stores coefficients and base point as the Montgomery forms of the given numbers |
| Ecdsa.Domain.EltAdd | payload/qa.h:244-247 | sum of field elements, result canonical, aliasing allowed |
| Ecdsa.Domain.EltSub | payload/qa.h:249-252 | difference of field elements |
| Ecdsa.Domain.EltMul | payload/qa.h:254-257 | product of field elements |
| Ecdsa.Domain.EltInv | payload/qa.h:274-279 | inverse of a field element by Fermat's theorem |
| Ecdsa.Domain.PointDouble | payload/qa.h:304-337 | the double of the point the argument held before, also in place |
| Ecdsa.Domain.PointAdd | payload/qa.h:339-390 | the sum of the points the arguments held before, with the result over either of them |
| Ecdsa.Domain.PointMul | payload/qa.h:392-405 | the multiple by the 21-byte scalar |
| Ecdsa.Domain.PointFromMon | payload/qa.h:287-291 | the coordinates become the residues themselves |
| Ecdsa.Domain.NoncePoint | payload/qa.h:425-429 | R is the x-coordinate of the nonce times the base point |
| Ecdsa.Domain.SolveForS | payload/qa.h:439-445 | S below N and S * m congruent to e + R * k, from Montgomery forms to a plain residue, also for an unreduced R |
| Ecdsa.ReturnedReduced | payload/qa.h:431-446 | what R becomes for an x-coordinate: a residue, the x-coordinate itself when that is below N |
| Ecdsa.Domain.GenerateEcdsa | payload/qa.h:407-446 | S below N and S * m congruent to hash + R * key modulo N for every nonzero nonce below N and any x-coordinate; R as above, so for the sizes of the built-in curve it is the x-coordinate exactly when that is below N |
| Ecdsa.ToMonNeedsReduced | payload/qa.h:186-192 | for every odd N below a quarter of 256^n bn_to_mon leaves N as it is and turns N + 1 into 0, neither being its Montgomery form |
| Ecdsa.UnreducedByChance | payload/qa.h:186-192 | an unreduced number that comes out right, so that being reduced is not necessary |
| Ecdsa.FixedCurve | payload/qa.h:2-18 | the built-in base point is on the built-in curve, (0, 0) is not, any hash and the built-in key are below 2N, and the size conditions of the theorems above hold |
| PathSpec.ChainBound | payload/mappath.c:281-333 | a chain of rewrites is no longer than the number of unused entries |
| PathSpec.ChainAtMostTable | payload/mappath.c:271-381 | a lookup applies at most as many entries as the table has, on cyclic tables too |
| PathSpec.ChainExhausts | payload/mappath.c:281-362 | the chain stops exactly where no unused entry applies |
| PathSpec.ResolveExact | payload/mappath.c:271-381 | a lookup finds nothing if and only if no entry applies, and leaves a path that no unused entry applies to |
| PathSpec.PriorityFirst | payload/mappath.c:281-305 | an applicable entry of maximal priority wins, in list order |
| PathLaws.SlotOrder | payload/mappath.c:281-333 | an entry is chosen if and only if it is unused and maps the path, no unused one with the priority bit before it does, and, when it has no such bit, no unused entry before it and none with the bit anywhere; none is chosen if and only if no unused entry maps the path or that has at most 6 characters |
| PathLaws.LookupTrace | payload/mappath.c:271-381 | a lookup is the one way of going on with the next entry in slot order, each time to the target with the rest of the path behind it if that fits, until there is none |
| PathLaws.TraceExists | payload/mappath.c:271-381 | every lookup, on every table, is such a sequence of steps |
| PathSpec.CyclicMap | payload/mappath.c:281-362 | two entries that map to each other give the original path back |
| PathSpec.RestSurvives | payload/mappath.c:107-118 | the rest of the path survives a rewrite if and only if there was no token and it fits |
| PathSpec.TokenLosesSuffix | payload/mappath.c:111-118 | a concrete mapping with the token that drops the rest of the path |
| PathSpec.MiscountedKeyIsDead | payload/mappath.c:119-130 | an entry whose recorded key length is not its key's length matches no path |
| PathSpec.InsertedIsFound | payload/mappath.c:252-269 | getMapping finds a new entry if and only if the key is canonical and longer than 6 characters |
| PathSpec.RemovedThroughMapPath | payload/mappath.c:131-153 | if and only if so, addMapping without a new path takes it out again, and with one it updates it; otherwise it goes on to insert a second entry |
| PathSpec.DeletedByKey | payload/mappath.c:479-535 | deleteMapping takes a new entry out if and only if its recorded key length is right, however short the key |
| PathLaws.DeleteReturns | payload/mappath.c:479-535 | EINVAL for an empty table or a path outside the mount points, ESRCH for an absent key, EPERM for a protected entry, and otherwise the first entry with the key is taken out of its place |
| PathSpec.ShortKeysRepeat | payload/mappath.c:252-269 | a key of 6 characters is stored twice |
| PathLaws.KeyIs | payload/mappath.c:119-130 | the key of a path longer than 6 characters is its rest from the first slash on that no slash or dot follows, none if there is no such slash |
| PathLaws.FirstKeyedIs | payload/mappath.c:252-269 | getMapping finds the first entry whose key begins with the one asked for and has its recorded length, and no short one |
| PathLaws.MappingStored | payload/mappath.c:107-215 | a mapping appends an entry with the key the path names, or updates the first entry with that key; the target is the new path, without its first two characters if a token /./ asked for protection; the protection bit is set exactly if token or flags ask for it, the copy bit stays on an update, every other bit is as asked, and no other entry changes |
| PathLaws.ProtectionHolds | payload/mappath.c:107-535 | an entry that asked for protection either way survives every deletion by key and every sweep |
| PathLaws.FoundReturns | payload/mappath.c:131-153 | with a key that is there: an update for new paths of 7 to 1055 characters, otherwise a deletion or EPERM for a protected entry; the counter stays |
| PathLaws.NewReturns | payload/mappath.c:155-227 | with a new key: EAGAIN if the 0x80000 bytes do not suffice, EINVAL for 1056 characters or more, ENOMEM for each allocation that fails with the exact bytes it leaves counted, otherwise success with 48 + 1056 bytes and the copied key counted |
| PathLaws.NothingAdded | payload/mappath.c:226-249 | nothing changes for a path without key or outside the mount points, nor when an absent key is to be removed |
| PathSpec.AddKeepsOrder | payload/mappath.c:107-249 | addMapping keeps the keys in order, drops one unprotected entry, or appends one |
| PathSpec.AddKeepsBudget | payload/mappath.c:155-227 | the byte counter never shrinks and never passes the limit, whichever allocations fail |
| PathRuns.RunKeepsBudget | payload/mappath.c:107-535 | over every run the counter grows, stays within the limit and covers the bytes held; its excess stays the same if and only if no operation removed an entry or ran out of memory |
| PathRuns.CounterExact | payload/mappath.c:155-227 | from the empty table the counter is exact after a run if and only if there was no such operation |
| PathRuns.StepCounts | payload/mappath.c:155-227 | the same for one operation |
| PathRuns.FailureLeaks | payload/mappath.c:164-172 | an insertion into the empty table that leaves 48 bytes counted and none held |
| PathRuns.FullForGood | payload/mappath.c:155-157 | once the counter has no room for an entry the table never grows again, in any run |
| PathRuns.ChainUnaffected | payload/mappath.c:286-326 | leftover records change the chain of rewrites if and only if one of its entries is among them |
| PathRuns.LookupResolves | payload/mappath.c:271-381 | a lookup from any state opens what one from an idle state does when no entry of its chain is recorded, memory suffices, and nothing is pending for an empty chain |
| PathRuns.SamePathByChance | payload/mappath.c:286-326 | a state where the converse fails |
| PathRuns.UnmappedPath | payload/mappath.c:367-378 | a path that nothing maps is left alone if and only if nothing is pending or it starts with the pending target |
| PathRuns.StrayPath | payload/mappath.c:367-378 | a run in which an unrelated path is sent into the pending target |
| PathRuns.FirstFailure | payload/mappath.c:335-378 | after a first allocation that failed one entry is recorded and found is null; a later lookup changes that if and only if another entry applies |
| PathRuns.FailedLookup | payload/mappath.c:335-366 | a lookup that can make only n temporary buffers records the first n + 1 entries of its chain, leaves found at the n-th, and opens the path as given |
| PathRuns.FoundDeleted | payload/mappath.c:367-375 | once the pending entry is deleted, a lookup that no entry applies to uses the freed entry |
| PathRuns.RoomInTable | payload/mappath.c:300-331 | records and chain together never exceed the table, as long as no recorded entry was removed |
| PathRuns.HealthyRunsAreSafe | payload/mappath.c:271-381 | with at most 32 entries and enough memory every lookup of every run is safe and leaves the globals idle |
| PathSpec.AddThenDelete | payload/mappath.c:107-249 | deleting a mapping just added gives the table back, unless it protects itself |
| PathSpec.ProtectedSurvives | payload/mappath.c:415-535 | neither delete function removes a protected entry |
| PathSpec.KeptExactly | payload/mappath.c:415-477 | exactly the protected or unmatched entries are kept, and deleting twice changes nothing more |
| PathLaws.SweepLeaves | payload/mappath.c:415-477 | at rising places of the old table, exactly the entries with the protection bit or without any of the bits asked for |
| PathSpec.NoTableEntryLeft | payload/mappath.c:415-477 | a sweep for table entries, which sys_map_paths makes after a failure, leaves only protected ones |
| PathLaws.UserReturns | payload/mappath.c:680-742 | one pair from user space: -1 without a path, the fault of either string with nothing changed, otherwise addMapping with the copy bit, without a new path if both are equal; the app-home flag becomes whether /dev_bdvd is mapped |
| PathLaws.MapLast | payload/mappath.c:795-803 | one pair more is mapped in the state the others leave, unless one of them failed |
| PathLaws.PairsInOrder | payload/mappath.c:795-803 | the loop fails if and only if some pair is the first that cannot be mapped after those before it, and stops there |
| PathLaws.CleanTable | payload/mappath.c:806-812 | after the clean-up exactly the entries without the table bit or with the protection bit are left |
| PathTable.MapTable.constructor | payload/mappath.c:40-72 | the empty table is valid and the lookup globals are reset |
| PathTable.MapTable.GetMapping | payload/mappath.c:252-269 | the first entry with the key, none for keys of at most 6 characters |
| PathTable.MapTable.AddMapping | payload/mappath.c:107-249 | result code, table, list nodes and byte counter for every argument and every pattern of allocation failures; list shape, distinct keys, ownership and budget are kept |
| PathTable.MapTable.DeleteMapping | payload/mappath.c:479-535 | the entry with the key is unlinked and its blocks are freed once, with the code for each refusal |
| PathTable.MapTable.DeleteAllMappings | payload/mappath.c:415-477 | the list becomes, in place and in order, what is protected or does not match |
| PathTable.MapTable.MapPath | payload/mappath.c:680-706 | mapping a path to itself removes it; the app-home condition follows /dev_bdvd |
| PathTable.MapTable.MapPathUser2 | payload/mappath.c:708-742 | the error code of an unreadable argument with nothing changed, or map_path's own code with its table, counter and app-home flag |
| PathTable.MapTable.MapPathUser | payload/mappath.c:744-747 | success exactly when that code is 0, with the same table, counter and app-home flag |
| PathTable.MapTable.SysMapPaths | payload/mappath.c:781-814 | it fails if and only if some pair cannot be mapped where the pairs before it left the table; then the entries left are, in their order, those of that moment without the table bit or with the protection bit, and no others; otherwise all pairs were mapped in order; counter and app-home flag in every case |
| PathTable.MapTable.Run | payload/mappath.c:107-535 | over every run of operations and lookups, whichever allocations fail, as long as the lookups are safe: the list is acyclic with distinct keys, blocks are owned once and freed once, counted bytes cover held bytes, table, counter and lookup globals are those of the value-level run, and so is every path opened |
| PathTable.MapTable.Scan | payload/mappath.c:281-333 | one pass over the list returns the first eligible unused entry |
| PathTable.MapTable.SelectEntry | payload/mappath.c:276-334 | the priority pass, then the general one: the entry that `PathLaws.SlotOrder` says |
| PathTable.MapTable.BuildTmp | payload/mappath.c:337-349 | the temporary buffer holds the rewritten path |
| PathTable.MapTable.WriteBack | payload/mappath.c:369-375 | the rest of the path goes behind the target, whose first characters stay as they were |
| PathTable.MapTable.FindMapping | payload/mappath.c:271-381 | from any globals refines the chain of rewrites: last entry applied, its buffer holding the rewritten path, every target and the table unchanged, the globals reset; and what found and mcount hold when an allocation fails |
| PathTable.MapTable.TableHolds | payload/mappath.c:155-227 | in every valid table the bytes the counter theorems speak of are those in the blocks of the list |
| PathTable.MapTable.TargetsMeasured | payload/mappath.c:107-249 | in every valid table no target is longer than the length recorded for it, which the exact condition for unmapped paths asks |
| PathTable.MapTable.OpenPath | payload/mappath.c:941-957 | from any state in which the lookup is safe, the path opened and the state left are those of the value-level lookup |
| DiscIso.IsoDrive.GetNextRead | payload/storage_ext.c:338-368 | the part that holds an offset and how much of the request it holds, equal to that slice of the joined image |
| DiscIso.PartInImage | payload/storage_ext.c:338-368 | a slice of the joined image inside one part is a slice of that part's file |
| DiscIso.IsoDrive.ReadPart | payload/storage_ext.c:440-525 | switching parts, seeking and reading leaves the descriptor on the active part, right behind what was read |
| DiscIso.IsoDrive.ReadLoop | payload/storage_ext.c:432-546 | the read loop fills the caller's buffer with the slice, whatever the bounce buffer's size |
| DiscIso.IsoDrive.ProcessReadIsoCmd | payload/storage_ext.c:370-581 | success means the buffer holds the zero-extended slice; the open descriptor belongs to the active part and the cached sector equals the image, also after failures |
| DiscIso.IsoDrive.ServeReads | payload/storage_ext.c:370-581 | every run of reads returns what reading the joined image directly would |
| DiscCd.CdDrive.constructor | payload/storage_ext.c:3725-3741 | a fresh drive has the marker as its window number, a window of unknown contents, and counts the sectors of the file |
| DiscCd.CdDrive.FillSectors | payload/storage_ext.c:788-819 | sectors read with zeros for what is missing, where the file position ends up, and what failures leave untouched |
| DiscCd.CdDrive.ReuseWindow | payload/storage_ext.c:694-746 | the overlapping sectors are copied from the window to their place in the request, at its front, back, inside or not at all |
| DiscCd.CdDrive.ProcessReadCdIso2352Cmd | payload/storage_ext.c:672-854 | on success the buffer holds the answer, from whatever the window held, and a refilled window equals the 64 image sectors it claims; on failure and for an empty request, exactly when the window's page and contents survive |
| DiscCd.AnswerIsImage | payload/storage_ext.c:694-746 | the answer is the image's own sectors whenever the 32-bit difference does not wrap and nothing is reused from a window that does not hold the image's |
| DiscCd.UnknownWindow | payload/storage_ext.c:694-746 | with unknown window contents that is certain if and only if nothing is reused |
| DiscCd.FreshDrive | payload/storage_ext.c:694-746 | a fresh drive negates -2^31 exactly on a request from sector 0, and reuses its unfilled window exactly on small requests reaching into the 64 sectors from 2^31 on |
| DiscCd.WrappedAnswer | payload/storage_ext.c:696-746 | when it wraps, the answer is right if and only if the sectors 2^32 further on happen to be equal |
| DiscCd.WrapExample | payload/storage_ext.c:696-720 | on a fresh drive with any raw image whose first sector is not all zeros, a read past the end and then one of sector 0 that is answered wrongly |
| DiscCd.KernelBytes | payload/storage_ext.c:807-831 | the 32-bit size of a kernel read is the whole size if and only if that is below 2^32 |
| DiscCd.CdDrive.ReadDirect | payload/storage_ext.c:754-848 | the large-request path fills the buffer in one read of that many bytes, or through a bounce buffer of 128 sectors |
| DiscCd.CdDrive.ServeRawReads | payload/storage_ext.c:672-854 | every run of raw reads in which the difference neither wraps nor is -2^31, no unfilled window is reused and no size wraps returns the image's sectors |
| DiscCd.LowRunsAreStraight | payload/storage_ext.c:694-720 | so do all runs below sector 2^31, from a fresh drive too unless it is asked for sector 0 where ABS wraps |
| DiscCd.CdDrive.ProcessReadCdIso2048Cmd | payload/storage_ext.c:583-670 | for every sector size, which bytes of which sector each block holds as far as the buffer goes; the user data in order when sectors have at least 2072 bytes |
| DiscCd.CopiesStayInside | payload/storage_ext.c:609-666 | all copies stay inside the read buffer if and only if a sector has at least 2072 bytes |
| DiscCd.OnlyCookedOverruns | payload/storage_ext.c:1136-1149 | of the seven sizes only 2048 overruns, by 24 bytes |
| DiscCd.CopiedBytes | payload/storage_ext.c:609-666 | the copied bytes lie in the requested sector, or for size 2048 in it and the next |
| DiscCd.SureOfAll | payload/storage_ext.c:609-666 | every byte delivered is one of the image if and only if a sector has at least 2072 bytes |
| DiscCd.DeliveredIsPayload | payload/storage_ext.c:609-666 | then the blocks delivered are the user data |
| DiscCd.PayloadSplit | payload/storage_ext.c:609-666 | user data of consecutive requests join up, so the chunk size does not matter |
| Tracks.BcdRoundTrip | payload/scsi.h:54-55 | the BCD code is undone below 160 and loses 160 above |
| Tracks.DecimalCode | payload/scsi.h:54-55 | the code of a number is its two decimal digits if and only if it is below 100 |
| Tracks.AddressDigits | payload/scsi.h:312-331 | an address is encoded as the decimal digits of its minute, second and frame if and only if it is below sector 450000 |
| Tracks.MsfDecodes | payload/scsi.h:312-331 | what any encoded address decodes to |
| Tracks.MsfRoundTrip | payload/scsi.h:312-331 | decoding undoes encoding modulo 2^16 if and only if the minutes fit, in particular below sector 720000 |
| Tracks.FindTrackByLba | payload/storage_ext.c:2104-2144 | the first track that holds the sector, none if there is none, for any table |
| Tracks.UniqueTrack | payload/storage_ext.c:2104-2144 | in an ascending table no sector lies in two tracks |
| Tracks.TracksCover | payload/storage_ext.c:2104-2144 | a sector lies in a track if and only if it is between the first start and the lead-out |
| Tracks.SizeMatchesLookup | payload/storage_ext.c:2331-2395 | a track holds exactly the sectors that its reported size counts |
| Tracks.SizesFillDisc | payload/storage_ext.c:2331-2395 | in an ascending table the reported sizes add up to the lead-out minus the first start |
| Tracks.SizesFillExactly | payload/storage_ext.c:2360-2385 | for any 32-bit starts they do if and only if every track starts no later than it ends; each that does not adds 2^32 |
| Tracks.SizeWraps | payload/storage_ext.c:2360-2385 | with starts out of order a size wraps around |
| Tracks.TocAgreesWithSizes | payload/storage_ext.c:2304-2390 | each reported size is the distance between neighbouring entries of the table of contents |
| Tracks.ReadCdQ | payload/storage_ext.c:2551-2612 | for any table one record per sector, each of the first track that holds it, up to the first sector that no track holds; below minute 100 each record has the decimal digits of minute, second and frame of the sector 150 further on, and with user data those of the sector itself |
| Tracks.AllSectorsHeld | payload/storage_ext.c:2551-2612 | in an ascending table all sectors of a request are held if and only if it lies between the first start and the lead-out |
| Tracks.RecordDecodes | payload/storage_ext.c:2594-2608 | a record decodes to the sector 150 further on, modulo 2^16, if and only if the minutes fit, in particular below sector 720000 |
| Mount.SectorSizePacked | payload/storage_ext.c:1136-1149 | each of the seven sizes is read back from a count packed as 256 s + n, and from 16 s + n if and only if 16 divides it |
| Mount.CountedFromImage | payload/storage_ext.c:3676-3730 | sectors are counted from the image's own size if and only if it is not of 2352-byte sectors, or has no companion file, or the one used is of equal size |
| Mount.CompanionEmptiesDisc | payload/storage_ext.c:3676-3730 | a disc has no sectors if and only if the file counted is smaller than one, which takes a companion file |
| Mount.MountedImage | payload/storage_ext.c:3509-3574 | the recorded sizes fit the files and add up to the joined image |
| Mount.MountResultIs | payload/storage_ext.c:3509-3574 | a mount succeeds if and only if the parts are in range, found and large enough and memory is there |
| Mount.MountRefused | payload/storage_ext.c:3509-3574 | which error a refused image gives: arguments first, then memory, then the first part that is missing or too small |
| Mount.OffsetsAre | payload/storage_ext.c:3509-3574 | the base offset is 65536 exactly for names that end with .PNG |
| Mount.SizesAre | payload/storage_ext.c:1136-1149 | the sector size is the two bytes above the track count, or 16 times them, if known, and 2352 otherwise; a raw image that opens is mounted with the one recognised in it |
| Mount.Ps2Accepted | payload/storage_ext.c:3765-3829 | a one-track PS2 image with a CD001 header is mounted as a disc file and succeeds exactly when its file is mountable; one without it or of several tracks as a raw CD, exactly for the sizes, names and counts accepted there |
| Mount.ProxyTypes | payload/storage_ext.c:4075-4081 | a proxy stands for emulation types 1, 4, 5 and 6 |
| Mount.Engine.CheckFilesAndAllocate | payload/storage_ext.c:3509-3574 | the result for every argument, the base offset in force afterwards, also after each failure, and on success the sizes and total less that offset |
| Mount.Engine.MountCommon | payload/storage_ext.c:3576-3589 | busy and unchanged when something is mounted; otherwise as above |
| Mount.Engine.MountPs3Discfile | payload/storage_ext.c:3591-3605 | result and base offset in every case; on success PS3 emulation with the recorded sizes |
| Mount.Engine.MountDvdDiscfile | payload/storage_ext.c:3607-3621 | likewise for DVD |
| Mount.Engine.MountBdDiscfile | payload/storage_ext.c:3623-3637 | likewise for BD |
| Mount.Engine.MountPsCd | payload/storage_ext.c:3639-3746 | when the object is made, from which file its sectors are counted, and which base offset is in force |
| Mount.Engine.MountPsxDiscfile | payload/storage_ext.c:3748-3763 | the one-live-object invariant survives if and only if the image is not stat'able yet unopenable |
| Mount.Engine.MountPs2Discfile | payload/storage_ext.c:3765-3837 | result for every argument; raw CD, cooked CD or DVD by track count and header, with object and base offset; the invariant survives if and only if no raw image is stat'able yet unopenable |
| Mount.Engine.MountProxy | payload/storage_ext.c:4060-4185 | accepted exactly for the calling process, type, tracks and ports it should be; the sector size it leaves, and exactly when that no longer is the mounted disc's |
| Mount.Engine.UmountDiscfile | payload/storage_ext.c:3453-3507 | every object is freed once and nothing is left allocated |
| Mount.Engine.Run | payload/storage_ext.c:3453-3857 | in every reachable state exactly one object is live when emulation is on and none when it is off, and the sector size is a known one, that of the disc unless a proxy mount set it |
| Mount.StaleOffset | payload/storage_ext.c:3509-3746 | a refused mount and then a CD mount that reads from the wrong offset |
| Mount.StaleSize | payload/storage_ext.c:4083-4103 | a CD mount and then a refused proxy mount after which 64 sectors of the size in force no longer fit the window |
| Mount.Engine.ReadIsoTarget | payload/storage_ext.c:1488-1502 | the object that serves a read is the live one |
| Mount.Engine.ReadCdTarget | payload/storage_ext.c:1508-1517 | likewise for raw reads |
| Mount.Engine.GetDeviceSize | payload/storage_ext.c:2715-2743 | the size query dereferences the live object only |
| Mount.Engine.NativePath | payload/storage_ext.c:2767-2782 | the raw and the 2048-byte command paths are taken exactly with their objects live |
| Mount.Engine.TocLeadOut | payload/storage_ext.c:2308-2322 | the lead-out on the chosen path |
| Mount.Engine.SizeAgreesWithToc | payload/storage_ext.c:2308-2743 | size query and table of contents report the same number of sectors |
| FormatSpec.DigitsDenote | debug/src/printf.c:956-970 | the printed digits denote the value and start with 0 only for zero |
| FormatSpec.ZerosInFront | debug/src/printf.c:918-923 | padding zeros do not change the value |
| FormatSpec.GroupFromRight | debug/src/printf.c:925-932 | a separator stands before each full group of three with digits in front of it |
| FormatSpec.GroupCounts | debug/src/printf.c:949-954 | exactly getnumsep separators appear |
| FormatSpec.GroupPlaces | debug/src/printf.c:925-932 | without the separators the digits are the same, and separators are exactly the fourth, eighth, twelfth character from the right and so on |
| FormatSpec.FmtIntLength | debug/src/printf.c:819-940 | the length is the width or sign, prefix and precision-extended digits, whichever is longer |
| FormatSpec.FmtIntGrouped | debug/src/printf.c:819-940 | with grouping and no precision exactly getnumsep separators are printed |
| FormatSpec.FmtIntGroupedLength | debug/src/printf.c:819-940 | the grouped length for every precision and flag: the length due less the zeros that grouping swallows, none exactly for at most three digits or no zeros asked |
| FormatSpec.CharIgnoresWidth | debug/src/printf.c:630-635 | a character is padded as asked if and only if the width is at most 1 |
| FormatSpec.ZeroPrecisionZero | debug/src/printf.c:845-846 | without grouping an integer is printed as C99 section 7.19.6.1 asks if and only if number and precision are not both 0, or it is an alternative octal |
| FormatSpec.LayoutDigits | debug/src/printf.c:819-940 | otherwise both have the same sign, prefix, zeros, digits and padding |
| Directives.DirectiveRead | debug/src/printf.c:325-484 | any flags in any order, a decimal width and precision and a length modifier are read as written, for every directive |
| Directives.CutOff | debug/src/printf.c:315-484 | a format that ends within a directive prints nothing for it |
| Directives.OneAfterAnother | debug/src/printf.c:486-756 | each directive prints its own text and leaves the next argument, or the same one, to the rest |
| Directives.PlainText | debug/src/printf.c:315-323 | characters outside directives stand for themselves |
| Directives.UnsignedShown | debug/src/printf.c:551-628 | u, o, x and X print the argument modulo 2^8, 2^16, 2^32 or 2^64, as the modifier says, in base 10, 8, 16 and 16, with upper-case letters for X only, at least the precision's digits, and spaces only up to the width and on the side the flag - says |
| Directives.UnsignedReadsBack | debug/src/printf.c:551-628 | strtoull reads them back as that number |
| Directives.SignedShown | debug/src/printf.c:490-549 | d and i print the two's-complement value: a minus exactly for negative ones, + or space as the flags ask, and the digits of the magnitude |
| Directives.SignedReadsBack | debug/src/printf.c:490-549 | strtoull reads them back modulo 2^64 |
| Directives.GroupedShown | debug/src/printf.c:490-628 | with the flag ' the same numbers in groups of three |
| Directives.UnsignedAsAsked | debug/src/printf.c:551-628 | the whole text is what C99 section 7.19.6.1 asks for if and only if number and precision are not both 0, or it is an alternative octal |
| Directives.SignedAsAsked | debug/src/printf.c:490-549 | likewise for d and i |
| Directives.StringShown | debug/src/printf.c:637-644 | s prints the string, or (null), cut to the precision and padded to the width |
| Directives.CharShown | debug/src/printf.c:630-754 | c prints the argument's lowest 8 bits, % itself, and an unknown conversion nothing |
| Directives.PointerShown | debug/src/printf.c:646-677 | p prints (nil), or the pointer in lower-case hexadecimal digits with its prefix |
| Directives.StarsRead | debug/src/printf.c:361-442 | width and precision from the arguments before the one printed; a negative width is its magnitude with the flag -, a negative precision none |
| Directives.TooLarge | debug/src/printf.c:361-442 | a width or precision above 2^31 - 1 ends the output there, as an error |
| Printer.OutChar | debug/src/printf.c:261-266 | one more character of the text, shown if it fits |
| Printer.ConvertDigits | debug/src/printf.c:956-970 | the digits in reverse order, within the conversion buffer for every 64-bit value |
| Printer.DigitsOf64 | debug/src/printf.c:210-218 | at most 22 digits in any base from 8 on |
| Printer.DigitLoop | debug/src/printf.c:925-932 | the digits, grouped when asked |
| Printer.FmtIntOut | debug/src/printf.c:819-940 | appends the specified integer text to the output |
| Printer.FmtStrOut | debug/src/printf.c:779-817 | appends the specified string text, null pointers and precision included |
| Printer.ConvertOut | debug/src/printf.c:486-756 | one conversion appends its text, as the theorems of Directives give it, and consumes its argument |
| Printer.ReadModifier | debug/src/printf.c:444-484 | the length modifiers |
| Printer.Interpret | debug/src/printf.c:274-765 | the seven-state loop prints the text of the format that the theorems of Directives speak of, for every format and arguments |
| Printer.Vsnprintf | debug/src/printf.c:274-777 | the terminated, truncated output and the return value |
| Printer.TruncationLaw | debug/src/printf.c:767-776 | the first min(length, s - 1) characters, a NUL, nothing else changed, nothing at all for s = 0 |
| Printer.TruncationAgrees | debug/src/printf.c:767-776 | a larger buffer shows no less, and one larger than the text shows all of it |
| Strtoull.CutoffExact | lv2/src/libc_c.c:98-121 | the cutoff test fires exactly when the number would leave 64 bits |
| Strtoull.Accumulate | lv2/src/libc_c.c:101-128 | the loop computes the number the digits denote, or overflows exactly when it does not fit |
| Strtoull.ReadHead | lv2/src/libc_c.c:70-96 | spaces, sign, prefix and base |
| Strtoull.StrToULL | lv2/src/libc_c.c:54-135 | value and end pointer, and the error values for a bad base and for overflow |
| Strtoull.Overflows | lv2/src/libc_c.c:114-119 | once a beginning is too large the whole number is |
| Strtoull.ParsePadded | lv2/src/libc_c.c:70-132 | a number among spaces is read back with the end just after its last digit |
| Strtoull.ParseSigned | lv2/src/libc_c.c:76-129 | behind a minus sign a number reads as its negative modulo 2^64, behind a plus sign as itself |
| Strtoull.ErrorValues | lv2/src/libc_c.c:62-119 | a number above 2^64 - 1 reads as 0xFFFFFFFF8001001C with endptr left alone, any text in a wrong base as 0xFFFFFFFF80010002 |
| Strtoull.BlanksIgnored | lv2/src/libc_c.c:70-75 | blanks of all six kinds in front change neither value nor error, and move the end by their number |
| Strtoull.PrintThenParse | lv2/src/libc_c.c:54-135 | what fmtint prints for o, u, x or X, at any width, precision and flags, reads back as the same number, in base 0 too with the number flag |
| Strtoull.BarePrefix | lv2/src/libc_c.c:89-94 | a number behind a prefix in base 0 or 16 is read as nothing if and only if no hexadecimal digit follows |

## Left out

- Ecdsa.Domain.GenerateEcdsa: takes the accepted nonce as a parameter; the retry loop over random bytes is not modelled.
- Associativity of the curve law, that N is the order of the base point, and signature verification, which the repository has only in a comment.
- That the built-in p and N are prime: primality is a hypothesis of the results about inversion.
- PathTable.MapTable.FindMapping: assumes a path that ends with a NUL inside its buffer and is not one of the table's own buffers.
- PathTable.MapTable.Run: as OpenPath, each lookup has to be safe in the state it meets.
- PathTable.MapTable.OpenPath: what happens in a lookup that is not safe, one that overruns the 32 slots of `mcount`, writes through a freed entry or reads behind the end of a path, is not said. A freed entry's address is assumed not to be given to a new entry while `mcount` or `found` still holds it.
- PathTable.MapTable.AddMapping: a key that is not copied is modelled as the caller's unchanging string; lifetime of user memory is not modelled.
- Locks in mappath.c: every operation is one atomic step. The other hooks in that file (photo viewer, copy root, path patching) and get_map_path.
- DiscIso.IsoDrive.ProcessReadIsoCmd: error codes of the file system are one value; decryption of images is left out, so an image is read as it is, and allocation of the cached sector succeeds.
- DiscCd.CdDrive.ProcessReadCdIso2352Cmd: assumes a last sector number below 2^32. `ABS` of -2^31 is undefined in C: a parameter of the drive says whether the compiled code takes the magnitude; where it does not, a window at that distance is excluded, for the code then copies from memory outside the window. `cache`, never set on the large path, counts as 0. Data behind the last whole sector is assumed not to exist. What a request that fails has already stored is not said.
- DiscCd.CdDrive.ProcessReadCdIso2048Cmd: assumes successful I/O. With sectors of 2048 bytes the copies run past the read buffer; the memory there is modelled as 24 + 2048 further bytes of unknown contents.
- What commands do with the freed page of a window: after it is lost nothing more is said of the drive.
- The proxy reader: it depends on a remote process and caches even after a failed reply.
- Tracks.ReadCdQ: the LibCrypt sub-channel file is not modelled, so every record is generated.
- Mount.Engine.MountPsCd: companion files are sizes only; detecting the sector size is an input, and allocation of the CD and proxy objects succeeds. Names have at least 4 characters, which the code does not check.
- Mount.Engine.Run: assumes that a file that can be stat'ed can be opened; video modes and total emulation are left out.
- Printer.Vsnprintf: the store that %n makes is left out, arguments are a tagged sequence in which a missing or mismatched one reads as 0 or null, a width argument of -2^31 counts as 2^31, and lengths near 2^31 do not overflow the int arithmetic of fmtint.
- The second copy of the printer in henplugin/printf.c is the same code.
- strstr and strncasecmp: they would add only easy members.
- Licence creation, key conversion, AES and SHA routines, hook installation, patch tables, syscalls, the lv1 payload, the plugin's user interface and the build tools: no specification in the files, or opaque calls.
