# Verified models of mandel

A Dafny model of the parts of mandel whose results depend on an algorithm that is easy to get subtly
wrong, with proofs of what those parts guarantee. `dafny verify dfyconfig.toml` checks everything.

| Dafny files | what they model |
|---|---|
| `ReflectionMatcher`, `NeedlessSwaps`, `ReflectionRecords`, `FieldLists` | the checker that compares `FC_REFLECT` macros with class definitions |
| `Braces`, `ScopeReader` | the recursive reader of C++ scopes that the checker starts from |
| `VariantDiff`, `VariantDiffExact`, `VariantDiffOrder`, `VariantPatch` | the structural diff of snapshot variants |
| `Dpos`, `DposSafety`, `DposIrreversible`, `DposSchedules`, `DposExample` | block confirmation, proposed and irreversible blocks, schedule promotion |
| `ForkTree`, `ForkChoice`, `ForkDatabase` | the fork database: the tree of blocks, its head, removing branches, advancing the root |
| `Merkle`, `MerkleMarks`, `IncrementalMerkle` | Merkle roots, at once and one leaf at a time, and what they say about the leaves |
| `Bits`, `SoftFloat`, `Widening`, `IntToFloat` | conversions between floating point and 128-bit integers |
| `NameSuffix` | the suffix of a packed account name |
| `Schedule` | the rotation of producers, and the loops that produce and copy blocks |
| `UndoLog` | the list of permissions with undo levels |
| `Collections` | options and elementary facts about lists and sets |

## Results

* The reflection checker accepts a record if and only if the two field lists correspond and no swap is
  declared for a field that is already in place; the whole chain from the macros in a file to the
  verdict on the file is proved (`ReflectionMatcher.AcceptsExactly`, `ReflectionRecords.FilePassesExactly`).
* The scope reader, for every outcome of its regular expressions, finds exactly the tree of brace
  pairs that counting finds, and fails to find an end exactly when counting finds none
  (`ScopeReader.Scope.Read`).
* The changes a diff reports, replayed on the left value, give the right value if and only if the right
  value has no null that is new (`VariantPatch.DiffIsPatch`). They come in the order of the left members,
  then of the new right ones, at every depth (`VariantDiffOrder.ChangesAreOrdered`).
* Over every run of block headers a proposed block is confirmed by a quorum of blocks, and the
  irreversible block is never ahead of it (`DposSafety.ProposedHasVotes`,
  `DposIrreversible.IrreversibleNeverAhead`). These come from as many different producers if and only if
  nobody confirms it twice (`DposSafety.VotesAreProducers`), and nobody does so in a run if and only if
  no header claims to confirm more blocks than there are, except a producer's first
  (`DposSafety.NobodyConfirmsTwice`). An irreversible block has such a quorum itself
  (`DposIrreversible.IrreversibleHasVotes`). Two branches that keep the active schedule can then propose
  conflicting blocks, or make them irreversible, only if more than a third of the producers confirmed
  both (`DposSafety.ConflictTakesAThird`, `DposIrreversible.ForksTakeAThird`).
* The proposed block is the highest of the last 1024 that has its votes (`DposSafety.ProposedIsHighest`).
  Whoever is active was announced in a block that had become irreversible, and a schedule that was
  announced becomes active before another one is accepted (`DposSchedules.ActiveWasAnnounced`,
  `DposSchedules.NoneIsReplaced`).
* The irreversible block moves back with a block if and only if a third or more of the producers lag
  behind it, and never does in a run whose promotions each leave fewer than a third behind
  (`DposIrreversible.MovesBackExactly`, `DposIrreversible.NeverMovesBack`).
* The incremental Merkle tree always has the root that all its leaves have when hashed at once
  (`IncrementalMerkle.Tree.GetRoot`). Equally many leaves, more than one, have the same root if and only
  if they are the same up to the bit that marks left and right, unless two of the pairs that are hashed
  collide (`MerkleMarks.RootDetermines`).
* Every operation of the fork database that succeeds keeps a tree with a best head, adding a block if and
  only if it is numbered after its predecessor and has an id of its own (`ForkDatabase.AddIsLinked`);
  advancing the root keeps exactly what is built on the new root (`ForkDatabase.Database.AdvanceRoot`).
* Converting an integer to floating point is correctly rounded, and converting it back gives it again
  if and only if no bit was dropped (`IntToFloat.CorrectlyRounded`, `IntToFloat.RoundTripExactly`).
* Every float, a subnormal one, an infinity and a NaN included, converts to the same integer as the
  double it widens to (`Widening.WidenIsExact`, `Widening.SingleConvertsAsDouble`).

### Where the code does not do what one would expect

The model follows the code. An input that fails is given each time, and the exact condition is proved
except where it says otherwise.

* `fixdfti` and `fixsfti` return a value of the wrong sign for every magnitude from 2^127 up to 2^128,
  except for -2^127 (`SoftFloat.FixTiExactly`, `SoftFloat.PowerFlips`): the test before the shift lets
  exponent 127 pass. The signed overflow of that shift is modelled as two's complement.
* The irreversible block can move back after a schedule is promoted: promoting leaves the table at or
  above it if and only if fewer than a third of the new producers are behind
  (`DposIrreversible.PromotionSettlesExactly`). `DposExample.IrreversibleMovesBack` is a run of ten
  headers from genesis, none of them out of range, whose last one moves it from 5 back to 4.
* The guard against double confirmation subtracts 32-bit numbers: a header that claims to confirm more
  blocks than exist passes it (`DposIrreversible.RunRefusesExactly`), and its range meets an earlier one
  of the same producer exactly then (`DposSafety.MeetsExactly`, `DposSafety.OutOfRangeConfirmsTwice`). In
  `DposExample.QuorumNeedsHonesty` a block is proposed that one producer confirmed three times.
* When one of two branches promotes a schedule first, they can propose conflicting blocks although no
  producer has a block on both and no header is out of range (`DposExample.PromotionForks`). That the
  active schedule stays on both branches excludes this; that condition is sufficient, not exact.
* Adding any block to the fork database can move the head between two validated blocks of the same
  height, because adding breaks ties by id and validating does not
  (`ForkChoice.AddChangesHead`, `ForkDatabase.TieMovesHead`).
* When advancing the root fails because the head is on another branch, the new root has already been
  taken out of the index, and the tree is broken if and only if a block is built on it
  (`ForkDatabase.Database.AdvanceRoot`); `ForkDatabase.FailedAdvance` is a database of two validated
  branches on which it is.
* A diff reports a null that is new in the right value just as it reports a missing entry, so the
  changes do not say which it is (`VariantPatch.DiffIsPatch`, `VariantPatch.NewNullIsLost`).
* The assertion in line 657 of `tools/validate_reflection.py` cannot fail
  (`ReflectionMatcher.ForwardCheckIsDead`). Line 503 looks up a base class that is only kept when it has
  no record, so every macro with such a base ends the run, as in any text of one macro with a base
  (`ReflectionRecords.BaseWithoutRecordFails`). Formatting the message of line 524 fails itself; that is
  the same failure here.
* A swap can be accepted although the lists correspond without it: if and only if its field is reflected
  and no swap is redundant (`NeedlessSwaps.NeedlessAcceptedExactly`). If the order is unchanged, that is
  when every swapped field stands right behind a swapped or an ignored one
  (`NeedlessSwaps.UnchangedOrderExactly`). It happens beside an ignored field, and with nothing ignored
  beside a field that moved (`NeedlessSwaps.NeedlessSwapBesideIgnored`,
  `NeedlessSwaps.NeedlessSwapBesideMoved`).
* Marking left and right drops one bit of every leaf, so leaves that differ in it have the same root with
  every hash (`MerkleMarks.SameLeavesSameRoot`, `MerkleMarks.MarkIsLost`). The root does not tell the
  number of leaves either: a level of more than one digest has the root of the shorter level above it
  (`Merkle.RootUnfolds`), as `[a, b]` and the digest of the two, and an odd number of leaves has the root
  of the same leaves with the last one repeated (`Merkle.RepeatedLeaf`).

Where comments and code disagree: `clz_power_2` is documented to count leading zeros, and returns the
position of the one bit (`IncrementalMerkle.SmearDepth`); `name_suffix` says it does not count leading
dots as actual ones, and it does (`NameSuffix.LastActualDotIs`).

## Model

| member | source | states |
|---|---|---|
| ReflectionMatcher.AcceptsExactly | tools/validate_reflection.py:631-694 | on records without repetitions the checker accepts if and only if swapped and ignored fields are where they belong, the plain fields agree in order, and no swap is redundant |
| ReflectionMatcher.RejectsOnlyInOrderSwaps | tools/validate_reflection.py:645-652 | if the lists correspond, the only assertion that can fail is the one about a swap in the correct order |
| ReflectionMatcher.ForwardCheckIsDead | tools/validate_reflection.py:657 | the assertion that a forward-swapped field is reflected never fails |
| ReflectionMatcher.MovedFieldAccepted | tools/validate_reflection.py:19-24 | moving one field over any nonempty run of others is accepted, in both directions, by declaring that field swapped |
| ReflectionMatcher.ExchangedNeighbours | tools/validate_reflection.py:19-24 | of two exchanged neighbours either one may be declared swapped; both, in either order, or neither is rejected |
| NeedlessSwaps.NeedlessAcceptedExactly | tools/validate_reflection.py:645-694 | a swap without which the lists correspond as well is accepted if and only if its field is reflected and no swap is redundant |
| NeedlessSwaps.UnchangedOrderExactly | tools/validate_reflection.py:645-694 | if the reflected fields are the class's in the same order, without the ignored ones, the record is accepted if and only if the ignored fields are in the class, the swapped ones are reflected, and each of these stands right behind a swapped or an ignored one |
| NeedlessSwaps.UnchangedIsNeedless | tools/validate_reflection.py:19-24 | the lists then correspond without any of these swaps as well |
| NeedlessSwaps.SwapsOfUnchangedOrderRejected | tools/validate_reflection.py:650 | with nothing ignored and the order unchanged, every list of swaps is rejected |
| NeedlessSwaps.NeedlessSwapBesideIgnored | tools/validate_reflection.py:650-665 | for any two fields, the second is accepted as needlessly swapped behind the first, which is ignored |
| NeedlessSwaps.NeedlessSwapBesideMoved | tools/validate_reflection.py:645-658 | for any three fields of which the last moved to the front, that one may be declared alone, or needlessly with the first |
| ReflectionMatcher.SwappedAndIgnoredRejected | tools/validate_reflection.py:645-665 | a field both swapped and ignored is always rejected |
| ReflectionMatcher.InvStep | tools/validate_reflection.py:640-679 | every iteration of the matching loop keeps the account of which field was seen, is waiting and is still declared |
| ReflectionMatcher.FinishAccepts | tools/validate_reflection.py:681-694 | the assertions after the loop hold if and only if nothing is left over |
| ReflectionMatcher.DrainBack | tools/validate_reflection.py:682-690 | the loop over the remaining reflected fields removes those that wait and collects the others |
| ReflectionMatcher.Match | tools/validate_reflection.py:631-694 | the loop returns the verdict of the specification, for all lists |
| ReflectionRecords.AddNamesExactly | tools/validate_reflection.py:495-537 | adding names to a record succeeds if and only if the result repeats no name and no name is both swapped and ignored |
| ReflectionRecords.StatedInOrder | tools/validate_reflection.py:495-537 | what a text says of a class are the names of its macros, ignores and swaps, each in the order of the text, without regard to other classes |
| ReflectionRecords.BuildExactly | tools/validate_reflection.py:476-537 | recording all macros and comments that are recognised succeeds if and only if every class is consistent and base classes come first, and then records exactly what they say of each class |
| ReflectionRecords.BaseWithoutRecordFails | tools/validate_reflection.py:476-505 | a text of one macro that names a base class is never read |
| ReflectionRecords.RecordsAreWellFormed | tools/validate_reflection.py:624-628 | the record that is matched has no repetitions, also after `id` was added |
| ReflectionRecords.ValidateExactly | tools/validate_reflection.py:624-694 | a class with a definition passes if and only if what the text says of it corresponds to the definition and has no redundant swap, `id` being ignored too if the class is an object and the record names it in no field or ignore |
| ReflectionRecords.ImplicitIdExactly | tools/validate_reflection.py:624-628 | a class with an `id` that its record names in no field or ignore passes if and only if it is an object, `id` is not swapped, and the lists correspond with `id` ignored |
| ReflectionRecords.ImplicitIdPasses | tools/validate_reflection.py:624-628 | with all other fields reflected in order, such a class passes if and only if it is an object |
| ReflectionRecords.FilePassesExactly | tools/validate_reflection.py:608-694 | a file passes if and only if base classes come first, each class is consistent, and every class mentioned has a definition to which it corresponds without redundant swaps, or has none and is the id type of an object |
| ReflectionRecords.SkippedExactly | tools/validate_reflection.py:613-620 | a class without a definition is passed over if and only if its name is that of an object with a definition, not empty, followed by `::id_type` |
| ReflectionRecords.ValidateClass | tools/validate_reflection.py:612-694 | one turn of the loop over the records: the lookup, the skipped id types, the implicit `id` and the verdict |
| ReflectionRecords.ValidateAll | tools/validate_reflection.py:610-694 | the loop ends without a failure if and only if every record passes |
| ReflectionRecords.SwappedImplicitIdRejected | tools/validate_reflection.py:624-628 | an object whose `id` is declared swapped but neither reflected nor ignored never passes |
| ReflectionRecords.Reflections.constructor | tools/validate_reflection.py:391-395 | no class has a record at first |
| ReflectionRecords.Reflections.FindOrAdd | tools/validate_reflection.py:489-493 | the class has a record afterwards, the old one if it had one |
| ReflectionRecords.Reflections.AddField | tools/validate_reflection.py:533-537 | fails if and only if the field is repeated, otherwise appends it |
| ReflectionRecords.Reflections.AddFields | tools/validate_reflection.py:495-508 | field by field, does what the specification does for the macro as a whole, with the same failures |
| ReflectionRecords.Reflections.AddIgnoreSwaps | tools/validate_reflection.py:510-530 | name by name, does what the specification does for the comment as a whole, with the same failures |
| Braces.UnmatchedBalances | tools/validate_reflection.py:119-123 | the first closing brace without a partner is the end of a balanced region |
| Braces.UnmatchedNested | tools/validate_reflection.py:119-123 | the partners of nested opening braces are nested |
| Braces.ForestIsWellNested | tools/validate_reflection.py:110-124 | the pairs found by counting are matched, in order, disjoint and nested |
| Braces.ForestIsComplete | tools/validate_reflection.py:110-124 | in balanced text every opening brace starts exactly such a pair |
| ScopeReader.InitializerIsSound | tools/validate_reflection.py:138-149 | the initializer pattern matches inside the searched text and starts at a brace |
| ScopeReader.ChildIsFirstOpen | tools/validate_reflection.py:138-157 | whatever the patterns find, skipping initializers included, the generic search finds a scope exactly when a brace opens before the next one closes, and it is the first |
| ScopeReader.HeaderNotBeforeOpen | tools/validate_reflection.py:337-353 | a header pattern never gives a brace before the first one |
| ScopeReader.ReadsExactly | tools/validate_reflection.py:110-124 | reading the whole text succeeds if and only if a stray brace stops it or everything is closed, except possibly a brace that is the last character |
| ScopeReader.BalancedTextIsRead | tools/validate_reflection.py:110-124 | balanced text is read to its end and every brace of it becomes a scope |
| ScopeReader.ScanIsForest | tools/validate_reflection.py:110-164 | reading scope after scope gives the forest that counting gives, and fails when counting finds no end |
| ScopeReader.Scope.constructor | tools/validate_reflection.py:95-108 | a scope starts behind its brace; only the outermost one knows its end |
| ScopeReader.Scope.NextStart | tools/validate_reflection.py:317-353 | every kind of scope starts its next child at the same brace, the first that opens before one closes; the child has the kind of the header if and only if the header's brace is that one |
| ScopeReader.Scope.Next | tools/validate_reflection.py:151-164 | reads that child with all its children, moves behind its partner, and fails if it has none |
| ScopeReader.Scope.ReadChildren | tools/validate_reflection.py:112-117 | the loop collects the children in order until none is left or one fails |
| ScopeReader.Scope.Read | tools/validate_reflection.py:110-124 | the recursive reader finds the forest of brace pairs and the end of the scope, and fails if and only if counting says so |
| VariantDiff.VariantDiffHelper | unittests/snapshot_tests.cpp:84-146 | the recursive procedure reports the changes of the specification in the same order |
| VariantDiff.DiffObjects | unittests/snapshot_tests.cpp:87-116 | both loops over entries, with the set of keys between them |
| VariantDiff.DiffArrays | unittests/snapshot_tests.cpp:117-141 | the three loops over elements report the changes of the specification |
| VariantDiff.DiffCommon | unittests/snapshot_tests.cpp:121-129 | the first loop reports what the elements at common indices change, and only the rest of both arrays is left |
| VariantDiff.DiffRemoved | unittests/snapshot_tests.cpp:131-135 | the second loop reports each element the right array does not reach |
| VariantDiff.DiffAppended | unittests/snapshot_tests.cpp:137-141 | the third loop reports each element the left array does not reach |
| VariantDiffExact.SilentExactly | unittests/snapshot_tests.cpp:84-146 | nothing is reported if and only if the values are equal up to the order of keys |
| VariantDiffExact.ChangesAreTruthful | unittests/snapshot_tests.cpp:84-146 | every reported path leads to the reported values on both sides, and these clash or have no counterpart |
| VariantDiffExact.ChangesArePrefixFree | unittests/snapshot_tests.cpp:84-146 | no reported path is a prefix of another |
| VariantDiffOrder.ChangesAreOrdered | unittests/snapshot_tests.cpp:84-146 | changes are reported in the order of the left entries, then of the right entries that are new, or by index, and so at every depth |
| VariantPatch.DiffIsPatch | unittests/snapshot_tests.cpp:84-146 | replaying the changes on the left value gives the right one, up to key order, if and only if below the root the right value has no null that is new |
| VariantPatch.NewNullIsLost | unittests/snapshot_tests.cpp:110-116 | a null added under any key is lost when the changes are replayed |
| VariantPatch.NullFreeDiffIsPatch | unittests/snapshot_tests.cpp:84-146 | for right values without null the changes are always a patch |
| Dpos.ConfirmBlocks | libraries/chain/block_header_state.cpp:72-114 | the loop over the counters confirms from the newest back, reports the block whose counter reaches zero, and drops it with all older ones |
| DposSafety.ConfirmEffect | libraries/chain/block_header_state.cpp:92-114 | what the confirmation loop does to each single counter |
| DposSafety.MeetsExactly | libraries/chain/block_header_state.cpp:51-57 | from a run's state, what an accepted header confirms meets an earlier range of its producer if and only if it claims to confirm more blocks than there are |
| DposSafety.NobodyConfirmsTwice | libraries/chain/block_header_state.cpp:51-57 | over every run no two blocks of one producer confirm a block in common if and only if no block but its producer's first claims to confirm more blocks than there are |
| DposSafety.ProposedHasVotes | libraries/chain/block_header_state.cpp:72-116 | over every run, each counter and the blocks that confirm its block add up to the quorum, a proposed block was confirmed by two thirds plus one as many blocks as its schedule has producers, and the proposed block never moves back |
| DposSafety.RequiredExactly | libraries/chain/block_header_state.cpp:75-77 | a number of votes is enough if and only if it is more than two thirds of the producers |
| DposSafety.TracksAll | libraries/chain/block_header_state.cpp:80-114 | over every run the counters are for exactly the blocks above the proposed one, or for the last 1024 |
| DposSafety.ProposedIsHighest | libraries/chain/block_header_state.cpp:80-116 | over every run no block above the proposed one has its votes, among the last 1024 |
| DposSafety.VotesAreProducers | libraries/chain/block_header_state.cpp:51-57 | the blocks that confirm a block come from as many different producers if and only if no producer confirms it twice |
| DposSafety.ProposedHasQuorum | libraries/chain/block_header_state.cpp:72-116 | over every run a proposed block that nobody confirmed twice was confirmed by two thirds plus one of its schedule, all different |
| DposSafety.HonestHasQuorum | libraries/chain/block_header_state.cpp:51-116 | so it is in every run in which only first blocks claim to confirm more blocks than there are |
| DposSafety.RunFollows | libraries/chain/block_header_state.cpp:38-49 | while the active schedule stays, every block comes from it and has its quorum |
| DposSafety.QuietKeepsActive | libraries/chain/block_header_state.cpp:249-275 | without a pending or a new schedule the active one stays |
| DposSchedules.RefusalsExactly | libraries/chain/block_header_state.cpp:43-57 | a header is refused if and only if its slot is not later, or its producer confirms twice, or it announces a schedule while another is pending, in this order |
| DposSchedules.ScheduleStep | libraries/chain/block_header_state.cpp:121-168 | an accepted schedule finds none pending and waits; a pending one stays with the active one until the block that announced it is irreversible, and then is active and none is pending |
| DposSchedules.TablesStep | libraries/chain/block_header_state.cpp:126-168 | both tables after a block, producer by producer: who is in them, what is kept, what the producer gets and what a newcomer gets |
| DposSchedules.SlotsIncrease | libraries/chain/block_header_state.cpp:43-47 | over every run slots increase |
| DposSchedules.PendingWasAnnounced | libraries/chain/block_header_state.cpp:249-275 | over every run what is pending was announced in the block from which it is pending |
| DposSchedules.ActiveWasAnnounced | libraries/chain/block_header_state.cpp:121-168 | over every run the active schedule was announced in a block that had become irreversible |
| DposSchedules.NoneIsReplaced | libraries/chain/block_header_state.cpp:249-275 | over every run a schedule that was announced has become active before another one is announced |
| DposSchedules.AnnouncedTooEarly | libraries/chain/block_header_state.cpp:252-270 | a schedule in the first block is refused, since that block promotes the one of genesis |
| DposSafety.BranchQuorum | libraries/chain/block_header_state.cpp:38-116 | a block of a branch with its votes, which nobody confirmed twice, was confirmed by a quorum of the schedule that the branch keeps |
| DposSafety.QuorumsIntersect | libraries/chain/block_header_state.cpp:75-77 | two quorums have more than a third of the producers in common |
| DposSafety.BranchesTakeAThird | libraries/chain/block_header_state.cpp:38-171 | two branches from a common history that keep its active schedule, whatever schedules they announce, can each have a block of their own with its votes only if more than a third of the producers confirmed both, or somebody confirmed one twice |
| DposSafety.ConflictTakesAThird | libraries/chain/block_header_state.cpp:38-171 | so it is for the blocks they propose |
| DposSafety.RefusesExactly | libraries/chain/block_header_state.cpp:51-57 | if nobody's last block is above the head, a header for a later slot is refused for confirming twice if and only if it reaches back to its producer's last block and not past block zero, with the subtraction in 32 bits |
| DposIrreversible.NothingAboveHead | libraries/chain/block_header_state.cpp:121-168 | over every run nobody's last block is above the head |
| DposIrreversible.RunRefusesExactly | libraries/chain/block_header_state.cpp:51-57 | so after every run exactly these headers are refused for confirming twice |
| DposSafety.OutOfRangeConfirmsTwice | libraries/chain/block_header_state.cpp:51-57 | a run in which a producer confirms a block twice, with a header out of range |
| DposIrreversible.LastIrreversibleIsNth | libraries/chain/block_header_state.cpp:24-36 | the irreversible block is the element one third up the sorted list, and no other number is |
| DposIrreversible.LastIrreversibleIsEntry | libraries/chain/block_header_state.cpp:24-36 | it is one of the numbers in the table |
| DposIrreversible.TwoThirdsImplyIt | libraries/chain/block_header_state.cpp:24-36 | more than two thirds of the producers imply at least the irreversible block |
| DposIrreversible.NthMonotone | libraries/chain/block_header_state.cpp:24-36 | raising entries never lowers it |
| DposIrreversible.ReachesExactly | libraries/chain/block_header_state.cpp:24-36 | it is at least x if and only if fewer than a third of the entries are below x |
| DposIrreversible.IrreversibleNeverAhead | libraries/chain/block_header_state.cpp:116-119 | over every run the irreversible block is at most the proposed one, and that at most the head |
| DposIrreversible.IrreversibleHasVotes | libraries/chain/block_header_state.cpp:116-168 | over every run the irreversible block, and every block that a producer implies, was itself confirmed by as many blocks as its quorum asks for |
| DposIrreversible.ForksTakeAThird | libraries/chain/block_header_state.cpp:38-171 | two branches that keep the active schedule can each make a block of their own irreversible only if more than a third of the producers confirmed both of these blocks, or somebody confirmed one twice |
| DposIrreversible.MovesBackExactly | libraries/chain/block_header_state.cpp:24-36 | a block moves the irreversible block back if and only if, counting its producer at the proposed block, a third or more of the producers imply less than it |
| DposIrreversible.SettledStep | libraries/chain/block_header_state.cpp:121-168 | from a settled state the irreversible block never moves back, and the state stays settled unless a schedule is promoted |
| DposIrreversible.PromotionSettlesExactly | libraries/chain/block_header_state.cpp:121-168 | a promotion leaves a settled state if and only if fewer than a third of the new producers are behind the block that becomes irreversible |
| DposIrreversible.StaysSettled | libraries/chain/block_header_state.cpp:116-168 | every state of a run whose promotions do so is settled |
| DposIrreversible.NeverMovesBack | libraries/chain/block_header_state.cpp:116-168 | over every such run the irreversible block never moves back |
| DposExample.IrreversibleMovesBack | libraries/chain/block_header_state.cpp:121-168 | for any four producers, a run of ten headers from genesis, all in range, whose last one moves the irreversible block from 5 to 4 |
| DposExample.PromotionForks | libraries/chain/block_header_state.cpp:121-168 | two branches of a common history of eight headers, all in range and with no producer on both, that propose block 10 by three producers and block 11 by the fourth, whose schedule was promoted on one branch only |
| DposExample.QuorumNeedsHonesty | libraries/chain/block_header_state.cpp:51-116 | a run of six headers, two of them out of range, that proposes a block with three votes of one producer instead of three producers |
| ForkTree.UnderIsHigher | libraries/chain/fork_database.cpp:443-465 | what is built on a block is above it, so ancestry has no cycles |
| ForkTree.WithoutIsLinked | libraries/chain/fork_database.cpp:443-465 | removing a block with everything built on it leaves a tree |
| ForkTree.AboveIsLinked | libraries/chain/fork_database.cpp:252-283 | what is built on a block is a tree above that block |
| ForkTree.CutOff | libraries/chain/fork_database.cpp:269-276 | once the new root is out of the index, what is built on it is no longer under its ancestors |
| ForkTree.StillUnderRoot | libraries/chain/fork_database.cpp:273-276 | all other blocks that are left are still under the old root |
| ForkChoice.FirstExactly | libraries/chain/fork_database.cpp:44-60 | a block is the first of the index if and only if it is validated when any is, and among the blocks like it has the highest irreversible block, then the highest number, then the lowest id |
| ForkChoice.FirstIsValidated | libraries/chain/fork_database.cpp:35-60 | the first block of the index is validated if and only if any is, and then no validated one has a higher irreversible block, or the same and a higher number |
| ForkChoice.AddChangesHead | libraries/chain/fork_database.cpp:324-334 | adding a block that is not validated changes the head if and only if some validated block ties with it and has a smaller id, or the head is the root and some block is validated |
| ForkDatabase.Database.constructor | libraries/chain/fork_database.cpp:232-238 | an empty tree whose head is the root |
| ForkDatabase.Database.Candidate | libraries/chain/fork_database.cpp:330 | the first block of the index, with that order written out |
| ForkDatabase.Database.Add | libraries/chain/fork_database.cpp:299-334 | the three refusals exactly; otherwise one more block and the head that the order gives; no validated block has a higher irreversible block than the head, or the same and a higher number; a valid database stays valid if the block has the number after its predecessor's and an id of its own |
| ForkDatabase.AddIsLinked | libraries/chain/fork_database.cpp:299-334 | the tree stays a tree if and only if it has |
| ForkDatabase.Database.MarkValid | libraries/chain/fork_database.cpp:467-485 | only that block's flag changes, and the head becomes that block if and only if its irreversible block is higher, or the same and its number higher; so no validated block is ahead of the head |
| ForkDatabase.Database.PendingHead | libraries/chain/fork_database.cpp:349-359 | the head, or a block that is not validated and has a higher irreversible block or the same and a higher number; no block of the index is ahead of the result in this way |
| ForkDatabase.Database.RollbackHeadToRoot | libraries/chain/fork_database.cpp:240-250 | no block is validated, the head is the root, everything else is unchanged |
| ForkDatabase.Database.Collect | libraries/chain/fork_database.cpp:444-458 | the growing queue holds exactly the block and everything built on it, or stops if and only if that includes the head |
| ForkDatabase.Database.Remove | libraries/chain/fork_database.cpp:443-465 | removes exactly that, or fails and changes nothing; a valid database stays valid |
| ForkDatabase.Database.ListAncestors | libraries/chain/fork_database.cpp:262-267 | the ids from the nearest ancestor back to the root, in this order; the assertion about an orphaned branch never fails |
| ForkDatabase.BackIsComplete | libraries/chain/fork_database.cpp:262-267 | these are exactly the blocks it is built on |
| ForkDatabase.Database.RemoveAncestor | libraries/chain/fork_database.cpp:273-276 | one turn of the removal keeps what is built on the new root, and fails only if the head is not |
| ForkDatabase.Database.RemoveAncestors | libraries/chain/fork_database.cpp:273-276 | succeeds if and only if the head is built on the new root, and then leaves what is built on it |
| ForkDatabase.Database.AdvanceRoot | libraries/chain/fork_database.cpp:252-283 | succeeds if and only if the block is there, validated, and the head is it or built on it; keeps exactly what is built on it and stays valid; when it fails for the head, the block is gone and the tree is broken if and only if something is built on it |
| ForkDatabase.StillLinkedExactly | libraries/chain/fork_database.cpp:269-276 | at every point of the removal, the index is a tree above the old root if and only if nothing is built on the new one |
| ForkDatabase.FailedAdvance | libraries/chain/fork_database.cpp:252-283 | two validated branches, built by adding and validating, on which advancing fails and leaves a block without its predecessor |
| ForkDatabase.TieMovesHead | libraries/chain/fork_database.cpp:330-333 | a database built by adding and validating in which adding a block that is not validated moves the head to the other of two equal ones |
| ForkDatabase.Database.WalkTo | libraries/chain/fork_database.cpp:393-413 | walks back to a block number and collects the blocks passed |
| ForkDatabase.Database.WalkToFork | libraries/chain/fork_database.cpp:415-440 | from two different blocks of one height, back to a common predecessor |
| ForkDatabase.Database.FetchBranchFrom | libraries/chain/fork_database.cpp:380-441 | the two results are the parts of the two branches before their common rest and share no block; it fails only for blocks that are not there |
| Merkle.ComputeMerkle | libraries/chain/merkle.cpp:35-50 | the in-place loop computes the root defined level by level, doubling the last of an odd level |
| Merkle.FewLeaves | libraries/chain/merkle.cpp:35-50 | no leaf has the empty digest as root, one leaf is its own root, two are hashed in order, and the third of three is hashed with itself |
| Merkle.RootUnfolds | libraries/chain/merkle.cpp:38-47 | a list of more than one digest has the root of a shorter one, the level above it |
| MerkleMarks.SidesAreMarked | libraries/chain/merkle.cpp:14-32 | the bit is cleared on the left and set on the right, as the two tests say, and the rest of the digest is kept |
| MerkleMarks.HashedAreMarked | libraries/chain/include/eosio/chain/merkle.hpp:13-15 | so it is in every pair that is hashed for a root, at every level |
| MerkleMarks.MarksAgree | libraries/chain/merkle.cpp:14-24 | marking a digest, on either side, loses the marked bit and no other |
| MerkleMarks.SameLeavesSameRoot | libraries/chain/merkle.cpp:35-50 | more than one leaf and the same leaves with marked bits changed have the same root, whatever the hash |
| MerkleMarks.RootDetermines | libraries/chain/merkle.cpp:35-50 | if no two of the pairs hashed for two roots of equally many leaves, more than one, have hashes that agree up to the marked bit, the roots are equal if and only if the leaves agree up to that bit |
| MerkleMarks.EqualRootsCollide | libraries/chain/merkle.cpp:35-50 | so equal roots of leaves that do not agree give two different pairs among those hashed whose hashes agree up to that bit |
| MerkleMarks.MarkIsLost | libraries/chain/include/eosio/chain/merkle.hpp:13-15 | two different lists of two leaves with the same root for every hash |
| Merkle.RepeatedLeaf | libraries/chain/merkle.cpp:38-41 | an odd number of leaves, more than one, and the same with the last one repeated have the same root |
| IncrementalMerkle.SmearDepth | libraries/chain/include/eosio/chain/incremental_merkle.hpp:17-50 | smearing and the masks of `clz_power_2` give the bit length, for all 64-bit numbers |
| IncrementalMerkle.DepthIsBitLength | libraries/chain/include/eosio/chain/incremental_merkle.hpp:59-65 | the depth used for an append is the bit length of the number of leaves |
| IncrementalMerkle.ApexIsRoot | libraries/chain/include/eosio/chain/incremental_merkle.hpp:178-213 | collapsing a new leaf with the complete nodes to its left arrives at the root of all leaves |
| IncrementalMerkle.KeptBesideComplete | libraries/chain/include/eosio/chain/incremental_merkle.hpp:179-208 | exactly the complete subtrees without a partner are kept |
| IncrementalMerkle.AppendKeepsActive | libraries/chain/include/eosio/chain/incremental_merkle.hpp:168-226 | the list after an append is the list that belongs to the longer leaves |
| IncrementalMerkle.CollapseNodes | libraries/chain/include/eosio/chain/incremental_merkle.hpp:169-213 | the loop on 64-bit index and depth computes that list and root |
| IncrementalMerkle.AppendNode | libraries/chain/include/eosio/chain/incremental_merkle.hpp:168-226 | from the list for some leaves to the list for one more, whose last node is their root |
| IncrementalMerkle.Tree.Append | libraries/chain/include/eosio/chain/incremental_merkle.hpp:168-226 | one more leaf, and the root of all of them |
| IncrementalMerkle.Tree.GetRoot | libraries/chain/include/eosio/chain/incremental_merkle.hpp:233-239 | the root kept is the root computed from all leaves at once |
| SoftFloat.FieldsAre | libraries/builtins/fixdfti.c:19-24 | the masks and shifts take sign, exponent and significand |
| SoftFloat.WholeIs | libraries/builtins/fixdfti.c:34-39 | shifting the significand gives the integer part of the exact value, whose highest bit is the exponent |
| SoftFloat.FixTiIs | libraries/builtins/fixdfti.c:16-41 | the result depends on the sign and the integer part of the value alone, for all patterns |
| SoftFloat.FixTiExactly | libraries/builtins/fixdfti.c:16-41 | the result is the value truncated and saturated if and only if the unbiased exponent is not 127 or the value is -2^127 |
| SoftFloat.SignFlips | libraries/builtins/fixdfti.c:30-39 | at exponent 127 every other result has the wrong sign |
| SoftFloat.PowerFlips | libraries/builtins/fixdfti.c:30-39 | in every format 2^127 is converted to -2^127 instead of 2^127 - 1 |
| SoftFloat.NotFinite | libraries/builtins/fixdfti.c:30-32 | infinities and NaNs give the end of the range that their sign says |
| SoftFloat.WidthsAgree | libraries/builtins/fixsfti.c:16-40 | patterns of any two formats with the same sign and value give the same integer |
| Widening.SubnormalWidens | libraries/chain/webassembly/softfloat.cpp:355-358 | a subnormal pattern becomes a normal one of the wider format with the same value |
| Widening.WidenIsExact | libraries/chain/webassembly/softfloat.cpp:355-358 | the widening of any pattern is a pattern of the wider format with the same sign and value, or with the same sign an infinity for an infinity and a NaN for a NaN |
| Widening.WidenedConvertsAlike | libraries/builtins/fixsfti.c:16-40 | every pattern of every format gives the same integer as its widening to any wider format |
| Widening.SingleConvertsAsDouble | libraries/builtins/fixsfti.c:16-40 | in particular every float gives the integer of the double it is promoted to |
| SoftFloat.FormatsAreSupported | libraries/builtins/fp64.h:10-17 | single and double precision are among the formats, with biases 127 and 1023 and all patterns of 32 and 64 bits |
| SoftFloat.FormatsConvertTwo | libraries/builtins/fixdfti.c:16-41 | 0x40000000 and 0x4000000000000000 are converted to 2 |
| IntToFloat.NearestMultiple | libraries/builtins/floattidf.c:35-67 | rounding half to even takes a nearest multiple, and the even one of two |
| IntToFloat.TwoBitsCompare | libraries/builtins/floattidf.c:45-55 | the two bits kept, with the sticky bit, tell the dropped part from one half |
| IntToFloat.AddingOneRounds | libraries/builtins/floattidf.c:57-59 | or-ing one bit, adding one and dropping two bits rounds half to even |
| IntToFloat.DropDigits | libraries/builtins/floattidf.c:45-55 | the three cases of the switch leave the same two bits |
| IntToFloat.RoundDigits | libraries/builtins/floattidf.c:33-72 | the digits and the exponent stand for the rounded magnitude, also after a carry |
| IntToFloat.AssembleIs | libraries/builtins/floattidf.c:73-77 | the two halves have the fields that were put in |
| IntToFloat.FloatTi | libraries/builtins/floattidf.c:26-79 | every 128-bit integer becomes a finite pattern with its sign and, exactly, its rounded magnitude |
| IntToFloat.CorrectlyRounded | libraries/builtins/floattidf.c:26-79 | no value of the format is nearer to the integer than the result |
| IntToFloat.RoundTripExactly | libraries/builtins/floattidf.c:26-79 | converting back gives the integer if and only if no nonzero bit was dropped |
| NameSuffix.PackUnpack | unittests/misc_tests.cpp:91-103 | every 64-bit name is the packing of its thirteen symbols |
| NameSuffix.UnpackPack | unittests/misc_tests.cpp:91-103 | symbols that are packed are read back |
| NameSuffix.ReadsSymbol | unittests/misc_tests.cpp:94 | shifting and masking in the loop reads one symbol |
| NameSuffix.LastActualDotIs | unittests/misc_tests.cpp:91-105 | the dot found has another symbol behind it, and no dot after it has |
| NameSuffix.SuffixIs | unittests/misc_tests.cpp:88-117 | without an actual dot the suffix is the name; otherwise its symbols are those behind the last actual dot, and then dots |
| NameSuffix.MaskKeeps | unittests/misc_tests.cpp:112-113 | the mask keeps exactly the five-bit symbols behind that dot |
| NameSuffix.PackedSuffix | unittests/misc_tests.cpp:114-116 | shifted up and joined with the last symbol they are the packed suffix |
| NameSuffix.FindDots | unittests/misc_tests.cpp:89-100 | the loop leaves the positions of the last dot and of the last actual dot among twelve symbols |
| NameSuffix.Shift | unittests/misc_tests.cpp:112-116 | the masked shift and sum, in 64 bits, is the packing of what is behind the dot |
| NameSuffix.ComputeSuffix | unittests/misc_tests.cpp:88-117 | for every name without an actual dot the result is the name, and for every other one its symbols are, one by one, those behind the last actual dot, filled up with dots |
| NameSuffix.SuffixTwice | unittests/misc_tests.cpp:88-117 | the suffix of a suffix is the suffix |
| NameSuffix.PackedSuffixTwice | unittests/misc_tests.cpp:88-117 | so it is on packed names, and a suffix is a name |
| Schedule.Fairness | unittests/producer_schedule_tests.cpp:21-24 | in any window of one round, aligned or not, every position has exactly as many slots as there are repetitions |
| Schedule.IndexIsTurn | unittests/producer_schedule_tests.cpp:21-24 | producers take turns in the order of the schedule, for as many slots each as there are repetitions |
| Schedule.NextTurn | unittests/producer_schedule_tests.cpp:21-24 | from any slot on every position comes up within all other runs |
| Schedule.AllSeen | unittests/producer_schedule_tests.cpp:21-24 | so that many heads include every scheduled producer |
| Schedule.Chain.ProduceUntilBlocksFrom | unittests/fork_test_utilities.cpp:21-54 | stops at the first head that completes the expected producers, gives up only when the limit does not reach one, and succeeds with a limit of (producers - 1) runs |
| Schedule.BoundIsTight | unittests/fork_test_utilities.cpp:45-54 | one block less fails from the start of a round |
| Schedule.NextRoundFirstBlock | unittests/producer_schedule_tests.cpp:38-45 | the least multiple of a round above the head, where the first producer starts |
| Schedule.PushBlocks | unittests/fork_test_utilities.cpp:11-18 | copies exactly the missing blocks, once and in order, up to the limit; a chain that agreed still agrees |
| UndoLog.RunRefines | unittests/misc_tests.cpp:344-379 | over every run the sizes behave like a stack of full copies, with the same failures |
| UndoLog.PopUndoes | unittests/misc_tests.cpp:363-371 | popping restores exactly the state at the matching push, whatever balanced calls came between |
| UndoLog.SquashKeeps | unittests/misc_tests.cpp:373-378 | squashing gives the state that the calls between would have given without the level |
| UndoLog.PermissionVisitor.constructor | unittests/misc_tests.cpp:349 | an empty list without levels |
| UndoLog.PermissionVisitor.Record | unittests/misc_tests.cpp:351-353 | appends to the list |
| UndoLog.PermissionVisitor.Repeat | unittests/misc_tests.cpp:355 | a repeated permission changes nothing |
| UndoLog.PermissionVisitor.PushUndo | unittests/misc_tests.cpp:357-361 | opens a level at the present size |
| UndoLog.PermissionVisitor.PopUndo | unittests/misc_tests.cpp:363-371 | fails if and only if no level is open, and the size check never does; otherwise the list is the one that was saved |
| UndoLog.PermissionVisitor.SquashUndo | unittests/misc_tests.cpp:373-378 | fails if and only if no level is open, otherwise only closes it |

## Left out

* The regular expressions of the reflection checker, stripping of comments and strings, collecting fields from a class body, type aliases and inheritance; scopes, macros and field lists are the inputs. Header patterns are arbitrary functions that match inside the text and end at a brace.
* The walk over files, the report and the debug output of the reflection checker.
* Values of the fc library: comparing leaf variants is equality, and paths are lists of steps, not strings.
* ReflectionRecords.BuildExactly: starts from the macros and comments in the order in which `read` takes them; recognising them in the text, lines 403-475, is left out with the regular expressions.
* ReflectionRecords.ValidateExactly: is for a class whose definition was found; the lookup and the skipped id types are in FilePassesExactly.
* ReflectionRecords.FilePassesExactly: takes the definitions that looking up a class finds as a map from names.
* ScopeReader.Scope.Read: leaves out the assertion of line 366, that a namespace does not inherit, which a header match can make fail; here the kind of a scope does not matter.
* ReflectionMatcher.Match: leaves out the assertion of line 657, which is proved never to fail.
* Signatures, signing authorities, protocol features, header extensions and hashes of schedules; block ids are numbers.
* Dpos.ConfirmBlocks: does not model the cast of the quorum to eight bits, which a static assertion on the largest schedule makes exact. Counters do wrap at eight bits.
* DposSafety.NobodyConfirmsTwice: is for runs of fewer than 2^32 blocks; block numbers do not wrap in the model, and only the subtraction of the guard does.
* DposSafety.MeetsExactly: has the same bound.
* DposSafety.HonestHasQuorum: asks that only first blocks claim to confirm more blocks than there are, which NobodyConfirmsTwice shows to be exactly what keeps producers from confirming twice, and has the same bound.
* DposSafety.ProposedHasQuorum: asks that nobody confirmed the proposed block twice, without which it fails in DposExample.QuorumNeedsHonesty; ProposedHasVotes has no condition.
* DposSafety.RefusesExactly: asks that nobody's last block is above the head, which NothingAboveHead shows for every run, and is for 16-bit counts of confirmed blocks, as headers have, and block numbers that leave room for them below 2^32.
* DposIrreversible.RunRefusesExactly: has the same bounds.
* DposSafety.ConflictTakesAThird: is for branches on which the active schedule stays until their last block; across a promotion it fails, as DposExample.PromotionForks shows.
* DposSafety.BranchesTakeAThird: has the same condition.
* DposIrreversible.ForksTakeAThird: has the same condition.
* Versions of schedules, and the default timestamp with which `next` takes the following slot; the slot is given.
* The nth element is defined by counting, not by partitioning an array in place.
* IncrementalMerkle.Tree.Append: is not for a tree of 2^64 - 1 leaves, whose count would overflow.
* The hash function is any function of two digests; IncrementalMerkle does not look at the marks either.
* ForkDatabase.Database.Add: promises a valid database only for a block that has the number after its predecessor's and not the root's id, as block states are built; it adds any other as the source does. The validator of protocol features is not modelled.
* ForkDatabase.Database.MarkValid: asks that a block in the index is the indexed object itself, as blocks are shared by pointer.
* Reading and writing the fork database file, `fetch_branch` and `search_on_branch`, which would only add easy members.
* SoftFloat.FixTiIs: is for formats of 8 or more exponent bits and fewer than 127 significand bits, which include single and double precision.
* Widening.WidenIsExact: defines widening by value, as IEEE 754 section 5.4.2 has it; the library function that `_eosio_f32_promote` calls is not part of this model, and neither is quieting of a signalling NaN.
* IntToFloat.FloatTi: counts significant digits by definition instead of by leading zeros of two halves, and is for formats with at least 32 significand bits, which its two halves need. It negates -2^127 as two's complement does, where line 32 of libraries/builtins/floattidf.c overflows a signed integer.
* The other conversions and the 128-bit shifts and division of libraries/builtins.
* NameSuffix.ComputeSuffix: works on numbers below 2^64 with shifts, masks and truncation written out.
* Schedule.NextRoundFirstBlock: counts in unbounded numbers, and the source in 32 bits, which matters only for the last round of block numbers below 2^32.
* `produce_until_transition`, which is the same loop with another condition; that pushing a block succeeds is taken as given in `push_blocks`.
* UndoLog.PermissionVisitor.PopUndo: on an empty stack the source reads the last size before it tests for one; that is the failure here. Logging is left out.
* The ABI serializer, the authority checker, the controller, the database, networking and contracts.
