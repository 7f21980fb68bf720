# Verified models of Abseil's hard parts

This project models, in Dafny, the parts of the Abseil C++ library whose correctness is hardest to see
from the code, and proves what their documentation promises.

- **CRC32C** (`CrcRegister`, `CrcTables`, `CrcWide`, `CrcEngine`, `Crc32c`, `CrcBursts`). The bit-serial register of
  section 12.1 of RFC 3720 is the specification. The table engine with its four interleaved words, the
  table construction, the multiplication in the quotient ring, zero extension by base-16 digits and the
  bit-reversed backward direction are proved equal to it, and the checksum arithmetic (concatenate, remove a
  prefix, remove a suffix, extend and unextend by zeroes) is proved from linearity and invertibility.
- **Command line parser** (`FlagText`, `NameOrder`, `FlagExpansion`, `FlagStack`, `FlagParser`,
  `FlagResults`, `FlagCrashes`, `FlagMeaning`, `FlagTermination`, `FlagCycles`). The loop over a stack of argument
  lists, into which flagfiles and environment lists are pushed while arguments are consumed, refines a recursive
  left-to-right expansion, whose results are then said in terms of the arguments, files and variables themselves.
  A flagfile that includes itself keeps the loop going for ever (`SelfInclusion`); exactly when the loop ends is
  proved for every input (`EndsIff`, `EndsIffRanked`).
- **Suggestions for misspelled flags** (`EditDistance`, `MisspellingHints`). The banded, capped distance
  table against the least cost of an edit script, and the search that shrinks the cap as it goes.
- **call_once** (`CallOnce`). Threads with program counters over one atomic word; loads may return stale
  values; sleeping and waking follow the futex-based wait.
- **InlinedVector** (`VectorCells`, `VectorWorld`, `InlinedVector`). Cells are raw, live or moved from. The
  element loops demand raw memory to construct in and elements to assign to or destroy, and they count the
  elements begun and ended; every operation must leave as many elements in the vectors as began and have not
  ended. Any number of vectors share a heap whose blocks have owners.
- **Flag registry** (`FlagRegistry`). A map frozen into a sorted array, with lookups that read the frozen bit
  before they take the lock.
- **Flag marshalling** (`DecimalText`, `FastInteger`, `IntegerParse`, `FlagMarshalling`). The integer encoder
  that divides several digits inside one word, the overflow-checked parser, and the round trips of all flag
  types except floating point.

Files, environment variables, usage-flag handling and the conversion of flags of other types are parameters
of the parser model. The order in which the hash map is visited is left open. Machine integers are written
out where they wrap: lengths of 2^64, 32- and 64-bit negation, 16-bit narrowing.

## Where code and documentation differ

- A hint may be one step farther than the cutoff, so up to distance 4, although the comment on the constant
  speaks of distances smaller than 3 (`HintAtDistanceFour`, `DocumentedBoundIff`).
- A full list of hints hides closer names that come later (`FullListMissesExactName`, `ExactIff`).
- A lookup or a visit to all flags during the freeze can miss registered flags (`LostLookup`, `FindRace`,
  `VisitRace`), and a duplicate registration after the freeze is not caught (`DuplicateRun`,
  `DuplicateAccepted`).
- The terminator is any argument whose name is empty, such as `--=x`. Such a line in a flagfile, a lone dash
  there, or an empty name in fromenv with its variable set fails an internal check (`DashInFlagfile`,
  `EmptyNameInEnvironment`, `AbortsIff`).
- A hexadecimal flag value takes no sign (`SignedHexRejected`); `k5` is a severity
  (`LetterBeforeNumber`, `SeverityDiffersIff`).

## Model

| member | source | states |
|---|---|---|
| `CrcRegister.ShiftLinear` | absl/crc/internal/crc.cc:83-98 | one step of the register is linear over xor, for every polynomial |
| `CrcRegister.ShiftInverse` | absl/crc/internal/crc.cc:404-410 | with a polynomial whose top bit is set, the backward step undoes the forward step and the other way round, so a step is a bijection |
| `CrcRegister.FoldAffine` | absl/crc/crc32c.cc:67-71 | folding a string into register r is the same as folding it into 0 and adding r shifted by the length: the law behind every arithmetic function below |
| `CrcRegister.FoldZeroes` | absl/crc/internal/crc.cc:400-402 | folding n zero bytes is shifting the register 8n times |
| `CrcTables.TimesPower` | absl/crc/internal/crc.cc:83-98 | multiplying by the k-th power of x in the quotient ring is shifting k times, for every polynomial and k |
| `CrcTables.PolyMultiply` | absl/crc/internal/crc.cc:83-98 | the bit loop computes the product in the quotient ring |
| `CrcTables.FillWordTable` | absl/crc/internal/crc.cc:101-135 | every entry m of every table row is the word m shifted by that row's number of bits, although only powers of two are computed and the rest are sums |
| `CrcEngine.FillZeroesTable` | absl/crc/internal/crc.cc:137-162 | entry 15b + a - 1 of the table is x to the power 8 * a * 16^b, and exactly 240 entries are filled before the 64-bit length wraps |
| `CrcWide.Reduce` | absl/crc/internal/crc.cc:360-398 | one table step on a 64-bit register keeps the value it stands for |
| `CrcWide.ByteProductIsProduct` | absl/crc/internal/crc.cc:360-398 | four lookups of two bits each give the product of a byte with a word |
| `CrcEngine.MultiplyReduce` | absl/crc/internal/crc.cc:360-398 | the four-multiples trick with byte-wise reduction computes the product in the quotient ring |
| `CrcEngine.ExtendByZeroesImpl` | absl/crc/internal/crc.cc:360-398 | for every length below 2^64 the base-16 digit loop shifts the register by 8 * length bits |
| `CrcEngine.StartSwath` | absl/crc/internal/crc.cc:281-288 | reading the first 16 bytes into four words stands for the register after those bytes |
| `CrcEngine.Stride` | absl/crc/internal/crc.cc:290-322 | advancing all four words by 16 bytes keeps what they stand for |
| `CrcEngine.Rotate` | absl/crc/internal/crc.cc:324-334 | advancing one word by 4 bytes and renaming the words keeps what they stand for |
| `CrcEngine.ReversedShift` | absl/crc/internal/crc.cc:221-251 | a step with the reversed polynomial on the reversed register is a backward step |
| `CrcEngine.CRC32.constructor` | absl/crc/internal/crc.cc:184-257 | all tables are what the other methods need |
| `CrcEngine.CRC32.Extend` | absl/crc/internal/crc.cc:259-358 | for every string, start register and address the interleaved table engine equals the bit-serial register |
| `CrcEngine.CRC32.ExtendSwaths` | absl/crc/internal/crc.cc:281-350 | the interleaved part stops at a position whose prefix the register stands for |
| `CrcEngine.CRC32.ExtendByZeroes` | absl/crc/internal/crc.cc:400-402 | equals shifting by 8 * length |
| `CrcEngine.CRC32.UnextendByZeroes` | absl/crc/internal/crc.cc:404-410 | equals undoing 8 * length shifts, through bit reversal |
| `Crc32c.ExtendCrc32cInline` | absl/crc/internal/crc32c_inline.h:31-66 | with the hardware instruction any split of the buffer into 1, 2, 4 and 8 byte operands gives the extended checksum; without it nothing is done |
| `Crc32c.ExtendCrc32cInternal` | absl/crc/crc32c.cc:46-53 | equals the extended checksum |
| `Crc32c.ExtendCrc32c` | absl/crc/crc32c.h:95-106 | short and long path agree, and extending the checksum of a by b gives the checksum of a + b |
| `Crc32c.ComputeCrc32c` | absl/crc/crc32c.cc:57-59 | the checksum of the buffer |
| `Crc32c.ComputeIsExtend` | absl/crc/crc32c.h:91-92 | extending the checksum 0 is computing the checksum |
| `Crc32c.ChunksExtend` | absl/crc/crc32c.h:95-106 | extending by any list of chunks equals extending once by their concatenation |
| `Crc32c.ExtendCrc32cByZeroes` | absl/crc/crc32c.cc:61-65 | equals extending by that many zero bytes |
| `Crc32c.UnextendCrc32cByZeroes` | absl/crc/crc32c.cc:40-44 | extending the result by the same length gives the argument back |
| `Crc32c.ZeroesUndone` | absl/crc/crc32c.cc:40-65 | extending and unextending by zeroes cancel in both orders |
| `Crc32c.ConcatIsCrc` | absl/crc/crc32c.cc:67-71 | for all a and b, combining their finished checksums gives the checksum of a + b although the 0xffffffff mask is still applied |
| `Crc32c.ConcatCrc32c` | absl/crc/crc32c.cc:67-71 | the method computes that combination, hence the checksum of a + b |
| `Crc32c.PrefixRemoved` | absl/crc/crc32c.cc:73-75 | concatenating crc(a) with crc(a + b) gives crc(b) |
| `Crc32c.RemoveCrc32cPrefix` | absl/crc/crc32c.cc:73-75 | for all a and b with these checksums the result is crc(b) |
| `Crc32c.SuffixRemovedIsCrc` | absl/crc/crc32c.cc:90-96 | removing crc(b) from crc(a + b) gives crc(a), which needs the step to be a bijection |
| `Crc32c.RemoveCrc32cSuffix` | absl/crc/crc32c.cc:90-96 | for all a and b with these checksums the result is crc(a) |
| `CrcBursts.FoldBits` | absl/crc/internal/crc.cc:83-98 | feeding bytes is feeding their bits one at a time, low bit first |
| `CrcBursts.FeedWord` | absl/crc/internal/crc.cc:83-98 | up to 32 bits may be added to the register at once and shifted out together |
| `CrcBursts.ShortBurstsDetected` | absl/crc/crc32c.h:19-20 | two strings of one length whose bits differ only inside some window of 32 consecutive bits, aligned to bytes or not, never share a checksum |
| `Crc32c.KnownAnswer` | absl/crc/crc32c_test.cc:30-38 | 32 zero bytes have checksum 0x8a9136aa, the first example of Appendix B.4 of RFC 3720 |
| `Crc32c.KnownAscending` | absl/crc/crc32c_test.cc:45-48 | the bytes 0 to 31 have checksum 0x46dd794e, which also fixes the order of bytes and bits |
| `FlagExpansion.ActionAt` | absl/flags/parse.cc:794-866 | an action takes one argument, or two when a value stands in the next one, and never reaches past its own list |
| `FlagExpansion.ThenAssoc` | absl/flags/parse.cc:774-866 | running one part after another is associative, also across errors, terminators and aborts |
| `FlagExpansion.ListDeeper` | absl/flags/parse.cc:774-866 | once the recursive expansion is not cut off at some depth of inclusion, it is the same at every greater depth |
| `FlagExpansion.Coverage` | absl/flags/parse.cc:794-876 | unless the parse aborts or is cut off, each position of argv from 1 on is used exactly once and in order, up to the terminator or the end |
| `FlagStack.PushedRest` | absl/flags/parse.cc:342-466 | pushing the lists of waiting sources in reverse makes the stack stand for their expansion, first source first, followed by what was left |
| `FlagStack.TurnDrops` | absl/flags/parse.cc:780-789 | dropping an exhausted list costs one step and leaves the rest as it was |
| `FlagStack.TurnActs` | absl/flags/parse.cc:780-866 | one turn of the loop performs the next action of the expansion; the sources it names come before the rest of its list; a terminator or positional argument below argv is where the internal check fails |
| `FlagParser.Parser.ReadFromFlagfile` | absl/flags/parse.cc:182-229 | the list holds exactly the flag lines of the file, and the read fails on a missing file, on -- and on any other line |
| `FlagParser.Parser.ReadFlagfiles` | absl/flags/parse.cc:337-356 | when all files are readable the stack is the old one with the list of the last file first and that of the first file on top; otherwise it reports failure |
| `FlagParser.Parser.ReadFlagsFromEnv` | absl/flags/parse.cc:363-404 | one list with an argument for each variable that is set; recursive names and, for fromenv, missing ones are errors |
| `FlagParser.Parser.HandleGeneratorFlags` | absl/flags/parse.cc:410-466 | everything that waits is read and pushed, flagfiles lowest, then fromenv, then tryfromenv; nothing waits any more, and flagfile values are collected exactly while only argv is on the stack |
| `FlagParser.Parser.SetFlag` | absl/flags/parse.cc:846-865 | sets the value when it is accepted, records the flag, and leaves the named sources waiting; after a failed deduction the flag is still given the empty text |
| `FlagParser.Parser.Turn` | absl/flags/parse.cc:780-866 | keeps the loop invariant: results so far are those of the events so far, and events so far followed by the rest are the whole expansion; stack and waiting sources change as LoopTurn says |
| `FlagParser.Parser.Round` | absl/flags/parse.cc:774-866 | a whole turn, reading included, keeps the same invariant and is one LoopTurn |
| `FlagParser.Parser.ResetGeneratorFlags` | absl/flags/parse.cc:470-492 | flagfile gets the collected values, fromenv and tryfromenv are emptied, nothing waits |
| `FlagParser.Parser.Parse` | absl/flags/parse.cc:737-892 | for every argv, files and environment with which the loop ends at all, the flag values, positional arguments, unknown flags, success bit and recorded flags are those of the recursive left-to-right expansion; it crashes exactly when the expansion aborts or argv is empty |
| `FlagParser.Parser.WasPresent` | absl/flags/parse.cc:635-642 | true exactly when a recorded flag has the name, by binary search after the sort |
| `FlagParser.FilterUnknown` | absl/flags/parse.cc:884-892 | keeps exactly the unknown flags that undefok does not excuse, in order |
| `FlagResults.PositionalOrder` | absl/flags/parse.cc:761-876 | the positional arguments are argv[0], then strictly increasing positions, including all after the terminator |
| `FlagResults.PresentIff` | absl/flags/parse.cc:856-881 | a name is present in the sorted record exactly when some processed argument successfully set a flag of that name |
| `FlagResults.FlagForms` | absl/flags/parse.cc:273-312 | what a name after one or two dashes asks for, over the registry alone: the flag of that name if there is one, even if it starts with no; else the flag named after a leading no, negated; else a usage flag or an unknown one; for every flag type, with and without a value |
| `FlagResults.NegatedForm` | absl/flags/parse.cc:301-312 | for a registered name n without a flag named no + n, --non sets a bool flag to 0 and is an error for any other type or with a value |
| `FlagResults.PositionalIff` | absl/flags/parse.cc:797-805 | an argument is positional exactly when it is empty, does not start with a dash or is a lone dash |
| `FlagResults.EveryArgument` | absl/flags/parse.cc:797-832 | every argument is positional, a terminator, or a name with one or two dashes and perhaps a value |
| `FlagMeaning.OneLine` | absl/flags/parse.cc:199-228 | a line without leading white space is skipped when empty or a comment, is an argument when it starts with a dash and is not --, and fails the file otherwise |
| `FlagMeaning.LinesInOrder` | absl/flags/parse.cc:182-229 | a file is read part by part, in order, and fails when one of its parts fails |
| `FlagMeaning.FlagfileInPlace` | absl/flags/parse.cc:337-356 | --flagfile stands for the events of its files, the first file first, between itself and the arguments that follow it |
| `FlagMeaning.TwoFlagfiles` | absl/flags/parse.cc:337-356 | the events of --flagfile=a,b are its own, those of a, those of b, and those of the rest |
| `FlagMeaning.EnvFails` | absl/flags/parse.cc:369-396 | fromenv fails exactly when a variable is not set or a name is fromenv or tryfromenv; tryfromenv fails only for those names |
| `FlagMeaning.EnvArgsAre` | absl/flags/parse.cc:363-404 | there is one argument for each variable that is set, with its value, in the order of the names |
| `FlagMeaning.GeneratorSources` | absl/flags/parse.cc:410-466 | which flag brings in files, which a strict and which a lenient environment list |
| `FlagMeaning.LastAssignmentWins` | absl/flags/parse.cc:846-865 | a flag ends with the value of its last accepted assignment, a list flag with the pieces between commas |
| `FlagMeaning.UntouchedStays` | absl/flags/parse.cc:846-865 | a flag without an accepted assignment keeps its value |
| `FlagMeaning.WhenFine` | absl/flags/parse.cc:846-865 | a retired flag takes no value and is no error; any other assignment is an error exactly when its value is missing or refused |
| `FlagMeaning.CollectedAre` | absl/flags/parse.cc:410-428 | the flagfiles collected are exactly those named on the command line itself |
| `FlagMeaning.UsageNames` | absl/flags/internal/usage.cc:468-521 | the usage flags are exactly eight names |
| `FlagMeaning.ReportedIff` | absl/flags/parse.cc:884-892 | an unknown flag is reported exactly when undefok holds neither its name nor the name without no |
| `FlagMeaning.ReportedInOrder` | absl/flags/parse.cc:884-892 | the reported flags stay in order |
| `FlagMeaning.UnknownIff` | absl/flags/parse.cc:834-844 | the unknown flags are exactly the names looked up in vain, with where they stood |
| `FlagMeaning.PositionalExactly` | absl/flags/parse.cc:761-876 | a position of argv is returned as positional exactly when it is 0, or behind a terminator that was acted on, or acted on itself and a positional text |
| `FlagCrashes.LineArgsShape` | absl/flags/parse.cc:199-228 | only lines that start with a dash and are not -- become arguments of a flagfile list |
| `FlagCrashes.FlagLineCrashes` | absl/flags/parse.cc:797-827 | such an argument is positional exactly when it is a lone dash and a terminator exactly when it starts with -= or --= |
| `FlagCrashes.TerminatorIff` | absl/flags/parse.cc:807-827 | an argument is a terminator exactly when it is -- or starts with -= or --= |
| `FlagCrashes.AbortsIff` | absl/flags/parse.cc:797-827 | whenever the loop ends, an internal check fails exactly when a chain of included lists leads from a waiting source, or from an argument acted on before the terminator, to an acted-on argument that is a lone dash or starts with -= or --= |
| `FlagCrashes.NoTripNoAbort` | absl/flags/parse.cc:797-827 | when no list that may be included holds such an argument no internal check fails, whether the loop ends or not |
| `FlagCrashes.EnvTrips` | absl/flags/parse.cc:369-396 | the argument made from an environment variable is such an argument exactly when the name asked for is empty or starts with = |
| `FlagCrashes.DashInFlagfile` | absl/flags/parse.cc:199-228 | --flagfile=f with a lone dash in f fails the check |
| `FlagCrashes.EmptyNameInEnvironment` | absl/flags/parse.cc:363-404 | --fromenv=, with the variable FLAGS_ set fails the check |
| `FlagTermination.TurnLeft` | absl/flags/parse.cc:774-866 | a turn of the loop takes exactly one step off what the expansion of its stack and waiting sources has left |
| `FlagTermination.TurnRight` | absl/flags/parse.cc:774-866 | if what is left after a turn can be expanded, what was left before can be, one level deeper |
| `FlagTermination.TurnsOfLoop` | absl/flags/parse.cc:774-866 | when the expansion is not cut off the stack becomes empty after exactly as many turns as it counts, and not before |
| `FlagTermination.EndsIffDeepEnough` | absl/flags/parse.cc:774-866 | the loop ends exactly when at some depth the expansion is not cut off, which is what Parse asks for |
| `FlagCycles.RankedEnds` | absl/flags/parse.cc:774-866 | when every included list has a lower rank than the list that includes it, the bound of the ranking is deep enough |
| `FlagCycles.EndsIffRanked` | absl/flags/parse.cc:774-866 | when no list that may be included fails an internal check, the loop ends exactly when such a ranking exists; the rank of a list is the least depth of its expansion |
| `FlagCycles.DepthSuffices` | absl/flags/parse.cc:774-866 | if any depth is enough, the number of lists that may be included is |
| `FlagCycles.UniverseHolds` | absl/flags/parse.cc:342-466 | the lists named by argv, by any file or by any variable, with those that wait, include nothing else |
| `FlagCycles.EndsIff` | absl/flags/parse.cc:774-866 | for every argv, files and environment, aborting or not: the loop ends exactly when the expansion to the depth of the number of those lists is not cut off |
| `FlagCycles.SelfInclusion` | absl/flags/parse.cc:774-866 | with --flagfile=f and a file f that holds --flagfile=f the stack is never empty, after any number of turns |
| `FlagCycles.EndsUnranked` | absl/flags/parse.cc:797-805 | with f holding --flagfile=g and --flagfile=f, and g a lone dash, the loop ends in the failed check although no ranking exists |
| `NameOrder.Sort` | absl/flags/parse.cc:880-881 | the result is sorted by name and a permutation |
| `NameOrder.LessIff` | absl/flags/parse.cc:880-881 | the order is decided by the first difference, and a proper prefix comes first |
| `NameOrder.PartitionPoint` | absl/flags/reflection.cc:100-106 | the position at which names stop being smaller than the key |
| `NameOrder.BinarySearch` | absl/flags/parse.cc:639-641 | true exactly when an element has the name |
| `EditDistance.NoCheaperScript` | absl/strings/internal/damerau_levenshtein_distance.cc:24-33 | no script of edits that turns one text into the other costs less than the recursive distance |
| `EditDistance.CheapestScript` | absl/strings/internal/damerau_levenshtein_distance.cc:24-33 | some script reaches the distance, so it is the least cost when no character is edited twice |
| `EditDistance.Symmetric` | absl/strings/internal/damerau_levenshtein_distance.cc:40-40 | the distance does not depend on the order of the texts, so swapping them is allowed |
| `EditDistance.AtLeastGap` | absl/strings/internal/damerau_levenshtein_distance.cc:41-42 | the distance is at least the difference in length and at most the longer length |
| `EditDistance.InnerCell` | absl/strings/internal/damerau_levenshtein_distance.cc:75-86 | a cell of the band is right when its neighbours are: never below the capped distance, and exact wherever a path within the cap can pass |
| `EditDistance.BelowBand` | absl/strings/internal/damerau_levenshtein_distance.cc:60-66 | the cells set left of the band are right |
| `EditDistance.AboveBand` | absl/strings/internal/damerau_levenshtein_distance.cc:68-74 | the cells set right of the band are right |
| `EditDistance.FillRow` | absl/strings/internal/damerau_levenshtein_distance.cc:57-86 | reads filled cells only and leaves every cell of the row right |
| `EditDistance.CappedDistance` | absl/strings/internal/damerau_levenshtein_distance.cc:34-88 | for all texts and caps the banded table gives the distance up to the cap plus one; a text over 100 characters counts as beyond it |
| `MisspellingHints.BestHints.AddHint` | absl/flags/parse.cc:648-658 | keeps the best distance and the hints at it, and refuses once 100 hints are held |
| `MisspellingHints.CapSuffices` | absl/flags/parse.cc:672-673 | comparing with the cap set to the best distance so far decides the same as comparing with the real distance |
| `MisspellingHints.GetMisspellingHints` | absl/flags/parse.cc:666-691 | the hints are, in visiting order, the candidates at the least distance among those visited before the list was full, and at most 100 |
| `MisspellingHints.FlagCandidatesAre` | absl/flags/parse.cc:671-683 | the candidates are the names of all flags and, for bool flags, the names with no in front |
| `MisspellingHints.UndefokCandidatesAre` | absl/flags/parse.cc:684-690 | and the names in undefok, shown with a remark |
| `MisspellingHints.ExactIff` | absl/flags/parse.cc:666-691 | they are the closest of all candidates exactly when every candidate left out is farther |
| `MisspellingHints.HintsWithinReach` | absl/flags/parse.cc:666-691 | all hints share one distance, which is at most one more than the cutoff, and there are none when every candidate is farther |
| `MisspellingHints.HintsGivenIff` | absl/flags/parse.cc:666-691 | hints are given exactly when some candidate is within reach |
| `MisspellingHints.DocumentedBoundIff` | absl/flags/parse.cc:82-83 | all hints are below the documented distance exactly when no candidate is within reach or one visited is below it |
| `MisspellingHints.HintAtDistanceFour` | absl/flags/parse.cc:667-669 | wxyz is suggested for abcd, at distance 4 |
| `MisspellingHints.FullListMissesExactName` | absl/flags/parse.cc:649-649 | a hundred names at distance 1 hide a later name at distance 0 |
| `CallOnce.StepInv` | absl/base/call_once.h:145-214 | every atomic step of every thread, also with stale loads, keeps the invariant |
| `CallOnce.Reachable` | absl/base/call_once.h:145-214 | every state of every run of any number of threads meets the invariant |
| `CallOnce.AtMostOnce` | absl/base/call_once.h:173-181 | in every run fn starts at most once and the debug check never fails |
| `CallOnce.StartsOnce` | absl/base/call_once.h:145-160 | in every run at most one step, of one thread, starts fn |
| `CallOnce.ReturnsAfterFn` | absl/base/call_once.h:170-185 | a call that returned ran fn itself or read the release write of kOnceDone with an acquire load, fn has finished, and its effects are visible |
| `CallOnce.RunsAlone` | absl/base/call_once.h:173-181 | while fn runs no other thread runs it, wakes sleepers or has returned |
| `CallOnce.NoLostWakeup` | absl/base/call_once.h:162-185 | a sleeping thread implies that the word is kOnceWaiter with a runner still to exchange it, or that the runner is about to wake all |
| `CallOnce.Progress` | absl/base/call_once.h:162-185 | while a call has not returned some thread in a call has a step that brings all calls strictly closer to their end; it reads the newest write and is not a spurious end of a sleep, so it rests on the wake-up |
| `CallOnce.FirmCloser` | absl/base/call_once.h:145-214 | every step of every thread inside a call that reads the newest write and is not spurious makes one measure smaller |
| `CallOnce.NeverStuck` | absl/base/call_once.h:145-214 | every run can be continued, without one spurious wake-up, until every call has returned |
| `CallOnce.CallReturns` | absl/base/call_once.h:205-214 | from every run and for every thread not in a call, for the first time or again, there is a run in which it calls next and returns, with fn started once and finished |
| `CallOnce.FastPath` | absl/base/call_once.h:205-214 | once fn is done a call that reads the newest write returns from its first load |
| `CallOnce.EveryScheduleEnds` | absl/base/call_once.h:145-214 | however the threads take turns, at most 24 such steps for each thread and 3 more can follow one another from any reachable state, and until every call has returned there is always another one |
| `CallOnce.FallsAsleep` | absl/base/internal/spinlock_linux.inc:59-64 | in every run a thread falls asleep only in the futex call and only while the word is still kOnceWaiter, the value it saw |
| `VectorCells.ConstructElements` | absl/container/internal/inlined_vector.h:139-151 | constructs into raw memory only, each value read when it is needed, and counts every element begun |
| `VectorCells.AssignElements` | absl/container/internal/inlined_vector.h:153-159 | gives the values as they were before, also when the adapter points into the buffer being assigned to |
| `VectorCells.DestroyElements` | absl/container/internal/inlined_vector.h:98-106 | destroys elements only, leaves raw memory, and counts every element ended |
| `VectorCells.OpenGap` | absl/container/internal/inlined_vector.h:769-806 | opens the gap for an insertion by constructing behind the end and assigning backwards, loses no element, and says which cells of the gap still hold elements |
| `VectorCells.InsertInPlace` | absl/container/internal/inlined_vector.h:768-818 | prefix, new elements, suffix, raw memory, for every position and count that fits |
| `VectorCells.InsertElsewhere` | absl/container/internal/inlined_vector.h:739-767 | the same in a new block, with the old buffer left raw; a value read from the old buffer is read before anything is moved |
| `VectorCells.EraseInPlace` | absl/container/internal/inlined_vector.h:873-893 | the elements in front and behind remain in order and the cells left over are raw |
| `VectorCells.AssignInPlace` | absl/container/internal/inlined_vector.h:654-683 | all values of the input, whatever the old size |
| `VectorCells.SwapElements` | absl/container/internal/inlined_vector.h:1016-1070 | two inline buffers of any sizes are exchanged, under both elementwise policies |
| `VectorWorld.ReleasedSound` | absl/container/internal/inlined_vector.h:520-525 | freeing a block removes its only owner and logs it once |
| `VectorWorld.HousedSound` | absl/container/internal/inlined_vector.h:483-486 | a new block gets exactly one owner |
| `VectorWorld.AdoptedSound` | absl/container/internal/inlined_vector.h:488-518 | after MemcpyFrom and SetInlinedSize(0) the block has one owner again and only the two vectors changed |
| `VectorWorld.ExchangedSound` | absl/container/internal/inlined_vector.h:972-980 | swapping storages swaps contents and owners |
| `VectorWorld.NothingLeaks` | absl/container/inlined_vector.h:181-294 | when no vector is left no block is live and every block handed out was freed exactly once |
| `VectorWorld.TotalPut` | absl/container/inlined_vector.h:181-294 | replacing the contents of one vector changes the number of elements by exactly the difference |
| `InlinedVector.Vectors.Construct` | absl/container/internal/inlined_vector.h:610-640 | the new vector holds the range, inline when it fits, otherwise in a block of twice the inline capacity or the size, whichever is larger |
| `InlinedVector.Vectors.CopyConstruct` | absl/container/inlined_vector.h:181-202 | the new vector equals the source, which keeps its contents, on all three paths, with the capacity of each path |
| `InlinedVector.Vectors.MoveConstruct` | absl/container/inlined_vector.h:216-249 | the new vector has the contents, nothing is allocated, and the source is empty when it was on the heap or is trivially relocatable, otherwise it keeps as many moved-from elements |
| `InlinedVector.Vectors.Destroy` | absl/container/internal/inlined_vector.h:355-373 | its elements end, its memory is given back, and the others are untouched; the books of elements begun and ended balance |
| `InlinedVector.Vectors.Assign` | absl/container/internal/inlined_vector.h:642-683 | the contents become the input, also n copies of an element of the vector itself; the capacity stays when it suffices and otherwise becomes the larger of twice itself and the need |
| `InlinedVector.Vectors.CopyAssign` | absl/container/inlined_vector.h:532-539 | the target equals the source, self-assignment changes nothing |
| `InlinedVector.Vectors.MoveAssign` | absl/container/inlined_vector.h:546-552 | the target has the contents under each of the three policies, nothing is allocated, what the source keeps is fixed by policy and storage, self-assignment changes nothing |
| `InlinedVector.PoliciesAllowed` | absl/container/internal/inlined_vector.h:313-335 | each way to move-assign or swap is chosen only for value types that allow it |
| `InlinedVector.Vectors.DestroyExistingAndAdopt` | absl/container/inlined_vector.h:843-873 | exactly the old elements of the target end, its block is freed, and the storage of the source changes hands without an element being made; also the memcpy policy |
| `InlinedVector.Vectors.MoveAssignInlined` | absl/container/inlined_vector.h:875-908 | both elementwise policies deliver the contents and leave moved-from elements behind, and nothing is constructed over a living element |
| `InlinedVector.Vectors.Insert` | absl/container/inlined_vector.h:634-730 | prefix, range, suffix at the same index, in place or in a new block; the capacity stays when it suffices and otherwise becomes the larger of twice itself and the need |
| `InlinedVector.Vectors.EmplaceBack` | absl/container/internal/inlined_vector.h:821-870 | appends the value, also when it is an element of the vector and the block is replaced; a full vector gets exactly twice its capacity |
| `InlinedVector.Vectors.PopBack` | absl/container/inlined_vector.h:761-766 | drops the last element and keeps the capacity |
| `InlinedVector.Vectors.Erase` | absl/container/inlined_vector.h:786-797 | drops the range, returns its start and keeps the capacity |
| `InlinedVector.Vectors.Clear` | absl/container/inlined_vector.h:803-809 | no elements, no block, and exactly the elements there were have ended |
| `InlinedVector.Vectors.ShrinkToFit` | absl/container/internal/inlined_vector.h:922-968 | same contents; inline exactly when they fit, otherwise a block of exactly the size |
| `InlinedVector.Vectors.Swap` | absl/container/internal/inlined_vector.h:971-1012 | contents and capacities exchanged in all combinations of heap and inline, nothing allocated or freed |
| `InlinedVector.Vectors.AssignOnce` | absl/container/inlined_vector.h:584-592 | a single-pass range replaces the contents, whatever the old size |
| `InlinedVector.Vectors.InsertOnce` | absl/container/inlined_vector.h:696-707 | one insertion per element gives prefix, range, suffix and the original index, across reallocations |
| `InlinedVector.Vectors.Run` | absl/container/inlined_vector.h:181-294 | every script of operations on any number of vectors behaves like plain sequences step by step, each live block keeps exactly one owner, and when all vectors are destroyed each block was freed exactly once and as many elements have ended as ever began |
| `FlagRegistry.StepOk` | absl/flags/reflection.cc:113-213 | registering and freezing keep the registry consistent with its history; once frozen the array never changes |
| `FlagRegistry.FrozenStays` | absl/flags/reflection.cc:196-213 | in every run the array stays sorted, and from the freeze on it stays the same |
| `FlagRegistry.FindsFirst` | absl/flags/reflection.cc:98-111 | an undisturbed lookup returns the first flag registered under the name, or nothing, before and after the freeze |
| `FlagRegistry.FindRace` | absl/flags/reflection.cc:98-111 | a lookup overtaken by other threads is right exactly when no freeze fell between its check and its lock, or the name is not in the frozen array |
| `FlagRegistry.FindLinear` | absl/flags/reflection.cc:98-111 | its answer was right at some moment between check and lock exactly when no freeze fell in between, or the array does not hold the name, or the name was unknown at the check and is in no map at the lock |
| `FlagRegistry.VisitRace` | absl/flags/reflection.cc:178-187 | an overtaken ForEachFlag visits every flag exactly once exactly when no freeze fell between its check and its lock, or nothing was frozen |
| `FlagRegistry.LostLookup` | absl/flags/reflection.cc:98-187 | a run in which a registered flag is neither found nor visited |
| `FlagRegistry.DuplicateAccepted` | absl/flags/reflection.cc:128-165 | a second registration of a name slips through exactly when the first one sits in the frozen array and not in the map |
| `FlagRegistry.DuplicateRun` | absl/flags/reflection.cc:113-213 | a run that keeps two different flags of one name |
| `FlagRegistry.Registry.RegisterFlag` | absl/flags/reflection.cc:113-168 | exits exactly when the file name does not match or a flag of the name is there, unless both are retired and of one type; otherwise inserts a new name or returns |
| `FlagRegistry.DuplicateExits` | absl/flags/reflection.cc:132-167 | a second flag of a name exits exactly when the two differ in being retired or in type, or the first is live |
| `FlagRegistry.Registry.FinalizeRegistry` | absl/flags/reflection.cc:196-213 | the array is a sorted permutation of the map, the map is empty, and a second call does nothing |
| `FlagRegistry.Registry.FindFlag` | absl/flags/reflection.cc:98-111 | the first flag registered under the name |
| `FlagRegistry.Registry.ForEachFlag` | absl/flags/reflection.cc:178-187 | undisturbed, visits every flag that entered the registry exactly once |
| `DecimalText.DecimalSplit` | absl/strings/numbers.cc:272-308 | a number is the text of its upper part followed by the padded text of its lower part |
| `DecimalText.ZeroBits` | absl/strings/numbers.cc:194-204 | counting trailing zero bits and rounding down to bytes counts the leading zero digits |
| `FastInteger.AllBy10` | absl/strings/numbers.cc:180-193 | one multiplication by 103 and a mask divide all 16-bit fields of a word by ten |
| `FastInteger.SpreadIsDigits` | absl/strings/numbers.cc:180-193 | with every operation reduced to its machine word, the tens and remainders side by side are the digits of all fields |
| `FastInteger.PairBy100` | absl/strings/numbers.cc:210-214 | one multiplication by 10486 and a mask divide both halves by a hundred |
| `FastInteger.EightDigits` | absl/strings/numbers.cc:210-220 | computed modulo 2^64 at every step, the word holds the eight decimal digits of hi * 10000 + lo |
| `FastInteger.TenThousandDigits` | absl/strings/numbers.cc:180-193 | computed modulo 2^32 and 2^64 as the source does, the word holds the four decimal digits |
| `FastInteger.StrippedIsDecimal` | absl/strings/numbers.cc:222-235 | shifting the leading zero bytes out leaves the decimal text |
| `FastInteger.EncodeHundred` | absl/strings/numbers.cc:169-178 | appends the decimal text of a number below 100 |
| `FastInteger.EncodeTenThousand` | absl/strings/numbers.cc:180-206 | appends the decimal text of a positive number below 10000 |
| `FastInteger.EncodeFullU32` | absl/strings/numbers.cc:222-241 | appends the decimal text of a positive 32-bit number |
| `FastInteger.FastUint32ToBuffer` | absl/strings/numbers.cc:245-258 | appends the decimal text of every 32-bit number and a terminator, and keeps what stands before |
| `FastInteger.FastUint64ToBuffer` | absl/strings/numbers.cc:272-310 | the same for every 64-bit number |
| `FastInteger.FastInt32ToBuffer` | absl/strings/numbers.cc:260-270 | the same for every signed 32-bit number, the smallest included |
| `FastInteger.FastInt64ToBuffer` | absl/strings/numbers.cc:312-319 | the same for every signed 64-bit number, the smallest included |
| `IntegerParse.ParsePositive` | absl/strings/numbers.cc:961-995 | succeeds exactly when all characters are digits and the number fits; what is left behind otherwise is the bound or the value in front of the first bad character; product and sum are asserted to stay within the bound |
| `IntegerParse.ParseNegative` | absl/strings/numbers.cc:998-1038 | the same downwards, the smallest number included |
| `IntegerParse.ParseSignAndBase` | absl/strings/numbers.cc:675-744 | sign, prefix and digits of the text without surrounding white space |
| `IntegerParse.ParseInteger` | absl/flags/marshalling.cc:70-82 | returns v exactly when the text denotes v and v is a value of the type; an unsigned type takes no minus sign; a failed parse leaves zero, the bound or the digits read so far in the destination |
| `IntegerParse.ParseShort` | absl/flags/marshalling.cc:84-91 | accepts exactly the numbers of 16 bits with sign and leaves the destination alone otherwise |
| `IntegerParse.ParseUnsignedShort` | absl/flags/marshalling.cc:93-101 | accepts exactly the numbers of 16 bits without sign and leaves the destination alone otherwise |
| `IntegerParse.IntegerRoundTrip` | absl/flags/marshalling.cc:166-173 | every value of every integer type is read back from its text |
| `IntegerParse.OutOfRangeRefused` | absl/flags/marshalling.cc:70-82 | the text of a number outside the type is refused |
| `IntegerParse.MinusRefused` | absl/strings/numbers.cc:1057-1066 | an unsigned type refuses every text with a minus sign |
| `IntegerParse.HexRoundTrip` | absl/flags/marshalling.cc:70-82 | every number that is not negative is read back from its hexadecimal text, with small or capital digits after 0x or 0X |
| `IntegerParse.PlusSign` | absl/strings/numbers.cc:692-700 | a plus sign before a decimal text changes nothing |
| `IntegerParse.LeadingZero` | absl/flags/marshalling.cc:70-75 | a leading zero does not change the base |
| `IntegerParse.SpacesAround` | absl/strings/numbers.cc:675-690 | white space around the text changes nothing |
| `IntegerParse.TypeRanges` | absl/flags/marshalling.cc:103-122 | the ranges are those of 32 and 64 bits, with and without sign |
| `IntegerParse.SignedHexRejected` | absl/flags/marshalling.cc:70-75 | a sign before a 0x prefix is always refused |
| `FlagMarshalling.UnparseInteger` | absl/flags/marshalling.cc:166-173 | the encoder writes the decimal text, and that text is accepted as the value |
| `FlagMarshalling.ParseBool` | absl/flags/marshalling.cc:45-62 | true and false for exactly the listed texts, in any case and with white space around them |
| `FlagMarshalling.BoolRoundTrip` | absl/flags/marshalling.cc:165-165 | both values are read back |
| `FlagMarshalling.SeverityRoundTrip` | absl/flags/marshalling.cc:202-238 | every 32-bit severity, named or not, is read back from its text |
| `FlagMarshalling.SeverityTexts` | absl/base/log_severity.h:54-69 | the four levels are written by name in capitals and every other number in base ten |
| `FlagMarshalling.SeverityDiffersIff` | absl/base/log_severity.h:51-58 | for every text the code and the documented reading differ exactly when the stripped text starts with k or K and the rest is no name but an accepted integer; there the documentation accepts nothing |
| `FlagMarshalling.LetterBeforeNumber` | absl/flags/marshalling.cc:209-209 | k before the decimal text of any 32-bit number, such as k5, is read as that number, which the documentation does not accept |
| `FlagMarshalling.ListTextRoundTrip` | absl/flags/marshalling.cc:150-160 | for every text, joining the parsed list gives the text back |
| `FlagMarshalling.ListRoundTrip` | absl/flags/marshalling.cc:150-198 | a list is read back exactly when its strings are free of commas and it is not [""] |
| `FlagMarshalling.OptionalTexts` | absl/flags/marshalling.h:241-254 | only the empty text means no value, and any other text is read as the inner type reads it |
| `FlagMarshalling.OptionalRoundTrip` | absl/flags/marshalling.h:241-287 | an optional is read back exactly when it is empty, or its value has a non-empty text that is read back |
| `FlagMarshalling.OptionalIntegers` | absl/flags/marshalling.h:241-287 | every optional integer is read back |
| `FlagMarshalling.OptionalLists` | absl/flags/marshalling.h:241-287 | an optional list is read back exactly when it is absent, or not empty, free of commas and not [""] |

## Left out

- Hardware and assembly paths of the checksum other than the one-instruction inline path, and the copying variant: they would repeat the same law on other instructions.
- Floating-point flags, durations and times: they rest on printf and strtod.
- Real file and environment access, usage messages, help output and exit codes: inputs and outcomes of the model.
- DeduceFlagValue's warning about a value that looks like a flag: it only prints.
- InlinedVector resize, reserve, comparison and element access: the same loops again, or one line each.
- InlinedVector with allocators that differ between vectors, and exceptions thrown by element operations: every element operation of the model succeeds.
- InlinedVector ranges that point into the vector they are inserted into: the source does not allow them; single elements are allowed and covered.
- call_once with an fn that throws or calls call_once on the same flag, futex waits with time limits, and cooperative scheduling hooks.
- FlagSaver and the bodies of flag objects, retired flags' reports included.
- VectorWorld.AdoptedSound: the bytes left behind in the source after a memcpy are taken as raw memory.
- FlagRegistry.FindRace: assumes that each flag object registers itself once, as its registrar does.
- FastInteger.AllBy10: a bit mask is the sum of the fields it keeps, not an operation on bit vectors.
- InlinedVector temporaries that insert copies a value into are not counted among the elements begun and ended; those of an elementwise swap are.
- VectorCells.Forget and VectorCells.CopyBytes: stand for what memcpy and giving up memory do to trivial types, where the source has no element loop.
