# Verification of mini_chromium's base library

A Dafny model of the parts of `base/` that hold its loops, shared state and
arithmetic, with machine-checked proofs of what they promise.

* **Wildcard matching** (`Glob`, `GlobLaws`, `GreedyExactness`,
  `GreedyTraps`, `PatternMatcher`, `PatternText`). The
  matcher looks for each literal segment as far left as it can and never goes
  back. It is proved against the relation documented in `pattern.h`: never wrong
  when it says yes, and right on all strings exactly for the patterns without a
  *trap*, which is read off the pattern. Where the code and its documentation
  disagree (`*a?b` on `axab`), the model follows the code.
* **Thread-local storage** (`TlsKeyInstall`, `TlsSlots`, `TlsThreadExit`). The
  race for the native key, the slots and tables over whole runs of any number of
  threads, and the destructor loop with arbitrary re-entrant destructors.
* **UTF-8 and UTF-16** (`Utf`, `UtfStrings`, `UtfLaws`, `UtfConversion`). The macros of the
  bundled `icu_utf.h` against RFC 3629 and RFC 2781, both conversions, their
  round trips, and what becomes of ill-formed input.
* **Safe numerics** (`IntegerTypes`, `SafeConversions`, `CheckedArithmetic`,
  `CheckedMath`, `CheckedNumerics`, `ClampedMath`, `NumericLaws`). Overflow detection,
  promotions, comparisons across types, saturating casts, expressions. All widths
  are parameters, those of `int`, `intptr_t` and `intmax_t` included.
* **Paths** (`FilePaths`), with drive letters and the set of separators as
  parameters.
* **Decimal parsing** (`NumberParsing`), for signed and unsigned types of five bits
  and more.
* **Lock ownership** (`LockOwnership`) in all interleavings, and **rejection
  sampling** (`RandomNumbers`).

Loops and objects that the C++ code updates in place are methods and classes
here, proved equal to functions; the properties are lemmas about those functions.
State shared between threads is a state machine with one atomic step at a time.

Where the code does not do what a reader might expect, the exact condition is
proved: patterns with a trap, range checks with a negative upper bound, clamped
sums of two types, checked operations on the widest signed and unsigned types, and
unsigned numbers with a minus sign.

`dafny verify dfyconfig.toml` checks everything.

## Model

| member | source | states |
|---|---|---|
| `Glob.MatchesIffPiecesMatch` | base/strings/pattern.h:12-16 | A string is in the documented relation (`?` zero or one character, `*` any number, `\` escapes) exactly when the literal segments of the pattern can be placed one after another with gaps the wildcard runs allow, the last one at the end |
| `Glob.GapMatches` | base/strings/pattern.cc:91-107 | A run of wildcards means what the number EatWildcards returns for it says: at most so many characters, or any number for a negative value |
| `Glob.First` | base/strings/pattern.cc:72-84 | The position where the search for a segment stops: placeable there, at no earlier allowed position, and -1 exactly if nowhere |
| `GlobLaws.EmptyPattern` | base/strings/pattern.h:12-16 | The empty pattern matches the empty string only |
| `GlobLaws.QuestionMark` | base/strings/pattern.h:16 | A question mark, code 63, in front of any pattern stands for no character or one |
| `GlobLaws.Asterisk` | base/strings/pattern.h:16 | An asterisk, code 42, in front of any pattern stands for any number of characters |
| `GlobLaws.Backslash` | base/strings/pattern.h:15 | A backslash, code 92, and a character in front of any pattern stand for that character |
| `GlobLaws.OrdinaryCharacter` | base/strings/pattern.cc:57-66 | Any other character in front of any pattern stands for itself, and an ill-formed one for nothing |
| `GlobLaws.ShortPatterns` | base/strings/pattern.h:12-16 | `*` matches every string, `?` those of at most one character, an escaped or ordinary character itself |
| `GlobLaws.DanglingLaws` | base/strings/pattern.cc:44-50 | A pattern is without dangling backslash exactly if each backslash has a character behind it |
| `GreedyExactness.Sound` | base/strings/pattern.cc:109-123 | Placing every segment as far left as possible succeeds only for strings in the relation |
| `GreedyExactness.Complete` | base/strings/pattern.cc:109-123 | For committed patterns (in front of every later run of `?` only there is a segment that the run before it can place in one way at most) it succeeds for every string in the relation |
| `GreedyExactness.BoundedRunOnlyFirstCommitted` | base/strings/pattern.cc:109-123 | A pattern in which any run of `?` only is the first run is committed |
| `GreedyExactness.Decides` | base/strings/pattern.cc:109-123 | For pattern strings: leftmost placement is sound on all of them and exact on the committed ones |
| `GreedyTraps.ExactIffNoTrap` | base/strings/pattern.cc:72-84 | The matcher decides the relation on all strings if and only if the pattern has no trap: a segment that can be placed a second time within its run, where the runs behind, each with a limit, cannot make up for the early placement. A trap is found in the pattern alone: a shift, and for each later limited run a text no longer than its limit |
| `GreedyTraps.PatternExactIffNoTrap` | base/strings/pattern.cc:109-123 | For every pattern string: leftmost placement decides the documented relation on all strings if and only if there is no trap, or an ill-formed character that nothing matches anyway |
| `GreedyTraps.ExactOnLettersIffNoTrap` | base/strings/pattern.cc:125-143 | The condition stays exact if only strings of the letters of the pattern and any one other character are asked about, so for well-formed text of either encoding |
| `GreedyTraps.TrapText` | base/strings/pattern.cc:72-84 | For each pattern with a trap, a string in the relation that the matcher rejects |
| `GreedyTraps.Deviates` | base/strings/pattern.cc:72-84 | Each string of the relation that the matcher rejects shows a trap of the pattern |
| `GreedyTraps.StarFreeExactIffCommitted` | base/strings/pattern.cc:72-84 | For patterns without `*` the condition is to be committed |
| `GreedyTraps.StarTrapIff` | base/strings/pattern.cc:72-84 | A segment behind a `*` run is in a trap exactly if the next run has a limit |
| `GreedyTraps.StarBeforeBoundedTraps` | base/strings/pattern.cc:109-123 | A `?`-only run anywhere after a `*` run is a trap |
| `GreedyTraps.TrapBeforeStars` | base/strings/pattern.cc:72-84 | If only `*` runs follow the next run, there is a trap exactly if a shift within the first run leaves no place for the next segment within its run in the text behind the early copy |
| `GreedyTraps.RigidNoTrap` | base/strings/pattern.cc:72-84 | A segment that its run can place in one way only has no part in a trap |
| `GreedyTraps.StarLetterQuestionLetter` | base/strings/pattern.cc:72-84 | `*a?b` matches `axab` by the documentation; the matcher says no |
| `GreedyTraps.LetterTwiceTraps` | base/strings/pattern.cc:72-84 | `?a?a*` has no trap and `???a?a*` has one, though neither is committed |
| `GreedyTraps.LetterTwiceRejected` | base/strings/pattern.cc:72-84 | `???a?a*` matches `axxaya` by the documentation; the matcher says no |
| `PatternMatcher.EatWildcards` | base/strings/pattern.cc:91-107 | Stops at the first character that is no wildcard, and returns the number of `?`, or -1 if there was a `*` |
| `PatternMatcher.SearchForChars` | base/strings/pattern.cc:24-85 | Finds the leftmost place for the next segment, escapes included, and leaves both positions behind it; false exactly if there is no place; the restarts terminate |
| `PatternMatcher.MatchPatternT` | base/strings/pattern.cc:109-123 | The loop terminates, each round shortening the pattern; without a dangling backslash the result is leftmost placement |
| `PatternMatcher.MatchPattern` | base/strings/pattern.cc:147-155 | Without a dangling backslash never wrongly true, and right on every string for committed patterns and for all that have no trap |
| `PatternText.MatchPattern8` | base/strings/pattern.cc:125-150 | The overload for UTF-8, on bytes: the same about the code points they decode to |
| `PatternText.MatchPattern16` | base/strings/pattern.cc:135-155 | The overload for UTF-16, on units; unpaired surrogates stand for themselves |
| `PatternText.Chars16WellFormed` | base/strings/pattern.cc:135-143 | Of well-formed UTF-16 the matcher sees the code points |
| `PatternText.Chars16Units` | base/third_party/icu/icu_utf.h:432-443 | The characters of the UTF-16 overload make up exactly the units |
| `PatternText.Chars16Paired` | base/third_party/icu/icu_utf.h:432-443 | None of them is half of a surrogate pair that should have been read as one |
| `TlsKeyInstall.StepOwners` | base/threading/thread_local_storage.cc:62-93 | Every step keeps each key in use with one owner: a thread or the global variable |
| `TlsKeyInstall.RunInv` | base/threading/thread_local_storage.cc:62-93 | In every interleaving every reachable state satisfies the invariant |
| `TlsKeyInstall.InstalledForGood` | base/threading/thread_local_storage.cc:83-92 | An installed key is never replaced and never freed |
| `TlsKeyInstall.SameKey` | base/threading/thread_local_storage.cc:62-93 | All threads that leave the key selection, at whatever times, hold the same key, which is in use and not the reserved value |
| `TlsKeyInstall.FreesOwnKeyOnly` | base/threading/thread_local_storage.cc:73-92 | A key about to be freed is in use, not installed, and held by no other thread |
| `TlsKeyInstall.OneKeyRemains` | base/threading/thread_local_storage.cc:62-93 | When all threads are through, the installed key is the only one in use, and all others were returned as often as handed out, reuse by the system included |
| `TlsKeyInstall.BoundedSteps` | base/threading/thread_local_storage.cc:62-93 | All threads together take at most seven steps each: no thread waits |
| `TlsKeyInstall.NeverStuck` | base/threading/thread_local_storage.cc:62-93 | A thread that is not through can always take a step |
| `TlsKeyInstall.LateThread` | base/threading/thread_local_storage.cc:63-66 | A thread that comes when a key is installed takes it in one step |
| `TlsKeyInstall.FirstWins` | base/threading/thread_local_storage.cc:80-92 | The compare-and-swap: the first key stays, and a later thread goes on to give its own back |
| `TlsSlots.StepInv` | base/threading/thread_local_storage.cc:203-250 | Every slot operation keeps indices distinct and below the mark, and leaves unused indices without values and destructors |
| `TlsSlots.MarkOnlyGrows` | base/threading/thread_local_storage.cc:211-213 | The mark of used indices never goes down over a run |
| `TlsSlots.IndicesNeverReused` | base/threading/thread_local_storage.cc:203-228 | Two Initialize calls of a run get different indices in 1..255, also after Free |
| `TlsSlots.GetReturnsLastSet` | base/threading/thread_local_storage.cc:95-113 | Get returns what the thread last set, whatever the others do, also if it was set while the table was still on the stack |
| `TlsSlots.NewSlotReadsNull` | base/threading/thread_local_storage.h:107-113 | A new slot reads as null on every thread until that thread sets it |
| `TlsSlots.DestructorsBelowMark` | base/threading/thread_local_storage.cc:143-154 | The scan from the mark downwards sees every destructor |
| `TlsSlots.SlotsFromHistory` | base/threading/thread_local_storage.cc:203-228 | The mark counts the Initialize calls, and each slot object has exactly the index and readiness that the last action on it left |
| `TlsSlots.DestructorsFromHistory` | base/threading/thread_local_storage.cc:215-228 | In every run each index has the destructor that Initialize stored last, and none once its slot is freed |
| `TlsSlots.TablesFromHistory` | base/threading/thread_local_storage.cc:95-113 | A thread has the table that it made last, on the stack or on the heap, until it exits |
| `TlsSlots.StepIffEnabled` | base/threading/thread_local_storage.cc:203-250 | An action is possible exactly in the states where it should be; Initialize as long as fewer than 255 indices are used |
| `TlsThreadExit.ExitSpelled` | base/threading/thread_local_storage.cc:143-157 | Each call gets the value that was in its slot, that one entry is 0 when it starts, and nothing else happens between calls |
| `TlsThreadExit.CallsSpelled` | base/threading/thread_local_storage.cc:143-157 | The same step for every history of calls |
| `TlsThreadExit.NotLost` | base/threading/thread_local_storage.cc:143-161 | A slot with a value and a destructor that a pass has not visited yet is called in it, unless an earlier call changed the one or the other |
| `TlsThreadExit.InertExit` | base/threading/thread_local_storage.cc:115-169 | If destructors do nothing, exactly the slots with a value and a destructor are called, each once, downwards, with their values, and exactly they are 0 at the end, after one pass or two |
| `TlsThreadExit.IdleExit` | base/threading/thread_local_storage.cc:135-165 | With idle other threads the exit amid them is the plain one |
| `TlsThreadExit.NothingLeft` | base/threading/thread_local_storage.cc:135-165 | After a normal return no slot up to the mark has both a value and a destructor, whatever the destructors did |
| `TlsThreadExit.NothingLeftAmid` | base/threading/thread_local_storage.cc:135-165 | Neither has any slot if other threads are at work before every visit of a slot, removing destructors and adding some for new slots |
| `TlsThreadExit.PassesBounded` | base/threading/thread_local_storage.cc:135-165 | A normal return takes at most 255 passes |
| `TlsThreadExit.ExitHistory` | base/threading/thread_local_storage.cc:143-161 | Each destructor got the non-null value of a slot that was cleared first, and only destructors changed the slots |
| `TlsThreadExit.CheckFailsIff` | base/threading/thread_local_storage.cc:164 | The CHECK on the attempts fails exactly if each of the first 255 passes finds a destructor to call |
| `TlsThreadExit.RankedFinishes` | base/threading/thread_local_storage.cc:135-165 | If destructors set only slots of lower rank, below R + 1 ranks, the loop is done within R + 2 passes |
| `TlsThreadExit.RanksUpTo253Finish` | base/threading/thread_local_storage.cc:135-165 | With ranks 0 to 253 the CHECK never fails |
| `TlsThreadExit.RanksUpTo254Fail` | base/threading/thread_local_storage.cc:135-165 | That bound is tight: with 255 ranks it can fail |
| `TlsThreadExit.ExitingThread.ScanSlots` | base/threading/thread_local_storage.cc:143-161 | The inner loop is one pass of the specification, on the arrays themselves |
| `TlsThreadExit.ExitingThread.OnThreadExit` | base/threading/thread_local_storage.cc:115-169 | The whole function ends as the specification says: the same calls in the same order, the same slots, the native value removed, or the CHECK failed |
| `Utf.Next8Exact` | base/third_party/icu/icu_utf.h:252-281 | CBU8_NEXT accepts exactly the sequences of section 4 of RFC 3629, with their values, and always moves on, by at most four bytes and not past the end |
| `Utf.Entries` | base/third_party/icu/icu_utf.h:142-159 | The two tables of valid second bytes, entry by entry |
| `Utf.Next8SkipsMaximalPart` | base/third_party/icu/icu_utf.h:252-281 | On ill-formed input it consumes the longest stretch that a well-formed sequence starts with, or one byte |
| `Utf.AsciiReads` | base/strings/pattern.cc:41-46 | An ASCII character is read where, and only where, its byte stands, so that looking at the byte for a wildcard or a backslash is looking at the character |
| `Utf.Encode8Value` | base/third_party/icu/icu_utf.h:296-313 | CBU8_APPEND_UNSAFE writes every Unicode scalar value as a sequence of RFC 3629 with that value |
| `Utf.Encode8Unique` | base/third_party/icu/icu_utf.h:296-313 | Every sequence of RFC 3629 is what is written for its value |
| `Utf.Next16Exact` | base/strings/utf_string_conversion_utils.cc:47-66 | Reading UTF-16 accepts exactly the sequences of section 2 of RFC 2781, with their values; an ill-formed read is one unit |
| `Utf.Encode16Value` | base/third_party/icu/icu_utf.h:457-464 | CBU16_APPEND_UNSAFE writes every scalar value as a sequence of RFC 2781 with that value |
| `Utf.Encode16Unique` | base/third_party/icu/icu_utf.h:457-464 | Every such sequence is what is written for its value |
| `UtfLaws.Examples` | base/third_party/icu/icu_utf.h:296-313 | A letter, an accented letter, the euro sign and a Gothic letter in both encodings, and three sequences that are not UTF-8 |
| `UtfStrings.Decoded8WellFormed` | base/strings/utf_string_conversions.cc:18-34 | A byte string is UTF-8 exactly if no read of it fails |
| `UtfStrings.Decoded16WellFormed` | base/strings/utf_string_conversions.cc:18-34 | A string of units is UTF-16 exactly if no read of it fails |
| `UtfStrings.DecodeEncoded8` | base/strings/utf_string_conversions.cc:18-34 | Reading back what was written gives the code points, U+FFFD for the failed ones |
| `UtfStrings.DecodeEncoded16` | base/strings/utf_string_conversions.cc:18-34 | Reading back units that were written gives the code points, U+FFFD for the failed ones |
| `UtfStrings.EncodedWellFormed` | base/strings/utf_string_conversions.cc:18-34 | The output is well-formed, whatever was read |
| `UtfStrings.EncodeDecoded8` | base/strings/utf_string_conversions.cc:18-34 | Writing what was read of well-formed UTF-8 gives the same bytes |
| `UtfStrings.EncodeDecoded16` | base/strings/utf_string_conversions.cc:18-34 | Writing what was read of any units gives the units, each unpaired surrogate replaced by U+FFFD |
| `UtfStrings.RestIsEncoded16` | base/strings/utf_string_conversions.cc:18-34 | What the loop appends from any position on is decoding followed by encoding |
| `UtfStrings.RestIsEncoded8` | base/strings/utf_string_conversions.cc:18-34 | What the loop to UTF-8 appends from any position on is decoding followed by encoding, and failures are counted alike |
| `UtfLaws.CharacterFirst` | base/strings/utf_string_conversions.cc:24-27 | A well-formed character in front of any bytes is converted, and then the rest |
| `UtfLaws.NothingFirst` | base/strings/utf_string_conversions.cc:24 | An empty input has an empty output |
| `UtfLaws.IllFormedFirst` | base/strings/utf_string_conversions.cc:28-30 | If no character can be read in front, the longest start of one, or one byte, becomes one U+FFFD, and then the rest is converted |
| `UtfStrings.RoundTrip8` | base/strings/utf_string_conversions.cc:40-54 | UTF-8 to UTF-16 and back: the same bytes, with well-formed UTF-16 in between |
| `UtfStrings.RoundTrip16` | base/strings/utf_string_conversions.cc:40-54 | Any units to UTF-8 and back: the same units but for one U+FFFD in place of each unpaired surrogate |
| `UtfStrings.IsUtf16IffPaired` | base/strings/utf_string_conversion_utils.cc:51-63 | Units are UTF-16 exactly if no surrogate is unpaired, that is, if there is nothing to replace |
| `UtfStrings.RepairedConvertsTheSame` | base/strings/utf_string_conversions.cc:25-30 | Replacing unpaired surrogates beforehand makes no difference to the output |
| `UtfStrings.Size16` | base/strings/utf_string_conversion_utils.cc:105-117 | The UTF-16 output has no more units than the input has bytes |
| `UtfStrings.Size8` | base/strings/utf_string_conversion_utils.cc:88-100 | The UTF-8 output has at most three bytes for each unit |
| `UtfConversion.AppendUnsafe8` | base/third_party/icu/icu_utf.h:296-313 | Writes the encoding at the offset, leaves what is before it, and returns the end |
| `UtfConversion.WriteUnicodeCharacter8` | base/strings/utf_string_conversion_utils.cc:68-82 | Appends exactly the encoding and returns its length, through growing and cutting the string |
| `UtfConversion.WriteUnicodeCharacter16` | base/strings/utf_string_conversion_utils.cc:84-86 | Appends exactly the one or two units of the encoding and returns their number |
| `UtfConversion.ReadUnicodeCharacter8` | base/strings/utf_string_conversion_utils.cc:31-45 | Leaves the index at the last byte of the read, and is true exactly if the read succeeded |
| `UtfConversion.ReadUnicodeCharacter16` | base/strings/utf_string_conversion_utils.cc:47-66 | Leaves the index at the last unit of the read, and is true exactly if no unpaired surrogate was met |
| `UtfConversion.ConvertCharacter8To16` | base/strings/utf_string_conversions.cc:24-31 | One round of the loop: what has been written and what is still to come stay the same text, and the flag tells whether the character was well-formed |
| `UtfConversion.ConvertCharacter16To8` | base/strings/utf_string_conversions.cc:24-31 | One round in the other direction |
| `UtfConversion.SeenExact` | base/strings/utf_string_conversions.cc:22 | Of n + k * 2^32 units the first n are looked at if n is below 2^31, and none otherwise |
| `UtfConversion.ConvertUnicode8To16` | base/strings/utf_string_conversions.cc:18-34 | Terminates, appends the conversion of the input up to its length cut to an int32_t, and is true exactly if no read failed |
| `UtfConversion.ConvertUnicode16To8` | base/strings/utf_string_conversions.cc:18-34 | Terminates, appends the conversion of the units up to their number cut to an int32_t, and is true exactly if no read failed |
| `UtfConversion.UTF8ToUTF16` | base/strings/utf_string_conversions.cc:40-43 | On any input, of which all is seen below 2^31 bytes: true exactly if what is seen is UTF-8; the output is always well-formed, bounded in size, and converts back if so |
| `UtfConversion.UTF16ToUTF8` | base/strings/utf_string_conversions.cc:51-54 | On any units, likewise: true exactly for UTF-16; the output is always UTF-8, at most three bytes a unit, and converts back to the repaired input |
| `SafeConversions.StaticRangeExact` | base/numerics/safe_conversions_impl.h:149-189 | The static containment test holds exactly for nested types, but for a pair of widths no machine has |
| `SafeConversions.CheckExact` | base/numerics/safe_conversions_impl.h:295-390 | All five range checks compare with both limits of the destination and flag at most one side |
| `SafeConversions.CheckBoundsExact` | base/numerics/safe_conversions_impl.h:295-390 | With any bounds of the caller a value passes exactly between them, if and only if it is not the case that a negative upper bound turns into a large unsigned number not below the value |
| `SafeConversions.NegativeUpperBound` | base/numerics/safe_conversions_impl.h:348-369 | An instance: the largest unsigned value passes the bounds -2 and -1 |
| `SafeConversions.BigEnoughExact` | base/numerics/safe_conversions_impl.h:494-533 | A promotion that claims to be contained has all values of both types; the only other one is to the widest unsigned type, for one signed operand |
| `SafeConversions.TestExact` | base/numerics/safe_conversions_impl.h:690-796 | Each of the six comparisons by range checks is the mathematical comparison, for any two types |
| `SafeConversions.SafeCompareExact` | base/numerics/safe_conversions_impl.h:800-813 | So is SafeCompare, with a promotion or without |
| `SafeConversions.CommonLimits` | base/numerics/safe_conversions_impl.h:815-847 | CommonMin and CommonMax bound exactly the values both types have |
| `SafeConversions.FastInRangeExact` | base/numerics/safe_conversions.h:49-83 | The downcast test and the unsigned comparison agree with the two-sided range check |
| `SafeConversions.IsValueInRangeExact` | base/numerics/safe_conversions.h:87-96 | True exactly if the destination has the value |
| `SafeConversions.SaturationClamps` | base/numerics/safe_conversions.h:137-192 | SaturateFastOp and saturated_cast_impl both clamp to the destination |
| `NumericLaws.Comparisons` | base/numerics/safe_conversions_impl.h:800-813 | SafeCompare with each of the six relations, on any two types, written out |
| `NumericLaws.ComparisonsByRange` | base/numerics/safe_conversions_impl.h:690-796 | The six comparisons by range checks, written out |
| `NumericLaws.UsualBounds` | base/numerics/safe_conversions_impl.h:295-390 | Bounds of the caller whose upper one is not negative always work |
| `NumericLaws.Limits` | base/numerics/safe_conversions_impl.h:25-40 | The limits of a type of n bits |
| `NumericLaws.ClampNearest` | base/numerics/safe_conversions.h:137-148 | What clamping means: the value, or the nearest limit |
| `IntegerTypes.CastExact` | base/numerics/safe_conversions.h:60-64 | A conversion gives back the value exactly if the type has it |
| `IntegerTypes.TopBits` | base/numerics/checked_math_impl.h:36-38 | The top bit of an exclusive or, and of a conjunction, in terms of the top bits of the operands, at every width |
| `CheckedArithmetic.SafeUnsignedAbsExact` | base/numerics/safe_conversions_impl.h:80-87 | The unsigned absolute value, the least value included |
| `CheckedArithmetic.CheckedAddImplExact` | base/numerics/checked_math_impl.h:23-39 | True exactly if the sum fits, at every width, signed or not; the result is the sum, wrapped around |
| `CheckedArithmetic.CheckedSubImplExact` | base/numerics/checked_math_impl.h:83-99 | Subtraction: true exactly if the difference fits; the result is the difference, wrapped around |
| `CheckedArithmetic.CheckedMulImplExact` | base/numerics/checked_math_impl.h:143-161 | True exactly if the product fits, the least value times -1 included, and then the result is the product |
| `CheckedMath.FastPromotes` | base/numerics/safe_conversions_impl.h:551-577 | The types that arithmetic is done in have all values of both operands, unless these have no type in common |
| `CheckedMath.RoomForProducts` | base/numerics/safe_conversions_impl.h:535-549 | A product in a type twice as wide does not overflow |
| `CheckedMath.RoomForSums` | base/numerics/safe_conversions_impl.h:535-549 | Nor does a sum, nor a signed difference |
| `CheckedMath.AddSubExact` | base/numerics/checked_math_impl.h:56-80 | Addition and subtraction of two types by the portable code: true exactly if the result fits and the operands have a common type or nothing is negative; then the result is exact |
| `CheckedMath.MulExact` | base/numerics/checked_math_impl.h:177-198 | Multiplication past the first test for a check of the compiler: true exactly if the product fits and the operands have a common type, are not negative, or one is zero; then the product is exact |
| `CheckedMath.QuotientCutsOff` | base/numerics/checked_math_impl.h:238 | Division cuts off towards zero: the rest is smaller than the divisor and has the sign of the dividend |
| `CheckedMath.DivExact` | base/numerics/checked_math_impl.h:201-241 | Division of two types: false for a zero divisor, for the least value by -1, and where operands without a common type are negative; otherwise the exact quotient, if it fits |
| `CheckedMath.DoExact` | base/numerics/checked_math_impl.h:41-241 | Any of the four operations on any two types, with or without the checks of gcc or clang: it fails exactly when the divisor is zero, the result does not fit, or, without such a check, the operands have no common type and a negative number matters; otherwise the result is the mathematical one |
| `NumericLaws.ContainedIff` | base/numerics/safe_conversions_impl.h:494-533 | Two types have a common one unless one is signed and the other the widest unsigned |
| `NumericLaws.Arithmetic` | base/numerics/checked_math_impl.h:41-241 | The four operations on types that have a common one: true exactly if the mathematical result is within the limits, and then that result |
| `NumericLaws.SumsApart` | base/numerics/checked_math_impl.h:56-80 | Sums and differences of types that have none, by the portable code: true exactly if nothing is negative and the result fits |
| `NumericLaws.ProductsApart` | base/numerics/checked_math_impl.h:177-198 | Products of such: true exactly for a zero operand, or two positive ones whose product fits |
| `NumericLaws.QuotientsApart` | base/numerics/checked_math_impl.h:214-240 | Quotients of such: true exactly for zero by anything, or two positive operands |
| `NumericLaws.ArithmeticBuiltin` | base/numerics/checked_math_impl.h:54-55 | With a check of the compiler sums and differences of any two types are true exactly if they fit |
| `CheckedNumerics.MathOpExact` | base/numerics/checked_math.h:221-242 | An operation is valid exactly if both operands are, the divisor is not zero, the result fits, and the operands are Representable together (always for one type, and with a check of the compiler); invalid stays invalid |
| `CheckedNumerics.WidestTypesDoNotMix` | base/numerics/checked_math_impl.h:54-67 | -1 of the widest signed type plus 1 of the widest unsigned one: 0 with a check of the compiler, refused without |
| `CheckedNumerics.CheckedNumeric.Apply` | base/numerics/checked_math.h:233-242 | A compound assignment with an operand of any type: valid afterwards exactly if both were, the divisor is not zero, the result fits, and the operands are Representable together; then the value is the exact result |
| `CheckedNumerics.MakeStateExact` | base/numerics/checked_math_impl.h:491-507 | Construction from any type is valid exactly if the value fits, and then keeps it |
| `CheckedNumerics.NegateExact` | base/numerics/checked_math.h:134-147 | Signed negation, on the path for known values and on the other: valid exactly if the negative fits |
| `CheckedNumerics.EvalExact` | base/numerics/checked_math.h:134-242 | An expression of + - * / and signed negation is valid exactly if every value on the way fits and no divisor is zero, and then equals the mathematical value |
| `NumericLaws.ShortExpressions` | base/numerics/checked_math.h:36-42 | A value is valid exactly if it fits; a negation exactly if the negative does |
| `NumericLaws.BinaryExpression` | base/numerics/checked_math.h:221-231 | Each operation on valid parts, written out |
| `NumericLaws.InvalidStays` | base/numerics/checked_math.h:221-242 | One invalid part makes the whole invalid |
| `CheckedNumerics.CheckedNumeric.constructor` | base/numerics/checked_math.h:36-42 | Valid exactly if the value fits |
| `CheckedNumerics.CheckedNumeric.PreIncrement` | base/numerics/checked_math.h:197-200 | Valid afterwards exactly if it was and the next value fits, also where int and the type do not mix |
| `CheckedNumerics.CheckedNumeric.PostIncrement` | base/numerics/checked_math.h:202-206 | The state as it was is returned, and the new one is valid exactly if the old one was and the next value fits |
| `CheckedNumerics.CheckedNumeric.PreDecrement` | base/numerics/checked_math.h:208-211 | Valid afterwards exactly if it was and the value before fits |
| `CheckedNumerics.CheckedNumeric.PostDecrement` | base/numerics/checked_math.h:213-217 | The state as it was is returned, and the new one is valid exactly if the old one was and the value before fits |
| `ClampedMath.ClampedMixedExact` | base/numerics/clamped_math_impl.h:74-166 | Operands of any two types: the result is the exact one, clamped, if and only if it is not (a sum or difference that is too low while the second operand points up), and not a result that fits but is refused for want of a common type, unless it happens to be the limit |
| `ClampedMath.ClampedExactly` | base/numerics/clamped_math_impl.h:74-166 | Operands of one type: always clamped exactly; division by zero gives the limit on the side of the dividend, or zero |
| `NumericLaws.ClampedArithmetic` | base/numerics/clamped_math_impl.h:74-166 | Clamped sums, differences and products on one type, and division by zero, written out |
| `ClampedMath.NegativePlusUnsigned` | base/numerics/clamped_math_impl.h:89 | A signed -2 plus an unsigned 1 gives the maximum instead of the minimum |
| `ClampedMath.WidestPlusUnsigned` | base/numerics/clamped_math_impl.h:89-93 | Without a check of the compiler -1 of the widest signed type plus 5 of the widest unsigned one gives the maximum, though 4 fits |
| `ClampedMath.SaturatedNegExact` | base/numerics/clamped_math_impl.h:24-40 | Negation clamps, with a check of the compiler and without |
| `ClampedMath.SaturatedAbsExact` | base/numerics/clamped_math_impl.h:49-62 | Absolute value clamps, the least value included |
| `FilePaths.StripKeeps` | base/files/file_path.cc:270-290 | Only trailing separators are stripped, never the drive, and never everything |
| `FilePaths.StripEnds` | base/files/file_path.cc:270-290 | What is left ends in a separator only if it is one or two separators after an optional drive |
| `FilePaths.StripIdempotent` | base/files/file_path.cc:270-290 | Stripping twice is stripping once |
| `FilePaths.AppendUndone` | base/files/file_path.cc:142-260 | For every non-empty path and component, BaseName after Append is the component, and DirName the stripped path, with drive letters or without |
| `FilePaths.BaseNameSeparators` | base/files/file_path.cc:177-197 | A base name contains no separator, unless the path is a root, of which it is the separators |
| `FilePaths.StripExact` | base/files/file_path.cc:270-290 | Every path: of the separators at its end all go; behind a drive or nothing two stay if they are two, and otherwise one |
| `FilePaths.BaseNameExact` | base/files/file_path.cc:177-197 | Every path with a last component, trailing separators or not: that component |
| `FilePaths.DirNameExact` | base/files/file_path.cc:142-175 | Every path with a last component: what is in front of it, stripped, `.` for nothing, and two separators for three |
| `FilePaths.AppendExact` | base/files/file_path.cc:218-260 | Every path and every text: one canonical separator in between exactly if the text is not empty and the stripped path is not empty, a root or a bare drive; `.` alone gives the text; a NUL ends it |
| `FilePaths.AppendTwice` | base/files/file_path.cc:218-260 | Appending two components is appending them joined by a separator, unless the first step gives `.` |
| `FilePaths.FinalExtensionExact` | base/files/file_path.cc:199-209 | The extension goes from the last dot of the base name on, and `.`, `..` and names without a dot have none |
| `FilePaths.RemoveFinalExtensionExact` | base/files/file_path.cc:211-216 | As many characters as the extension has go off the end |
| `FilePaths.DriveExact` | base/files/file_path.cc:41-52 | A drive is an ASCII letter, by its code, and a colon, where drives are enabled |
| `FilePaths.AbsoluteExact` | base/files/file_path.cc:72-87 | Which paths are absolute, and that components are not |
| `FilePaths.LeadingSeparators` | base/files/file_path.cc:152-168 | The parent of a component behind n separators: two separators for n of 2 or 3, otherwise one |
| `FilePaths.DirNameStripped` | base/files/file_path.cc:170-174 | The result of DirName is not empty and has nothing left to strip |
| `FilePaths.FixedPoints` | base/files/file_path.cc:142-175 | DirName leaves alone exactly `.`, one or two separators after an optional drive, and a bare drive |
| `FilePaths.IterationEnds` | base/files/file_path.cc:142-175 | Repeating DirName reaches such a path within one step more than the path has characters |
| `FilePaths.ExtensionRecomposes` | base/files/file_path.cc:199-216 | RemoveFinalExtension followed by the extension gives the path exactly if the path has no trailing separators |
| `FilePaths.FilePath.StripTrailingSeparatorsInternal` | base/files/file_path.cc:270-290 | The loop, which decides step by step, leaves a prefix that it would not strip further: everything up to the trailing separators, and a root of exactly two separators untouched |
| `FilePaths.FilePath.DirNameOf` | base/files/file_path.cc:142-175 | The result is the specified parent, and equals the path exactly for `.`, the roots and a bare drive |
| `FilePaths.FilePath.BaseNameOf` | base/files/file_path.cc:177-197 | Erasing the drive before looking for the last separator gives the specified component |
| `FilePaths.FilePath.AppendComponent` | base/files/file_path.cc:218-260 | The result is the specified one, for which AppendUndone holds: the component up to a NUL behind the stripped path, one canonical separator in between where there is neither a root nor a bare drive |
| `NumberParsing.InBoundsExact` | base/strings/string_number_conversions.cc:144-167 | The bounds test lets a digit pass exactly if the number with that digit fits; with a minus sign and an unsigned type, exactly if the number so far is not zero or the digit is |
| `NumberParsing.NoOverflow` | base/strings/string_number_conversions.cc:133-136 | Neither step leaves the type once the test has passed |
| `NumberParsing.AccumulatedExact` | base/strings/string_number_conversions.cc:109-139 | The result is the saturated value of the longest run of digits; true exactly if they go to the end and the value fits |
| `NumberParsing.CheckBounds` | base/strings/string_number_conversions.cc:144-167 | True exactly if the number with the digit fits (a signed type, or no minus sign); otherwise the output is set to the limit |
| `NumberParsing.InvokeSigned` | base/strings/string_number_conversions.cc:109-139 | The loop ends, and its result is the digit by digit accumulation that AccumulatedExact shows to saturate; false without any character |
| `NumberParsing.AccumulatedMinus` | base/strings/string_number_conversions.cc:109-172 | Unsigned digits behind a minus sign: the output is 0 as soon as some leading digits make a multiple of 2^bits, and otherwise the negated number, wrapped around; true exactly if the digits go to the end and only zeros follow such a multiple |
| `NumberParsing.ParsedExact` | base/strings/string_number_conversions.cc:79-139 | Signed types, and strings without a minus: the output is the saturated number, and true exactly if the string is all numeral and fits |
| `NumberParsing.ParsedMinus` | base/strings/string_number_conversions.cc:79-172 | Unsigned types behind a minus, on every string: the output and the answer |
| `NumberParsing.MinusExactIff` | base/strings/string_number_conversions.cc:79-172 | That output is the saturated number if and only if there is no digit or some leading digits make a multiple of 2^bits (a leading zero does); both are right if and only if moreover it is not a nonzero number of which only zeros follow such a multiple |
| `NumberParsing.MinusNumeral` | base/strings/string_number_conversions.cc:79-172 | In particular N without leading zeros, if it fits, gives 2^bits - N, and true |
| `NumberParsing.PlusSign` | base/strings/string_number_conversions.cc:94-97 | A plus sign, code 43, in front of a digit makes no difference |
| `NumberParsing.LeadingSpace` | base/strings/string_number_conversions.cc:84-87 | A space or a control character 9 to 13 in front makes the answer false and leaves the output |
| `NumberParsing.SignedNumber` | base/strings/string_number_conversions.cc:89-97 | Digits, with a sign or without, are a numeral, and a minus sign, code 45, negates it |
| `NumberParsing.DigitByDigit` | base/strings/string_number_conversions.cc:122-137 | A digit is its own number, and one digit more makes ten times the number and the digit |
| `NumberParsing.OneDigit` | base/strings/string_number_conversions.cc:122-137 | Each of the ten digits is parsed to its value |
| `NumberParsing.TrailingText` | base/strings/string_number_conversions.cc:125-127 | Anything behind the digits makes the answer false and leaves the output |
| `NumberParsing.NoDigits` | base/strings/string_number_conversions.cc:111-127 | Without a digit where they should start the answer is false and the output 0 |
| `NumberParsing.StringToNumber` | base/strings/string_number_conversions.cc:79-103 | The loops compute the result these are about: on every string (unsigned: without a minus) the saturated value of the digits after spaces and sign; true exactly without spaces, with a digit, with nothing but digits, and if the value fits |
| `LockOwnership.StepInv` | base/synchronization/lock.h:57-72 | Every step of Acquire, Release, Try and Wait keeps mutex and mark in agreement with where the threads are, and no DCHECK fails |
| `LockOwnership.WakeInv` | base/synchronization/condition_variable_posix.cc:38-46 | Waking any set of waiting threads, as Signal, Broadcast and spurious wake-ups do, keeps it too |
| `LockOwnership.NoCheckFails` | base/synchronization/lock.cc:36-48 | In no interleaving of disciplined threads does any DCHECK fail |
| `LockOwnership.AssertAcquiredExact` | base/synchronization/lock.cc:36-38 | Between two calls of a thread AssertAcquired passes exactly if it holds the mutex |
| `LockOwnership.UndisciplinedFails` | base/synchronization/lock.cc:40-48 | The checks catch what is wrong: releasing without the lock fails them, and so does marking it twice |
| `LockOwnership.WakeExact` | base/synchronization/condition_variable_posix.cc:38-46 | Any waiting threads can be woken, and nothing else changes |
| `LockOwnership.MutualExclusion` | base/synchronization/lock.h:57-72 | Two threads never hold the mutex together |
| `LockOwnership.NoMarkLeft` | base/synchronization/lock.cc:32-34 | The check of the destructor passes when all threads are outside |
| `LockOwnership.NeverStuck` | base/synchronization/condition_variable_posix.cc:27-36 | As long as one thread is not waiting for a signal, some thread can go on |
| `LockOwnership.ScopesDisciplined` | base/synchronization/lock.h:101-146 | Scopes of AutoLock and AutoUnlock keep the discipline exactly if they are nested alternately, and leave the lock as they found it |
| `LockOwnership.Lock.CheckHeldAndUnmark` | base/synchronization/lock.cc:40-43 | The DCHECK holds for a thread that releases or waits, and the call is that step of the state machine, of which all invariants stay |
| `LockOwnership.Lock.CheckUnheldAndMark` | base/synchronization/lock.cc:45-48 | The DCHECK holds for a thread that just got the mutex, and the call is that step |
| `LockOwnership.Lock.Acquire` | base/synchronization/lock.h:57-60 | Three steps of the state machine: the thread gets from outside to inside, holds the mutex, and no other thread is affected |
| `LockOwnership.Lock.Release` | base/synchronization/lock.h:61-64 | Three steps back to outside; nobody holds the mutex |
| `LockOwnership.Lock.Try` | base/synchronization/lock.h:66-72 | True exactly if the mutex was free, and then the thread is inside; otherwise nothing changes |
| `LockOwnership.Lock.BeginWait` | base/synchronization/condition_variable_posix.cc:27-31 | Three steps from inside to waiting, with the mark removed before the mutex is given up |
| `LockOwnership.Lock.EndWait` | base/synchronization/condition_variable_posix.cc:31-36 | Two steps from woken to inside, with the mark set after the mutex is back |
| `RandomNumbers.Uniform` | base/rand_util.cc:73-85 | Each result below the range has exactly max / range accepted raw values |
| `RandomNumbers.MostAccepted` | base/rand_util.cc:76-77 | No step overflows, and more than half of the raw values are accepted |
| `RandomNumbers.RandGenerator` | base/rand_util.cc:79-84 | Takes the first draw below the largest multiple of the range, and the result is its remainder |

## Left out

- PatternMatcher.MatchPattern: the result is only stated for patterns without a dangling final backslash, since the code keeps the escape across a restart there; lengths are below 2^31, because the distance is an `int`.
- PatternMatcher.SearchForChars: the same, for the segment that ends in the backslash.
- PatternMatcher.MatchPatternT: the same.
- PatternText.MatchPattern8: the same.
- PatternText.MatchPattern16: the same.
- TlsKeyInstall.RunInv: atomics are sequentially consistent, and keys that the native calls cannot allocate (a CHECK failure) end the run.
- TlsSlots.StepInv: the accesses of one slot operation to its own thread's table are one step.
- TlsThreadExit.NothingLeft: other threads act together with destructor calls only; NothingLeftAmid has them act before every visit of a slot.
- TlsThreadExit.ExitingThread.OnThreadExit: what other threads do to the destructors and the mark happens together with a destructor call; freeing the heap table is not modelled.
- CheckedMath.AddSubExact: the portable code; DoExact adds the compiler's own checks.
- CheckedMath.MulExact: the code behind the first test for such a check; DoExact adds it.
- CheckedMath.DoExact: the compiler's overflow checks are taken as exact, and the assembly for ARM is left out; the result type is that of an operand; each type but the widest has one twice as wide, as in the source, and `int` has at least 8 bits; `bool` is left out.
- CheckedNumerics.EvalExact: one integer type per expression; unsigned negation wraps around in the code and is left out; the variadic `CheckMathOp` is an expression nested to the left.
- CheckedNumerics.CheckedNumeric.Apply: `%`, shifts, bitwise operators, `Max`, `Min` and `Abs` are left out.
- ClampedMath.ClampedMixedExact: the assembly for ARM, `%`, shifts and bitwise operators are left out.
- SafeConversions.CheckExact: floating-point types and the masking of their limits, which changes nothing for integers.
- FilePaths.FilePath.AppendComponent: the component is not absolute, as the DCHECK in the code demands; case-insensitive comparison of drives is left out.
- NumberParsing.StringToNumber: hexadecimal input.
- LockOwnership.NoCheckFails: one lock; the discipline of the callers (acquire only without it, release and wait only with it) is part of the model.
- LockOwnership.Lock.Acquire: begins when the mutex is free; a thread that waits for it is a matter of the state machine.
- RandomNumbers.RandGenerator: the raw values are a list that has an acceptable one; that the system's random source delivers one in the end is a matter of probability.
- `RandInt`, `RandDouble`, byte swapping, `span`, smart pointers, logging, files, and the platform code for Apple, Windows and Fuchsia: thin wrappers, input and output, or easy members.
