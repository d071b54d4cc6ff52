# Code review assignment, modelled in Dafny

The system decides who reviews whose code. It takes one pool of people or two, and it comes in two generations.

**Current engine** (`novautil` package):
- **Single pool.** The pool is shuffled into a circle. Every person reviews the next one, and the last reviews the first.
- **Two pools.** Each direction is assigned separately and the two maps are merged.
  - When the reviewing pool is at least as large, exactly |reviewees| shuffled reviewers get one reviewee each.
  - When it is smaller, the shuffled reviewees are dealt round-robin to all the reviewers.
  - Either way, every reviewee is covered exactly once.
- **Validation.** A pool may not be null or empty. It may not hold a null member or repeat an employee id. The two pools may not share anyone.

**Older engine:**
- It has the same circle for a single pool.
- Between two pools, every member of one pool is mapped to one member of the other, cycling through the other pool. When the reviewing pool is smaller, part of the other pool is never reviewed.

**Around the engines:**
- `Person`: a validated identity value. It is compared and hashed by employee id.
- Display-width arithmetic for a terminal. A wide code unit takes two columns. Padding to a width never truncates.
- The pure pieces of the exporter: CSV and Markdown escaping, the timestamped file name, validation before export, single-to-list conversion, and the summary counts.

**Modules:**

| module | file | content |
|---|---|---|
| `Wrappers` | `wrappers.dfy` | `Option`, `Result`, `Outcome` |
| `JavaText` | `java_text.dfy` | Java `String` behaviour that the core relies on (see below) |
| `Arith` | `arith.dfy` | quotient and remainder facts, and the wrap-around successor `(i + 1) % n` |
| `People` | `person.dfy` | `Person` and identity within a pool |
| `LinkedMaps` | `linked_maps.dfy` | `LinkedHashMap` as a sequence of entries keyed by employee id |
| `Shuffling` | `shuffle.dfy` | `Collections.shuffle` as Java's in-place Fisher–Yates loop over an `array` |
| `CodeReviewAssigner` | `code_review_assigner.dfy` | the current engine |
| `LegacyCodeReviewAssigner` | `legacy_assigner.dfy` | the older engine |
| `FormatUtils` | `format_utils.dfy` | display width and padding |
| `AssignmentExporter` | `assignment_exporter.dfy` | the exporter's pure helpers |

`JavaText` covers the UTF-16 view of a string, `trim`, `replace` of one char, `lastIndexOf` and ASCII `equalsIgnoreCase`.

**How the model is built:**
- The engines' loops are methods with loop invariants. Each method is proved equal to a specification function (`Cycle`, `OneEach`, `RoundRobin`, `Circle`, `Cross`). The promised properties are lemmas about those functions.
- Randomness is an input. The shuffle consumes a caller-supplied sequence of draws and returns what is left. The proofs rely only on the shuffled list being a permutation of its input.
- Java `null` is `None`.
- Every exception thrown by validation is an `Err` or `Fail` value. It carries the pool name, the repeated id or the overlapping ids.

## Model

| member | source | states |
|---|---|---|
| CodeReviewAssigner.ValidatePeople | src/main/java/cn/silence/icu/novautil/review/core/CodeReviewAssigner.java:135-154 | null gives NullPool, empty gives EmptyPool, a null member gives NullMember; success exactly for a well-formed pool, returning its members; a non-null, non-empty pool without null members and with a repeated id always gives DuplicateId, naming the first id seen twice |
| CodeReviewAssigner.OverlapIds | src/main/java/cn/silence/icu/novautil/review/core/CodeReviewAssigner.java:160-166 | an id is listed exactly when it is in both pools, and the list has at most one entry per poolB member |
| CodeReviewAssigner.OverlapIdsSingle | src/main/java/cn/silence/icu/novautil/review/core/CodeReviewAssigner.java:163-165 | one poolB member contributes its id exactly when poolA holds that id, and nothing otherwise |
| CodeReviewAssigner.OverlapIdsAppend | src/main/java/cn/silence/icu/novautil/review/core/CodeReviewAssigner.java:163-166 | the ids follow poolB's order: the list for b1 + b2 is b1's list followed by b2's |
| CodeReviewAssigner.OverlapIdsDistinct | src/main/java/cn/silence/icu/novautil/review/core/CodeReviewAssigner.java:163-166 | a poolB with distinct ids gives a list with no id twice |
| CodeReviewAssigner.ValidateNoOverlap | src/main/java/cn/silence/icu/novautil/review/core/CodeReviewAssigner.java:159-172 | passes exactly when the id sets are disjoint; otherwise the error lists the overlapping ids and the list is non-empty |
| CodeReviewAssigner.CycleReviewees | src/main/java/cn/silence/icu/novautil/review/core/CodeReviewAssigner.java:42-46 | the reviewees of the circle are the pool rotated by one, so a permutation of the pool |
| CodeReviewAssigner.CycleProperties | src/main/java/cn/silence/icu/novautil/review/core/CodeReviewAssigner.java:37-47 | for at least two distinct ids: distinct keys, every member a reviewer once and a reviewee once |
| CodeReviewAssigner.CycleShape | src/main/java/cn/silence/icu/novautil/review/core/CodeReviewAssigner.java:42-46 | entry i is shuffled[i] mapped to the singleton of its successor round the circle; nobody reviews themselves |
| CodeReviewAssigner.OneEachProperties | src/main/java/cn/silence/icu/novautil/review/core/CodeReviewAssigner.java:106-116 | the first m shuffled reviewers are distinct keys drawn from the reviewers; each gets exactly [reviewee i]; the reviewees are covered in order |
| CodeReviewAssigner.OneEachFlatten | src/main/java/cn/silence/icu/novautil/review/core/CodeReviewAssigner.java:111-115 | concatenating the value lists gives back the shuffled reviewees |
| CodeReviewAssigner.ShareLength | src/main/java/cn/silence/icu/novautil/review/core/CodeReviewAssigner.java:121-125 | dealing by i mod r gives slot k exactly n/r items, plus one when k < n mod r |
| CodeReviewAssigner.ShareAt | src/main/java/cn/silence/icu/novautil/review/core/CodeReviewAssigner.java:121-125 | the j-th item dealt to slot k is item j*r + k |
| CodeReviewAssigner.RoundRobinCoverage | src/main/java/cn/silence/icu/novautil/review/core/CodeReviewAssigner.java:121-125 | the round-robin value lists together are a permutation of the reviewees |
| CodeReviewAssigner.RoundRobinPlacement | src/main/java/cn/silence/icu/novautil/review/core/CodeReviewAssigner.java:121-125 | reviewee i is at position i / r in the list of shuffled reviewer i % r |
| CodeReviewAssigner.RoundRobinProperties | src/main/java/cn/silence/icu/novautil/review/core/CodeReviewAssigner.java:117-126 | every reviewer is a key, in shuffled order; coverage exactly once; each load is n/r or n/r + 1; any two loads differ by at most one |
| CodeReviewAssigner.AssignDirection | src/main/java/cn/silence/icu/novautil/review/core/CodeReviewAssigner.java:86-128 | no reviewees gives an empty map; no reviewers gives NoReviewers with the count; otherwise the OneEach or RoundRobin map of the shuffled pools, with distinct keys drawn from the reviewers, every reviewee covered exactly once, and the loads of each branch |
| CodeReviewAssigner.AssignSinglePool | src/main/java/cn/silence/icu/novautil/review/core/CodeReviewAssigner.java:31-48 | the exact validatePeople error first, then TooFewPeople below two; success exactly for a valid pool of at least two; the result is the circle over a permutation of the pool, with n entries, everyone a reviewer and a reviewee once, entry i mapped to [shuffled[(i+1) mod n]], and no self-review |
| CodeReviewAssigner.DirectionCrosses | src/main/java/cn/silence/icu/novautil/review/core/CodeReviewAssigner.java:70-72 | a direction's keys come from the reviewing pool and its reviewees from the other pool |
| CodeReviewAssigner.DualPoolMerge | src/main/java/cn/silence/icu/novautil/review/core/CodeReviewAssigner.java:68-73 | with disjoint pools, the two putAll calls concatenate the maps and lose no entry; the merge covers both pools exactly once and crosses pools |
| CodeReviewAssigner.AssignDualPool | src/main/java/cn/silence/icu/novautil/review/core/CodeReviewAssigner.java:60-74 | errors in order: poolA's exact validatePeople error, then poolB's, then the overlap list; otherwise A→B followed by B→A, each the assignDirection deal over shuffled copies (one reviewer per reviewee when the reviewing pool is at least as large, round-robin over all reviewers otherwise) with loads of one each or n/r and n/r + 1; distinct keys, every member of both pools reviewed exactly once, and A reviewers reviewing only B members and vice versa |
| LegacyCodeReviewAssigner.HasDuplicateIff | src/main/java/cn/silence/icu/CodeReviewAssigner.java:54-56 | comparing the list length with the number of distinct ids detects exactly the lists in which an id repeats |
| LegacyCodeReviewAssigner.ValidatePeople | src/main/java/cn/silence/icu/CodeReviewAssigner.java:47-52 | null or empty gives EmptyPool; a repeated id gives DuplicateIds; passes exactly for non-empty lists of distinct ids |
| LegacyCodeReviewAssigner.CircleValues | src/main/java/cn/silence/icu/CodeReviewAssigner.java:22-25 | the reviewees of the circle are the pool rotated by one |
| LegacyCodeReviewAssigner.CircleProperties | src/main/java/cn/silence/icu/CodeReviewAssigner.java:18-26 | distinct keys in shuffled order; every member reviewed once; nobody reviews themselves |
| LegacyCodeReviewAssigner.AssignSinglePool | src/main/java/cn/silence/icu/CodeReviewAssigner.java:13-27 | validation errors, then TooFewPeople; success exactly for at least two distinct ids; the circle over a permutation of the pool, with n entries, everyone reviewed once, and no self-review |
| LegacyCodeReviewAssigner.CrossProperties | src/main/java/cn/silence/icu/CodeReviewAssigner.java:64-67 | every `from` member is a key exactly once and is mapped to a member of `to` |
| LegacyCodeReviewAssigner.CrossCovers | src/main/java/cn/silence/icu/CodeReviewAssigner.java:65-67 | when |from| ≥ |to|, the first |to| pairs already review every member of `to` |
| LegacyCodeReviewAssigner.CrossMissesReviewee | src/main/java/cn/silence/icu/CodeReviewAssigner.java:65-67 | when |from| < |to|, the reviewees are exactly the first |from| of shuffled `to`, so shuffled `to`[|from|] is never reviewed |
| LegacyCodeReviewAssigner.AssignCross | src/main/java/cn/silence/icu/CodeReviewAssigner.java:58-69 | the map is Cross of the two shuffled lists: |from| distinct keys drawn from `from`, each mapped into `to`, covering `to` when |from| ≥ |to| |
| LegacyCodeReviewAssigner.SharedIds | src/main/java/cn/silence/icu/CodeReviewAssigner.java:33-37 | the shared ids are empty exactly when the pools are disjoint by employee id |
| LegacyCodeReviewAssigner.DualMerge | src/main/java/cn/silence/icu/CodeReviewAssigner.java:40-43 | with disjoint pools, putAll concatenates the two cross maps into |A| + |B| distinct keys; the first |A| keys are exactly A's members, each mapped into B, the rest exactly B's members, each mapped into A, so nobody reviews themselves |
| LegacyCodeReviewAssigner.DualCrosses | src/main/java/cn/silence/icu/CodeReviewAssigner.java:40-43 | in the merged map the first |A| entries have keys from A and reviewees from B, the rest keys from B and reviewees from A, and no entry pairs two people with the same id |
| LegacyCodeReviewAssigner.AssignDualPool | src/main/java/cn/silence/icu/CodeReviewAssigner.java:30-44 | errors in order: pool A, pool B, the shared ids; otherwise the A-reviews-B cross map over shuffled copies followed by the B-reviews-A one: |A| + |B| distinct keys, the first |A| exactly A's members reviewing B members, the rest exactly B's members reviewing A members, and no self-review |
| People.NewPerson | src/main/java/cn/silence/icu/Person.java:25-32 | a null or blank name is refused first, then a null or blank id; success exactly otherwise, storing both trimmed |
| People.NewPersonWellFormed | src/main/java/cn/silence/icu/Person.java:26-31 | every accepted Person has non-empty, already-trimmed fields |
| People.NewPersonFromAccessors | src/main/java/cn/silence/icu/Person.java:30-40 | building a Person again from its accessors gives the same Person |
| People.DefaultBypassesValidation | src/main/java/cn/silence/icu/Person.java:20-23 | the no-argument constructor's Person has empty fields, which the public constructor never produces |
| People.EqualsIsEquivalence | src/main/java/cn/silence/icu/Person.java:42-47 | equals looks only at the id; it is reflexive, symmetric and transitive, and false for null |
| People.HashCode | src/main/java/cn/silence/icu/Person.java:49-52 | Objects.hash(employeeId) in 32-bit arithmetic lies in the int range |
| People.HashCodeConsistent | src/main/java/cn/silence/icu/Person.java:42-52 | equal persons have equal hash codes, whatever their names |
| People.ToString | src/main/java/cn/silence/icu/Person.java:54-57 | the text splits back into the name, "(", the id and ")" |
| People.IdSetCard | src/main/java/cn/silence/icu/CodeReviewAssigner.java:55 | the number of distinct ids is at most the length, with equality exactly when no id repeats |
| JavaText.Trim | src/main/java/cn/silence/icu/Person.java:26-31 | the result is a slice of the input with only chars at most U+0020 outside it, starts and ends with a char above U+0020, and is empty exactly when every char is at most U+0020 |
| JavaText.TrimIdempotent | src/main/java/cn/silence/icu/Person.java:30-31 | trimming a trimmed string changes nothing |
| JavaText.Utf16Append | src/main/java/cn/silence/icu/novautil/util/FormatUtils.java:20 | the UTF-16 units of a concatenation are the units of the parts |
| JavaText.ReplaceChar | src/main/java/cn/silence/icu/novautil/review/core/AssignmentExporter.java:284 | every char of the result comes from the replacement or is an unreplaced char of the input; without the char, the string is unchanged |
| JavaText.ReplaceCharAppend | src/main/java/cn/silence/icu/novautil/review/core/AssignmentExporter.java:293 | replacing in a + b is replacing in a followed by replacing in b |
| JavaText.ReplaceCharSingle | src/main/java/cn/silence/icu/novautil/review/core/AssignmentExporter.java:293 | a single char becomes the replacement when it is the target and stays otherwise |
| JavaText.LastIndexOf | src/main/java/cn/silence/icu/novautil/review/core/AssignmentExporter.java:226 | -1 or a position holding the char, with no occurrence after it |
| LinkedMaps.Put | src/main/java/cn/silence/icu/novautil/review/core/CodeReviewAssigner.java:112-115 | a fresh key is appended; an existing key keeps its place and the key order; distinct keys stay distinct |
| LinkedMaps.ComputeIfAbsentAdd | src/main/java/cn/silence/icu/novautil/review/core/CodeReviewAssigner.java:123-124 | a fresh key is appended with [x]; otherwise x is added to that key's list; the reviewees gain exactly x |
| LinkedMaps.PutAllDisjoint | src/main/java/cn/silence/icu/novautil/review/core/CodeReviewAssigner.java:70-72 | putAll of a map with keys disjoint from the target's is concatenation |
| Shuffling.Shuffle | src/main/java/cn/silence/icu/novautil/review/core/CodeReviewAssigner.java:38 | the array afterwards is a permutation of the array before; the draws left are a suffix of the draws given |
| Shuffling.ShuffledCopy | src/main/java/cn/silence/icu/novautil/review/core/CodeReviewAssigner.java:37-38 | the shuffled copy has the same length and is a permutation of the list |
| FormatUtils.UnitsWidth | src/main/java/cn/silence/icu/novautil/util/FormatUtils.java:19-27 | the width of n code units is between n and 2n |
| FormatUtils.WidthAppend | src/main/java/cn/silence/icu/novautil/util/FormatUtils.java:20-26 | display width is additive over concatenation |
| FormatUtils.WidthBounds | src/main/java/cn/silence/icu/novautil/util/FormatUtils.java:19-27 | the UTF-16 length, and so the char count, is at most the width, which is at most twice the UTF-16 length |
| FormatUtils.WidthPerChar | src/main/java/cn/silence/icu/novautil/util/FormatUtils.java:19-27 | a string is at most twice its char count wide, since a supplementary char's two surrogates are narrow |
| FormatUtils.NarrowUnitsWidth | src/main/java/cn/silence/icu/novautil/util/FormatUtils.java:21-25 | text without wide code units is one column per code unit |
| FormatUtils.SpacesWidth | src/main/java/cn/silence/icu/novautil/util/FormatUtils.java:44 | k spaces are k columns wide |
| FormatUtils.GetDisplayWidth | src/main/java/cn/silence/icu/novautil/util/FormatUtils.java:17-28 | null gives 0; otherwise the loop's sum equals the display width, which is at least the length |
| FormatUtils.LeftAlign | src/main/java/cn/silence/icu/novautil/util/FormatUtils.java:37-46 | null is read as ""; a string as wide as the target is returned unchanged; otherwise target − width spaces follow it; the input is always a prefix of the result, whose width is max(width, target) |
| FormatUtils.RightAlign | src/main/java/cn/silence/icu/novautil/util/FormatUtils.java:51-61 | null is read as ""; a string as wide as the target is returned unchanged; otherwise target − width spaces precede it; the input is always a suffix of the result, whose width is max(width, target) |
| AssignmentExporter.EscapeCsv | src/main/java/cn/silence/icu/novautil/review/core/AssignmentExporter.java:281-287 | null and "" give ""; a field without a comma, line feed or quote is unchanged; otherwise the result is quoted and its inner quotes come in doubled pairs |
| AssignmentExporter.DoubledQuotesPaired | src/main/java/cn/silence/icu/novautil/review/core/AssignmentExporter.java:284 | doubling every quote leaves only doubled pairs |
| AssignmentExporter.UndoubleDoubled | src/main/java/cn/silence/icu/novautil/review/core/AssignmentExporter.java:284 | reading doubled quotes back undoes the doubling |
| AssignmentExporter.EscapeCsvRoundTrip | src/main/java/cn/silence/icu/novautil/review/core/AssignmentExporter.java:281-287 | reading an escaped field back, as RFC 4180 section 2 prescribes, gives the original field, for every field |
| AssignmentExporter.EscapeMarkdown | src/main/java/cn/silence/icu/novautil/review/core/AssignmentExporter.java:292-295 | null gives ""; the result has no line feed; text without a pipe or line feed is unchanged |
| AssignmentExporter.EscapeMarkdownAppend | src/main/java/cn/silence/icu/novautil/review/core/AssignmentExporter.java:292-295 | escaping a concatenation is escaping each part |
| AssignmentExporter.EscapeMarkdownSingle | src/main/java/cn/silence/icu/novautil/review/core/AssignmentExporter.java:292-295 | a pipe becomes a backslash and a pipe, a line feed a space, any other char stays |
| AssignmentExporter.EscapeMarkdownByChar | src/main/java/cn/silence/icu/novautil/review/core/AssignmentExporter.java:292-295 | the escaped text is every char of the input in order, pipes and line feeds rewritten as above |
| AssignmentExporter.EscapeMarkdownPipes | src/main/java/cn/silence/icu/novautil/review/core/AssignmentExporter.java:292-295 | every pipe of the escaped text is directly preceded by a backslash |
| AssignmentExporter.ReplaceCharByChar | src/main/java/cn/silence/icu/novautil/review/core/AssignmentExporter.java:294 | replacing a char by one char keeps the length and changes only the occurrences |
| AssignmentExporter.FileName | src/main/java/cn/silence/icu/novautil/review/core/AssignmentExporter.java:223 | the name is the suffix of the path after its last separator (the whole path when it has none), and holds no separator |
| AssignmentExporter.Stem | src/main/java/cn/silence/icu/novautil/review/core/AssignmentExporter.java:216-240 | a directory gives the default prefix; for a file, the stem is its name cut at the last dot exactly when that dot is neither first nor last and the extension after it matches up to case, and the whole name otherwise |
| AssignmentExporter.TimestampedFileName | src/main/java/cn/silence/icu/novautil/review/core/AssignmentExporter.java:200-244 | a path counted as a directory gives prefix_timestamp.ext |
| AssignmentExporter.CsvFileName | src/main/java/cn/silence/icu/novautil/review/core/AssignmentExporter.java:44-50 | a path counted as a directory gives code_review_assignments_timestamp.csv |
| AssignmentExporter.MarkdownFileName | src/main/java/cn/silence/icu/novautil/review/core/AssignmentExporter.java:102-108 | a path counted as a directory gives review_summary_timestamp.md |
| AssignmentExporter.DirectoryExportNames | src/main/java/cn/silence/icu/novautil/review/core/AssignmentExporter.java:36-43 | a path ending with a separator gives code_review_assignments_timestamp.csv and review_summary_timestamp.md |
| AssignmentExporter.FileExportNames | src/main/java/cn/silence/icu/novautil/review/core/AssignmentExporter.java:36-43 | "dir/b.csv" gives b_timestamp.csv and "dir/b.md" gives b_timestamp.md, the extension replaced rather than doubled |
| AssignmentExporter.FormattedTail | src/main/java/cn/silence/icu/novautil/review/core/AssignmentExporter.java:219-239 | every generated name ends with _timestamp.ext |
| AssignmentExporter.ReplacesMatchingExtension | src/main/java/cn/silence/icu/novautil/review/core/AssignmentExporter.java:226-233 | dir/b.e with e equal to the extension up to case gives b_timestamp.ext, not a doubled extension |
| AssignmentExporter.StemOfMatchingFile | src/main/java/cn/silence/icu/novautil/review/core/AssignmentExporter.java:226-233 | a file name whose last dot is inside it and whose suffix matches keeps the part before the dot |
| AssignmentExporter.StemOfPlainFile | src/main/java/cn/silence/icu/novautil/review/core/AssignmentExporter.java:237-240 | a file name without a dot is kept whole |
| AssignmentExporter.DottedDirectoryTakenForFile | src/main/java/cn/silence/icu/novautil/review/core/AssignmentExporter.java:210-214 | a non-existent path like ./exports, with a dot only in a directory part, is taken for a file and named exports_timestamp.ext |
| AssignmentExporter.TimestampedFileNameIntended | src/main/java/cn/silence/icu/novautil/review/core/AssignmentExporter.java:210-214 | with the directory test applied to the last path part, every path whose last part has no dot, and which is not an existing file, gets the default prefix |
| AssignmentExporter.ValidateAssignment | src/main/java/cn/silence/icu/novautil/review/core/AssignmentExporter.java:251-265 | null or empty gives NoData; passes exactly when no key and no list is null; otherwise the error describes the first offending entry |
| AssignmentExporter.ResultsExportable | src/main/java/cn/silence/icu/novautil/review/core/AssignmentExporter.java:251-265 | an engine result, seen as a Java map, is accepted exactly when it is non-empty |
| AssignmentExporter.SingletonListsFlatten | src/main/java/cn/silence/icu/novautil/review/core/AssignmentExporter.java:311-313 | after conversion, the concatenated lists are the original reviewees in order |
| AssignmentExporter.LegacyCircleMatchesCycle | src/main/java/cn/silence/icu/novautil/review/core/AssignmentExporter.java:305-315 | converting the older engine's circle gives the current engine's circle over the same shuffled order |
| AssignmentExporter.ConvertSingleToDualFormat | src/main/java/cn/silence/icu/novautil/review/core/AssignmentExporter.java:305-315 | null is refused; otherwise the same keys in the same order, each mapped to the one-element list of its reviewee |
| AssignmentExporter.TotalTasksIsFlattenLength | src/main/java/cn/silence/icu/novautil/review/core/AssignmentExporter.java:123 | the sum of the list sizes is the number of reviewee slots |
| AssignmentExporter.CoveredAtMostTasks | src/main/java/cn/silence/icu/novautil/review/core/AssignmentExporter.java:122-127 | the covered count is at most the task count, with equality exactly when no one is reviewed twice |
| AssignmentExporter.FullCoverageCounts | src/main/java/cn/silence/icu/novautil/review/core/AssignmentExporter.java:122-137 | when the lists cover a pool of distinct ids exactly once, as every engine result does, both counts equal the pool size |

## Left out

- Randomness: `java.util.Random` is not modelled. The shuffle draws from a sequence the caller supplies, so any draws are allowed. No lemma states that every permutation is reachable.
- Exception messages: the text is not modelled. Each exception is an error value carrying the pool name, the repeated id, the reviewee count or the overlapping ids. The `String.join` of the ids is left out.
- LegacyCodeReviewAssigner.SharedIds: it returns the set of shared ids. The iteration order of the Java `HashSet` used to print them is left out.
- Null members in the older engine: the older engine has no null-member check. A null member makes its stream call throw `NullPointerException`. Its pools are therefore modelled as lists of non-null persons.
- CodeReviewAssigner.AssignDirection requires distinct reviewer ids. This private helper is only reached after both pools are validated.
- LegacyCodeReviewAssigner.AssignCross has the same requirement, and also a non-empty `to` whenever `from` is non-empty, for the same reason.
- AssignmentExporter.ConvertSingleToDualFormat requires the input's keys to be distinct. That is the invariant of the `LinkedHashMap` it receives.
- Null keys or values inside the single-pool map are not modelled.
- AssignmentExporter.ValidateAssignment: the raw map is a sequence of entries. Key uniqueness is not modelled there, because validation does not depend on it.
- File output:
  - `exportToCsv` and `exportToMarkdown` write files, the UTF-8 BOM, the row layout, and the Markdown table sorted by employee id. Only their summary counts are modelled.
  - `createParentDir` and all I/O exceptions are left out.
- Clock: `LocalDateTime.now()` is left out. The timestamp is a parameter.
- File system in `generateTimestampedPath`:
  - `File.isDirectory`, `exists` and `isFile` are boolean inputs.
  - The parent directory and `getAbsolutePath` are left out. Only the file name is modelled.
  - `File.separator` is '/' (POSIX).
  - `File`'s normalisation of repeated separators is left out.
- `equalsIgnoreCase` folds ASCII letters only. Java also folds other Unicode letters.
- `Character.UnicodeBlock.of` is modelled as the three code-unit ranges of the blocks it tests.
- FormatUtils.GetDisplayWidth and AssignmentExporter.TotalTasksIsFlattenLength: the sums are unbounded. The Java `int` would overflow past 2^31 − 1 columns or tasks.
- The average per reviewer (`%.1f` of a `double`) is floating point and is left out.
- The `Person` of the `novautil.review.model` package is not part of this model. `cn.silence.icu.Person`, which has the same fields and accessors, stands for it. Its Jackson annotations are left out.
- Configuration loading, console printing, `Main`, the `CodeReviewAssignUtils` wiring and the test classes are left out. They only parse JSON, print and call the engines.

## Findings

| source | as written | input that shows it | evidently intended | confidence | as-written member | corrected member |
|---|---|---|---|---|---|---|
| src/main/java/cn/silence/icu/novautil/review/core/AssignmentExporter.java:210-214 | `!basePath.contains(".")` looks for a dot anywhere in the path | basePath `./exports`, where nothing exists yet: it is taken for a file, and the CSV is named `exports_<timestamp>.csv` in `.` | the comment on line 210 says a path without an extension is a directory, so the file should be `code_review_assignments_<timestamp>.csv` inside `./exports` | medium, not executed | AssignmentExporter.DottedDirectoryTakenForFile | AssignmentExporter.TimestampedFileNameIntended |
