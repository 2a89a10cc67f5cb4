# APEX swarm planning and monitoring, modelled in Dafny

This project models the three planning-and-monitoring functions of the APEX
swarm tooling:

- **Task decomposer** (`functions/task_decomposer.py`). It splits a free-text
  task into components with a regular expression and guesses dependencies
  between them by keyword. It turns the components into `task-NNN` subtasks
  with a size estimate each. It levels the subtasks into groups that can run
  in parallel, breaking a stall by taking the first remaining subtask alone.
  Finally it recommends `single_worker`, `full_parallel`, `sequential` or
  `mixed` and suggests a worker count.
- **Stagnation detector** (`functions/stagnation_detector.py`). It
  fingerprints an execution state, keeps a history of the last twenty
  fingerprints and classifies the history by five ordered rules:
  insufficient history, immediate repetition, a repeated window of length 2
  and up (shortest first), a two-value oscillation, and no pattern.
- **Conflict detector** (`functions/conflict_detector.py`). It intersects the
  changed-file sets of every pair of workers, in list order, and records each
  non-empty overlap with a severity. It suggests a resolution per record:
  manual merge for one file, auto-merge when only documentation or
  configuration files clash, and pausing the workers otherwise.

Each loop of the source is a method proved equal to a specification
function. The properties are lemmas about those functions. The git queries,
the MD5 digest and the history file are parameters of the model.
`dict` iteration order is modelled as insertion order. The Python library
behaviour the code relies on is written out: `str.strip`, `str.lower`,
`str.split` and the substring test in `strings.dfy`; `sorted` in `order.dfy`;
slicing with negative bounds in `pyslice.dfy`; `str(n)` and `f"{n:03d}"` in
`numerals.dfy`. The task-splitting `re.split` and the two `re.sub` clean-ups
are written out in `task_components.dfy` (`SeparatorAt`, `SplitFrom`,
`StripVerb`, `StripNoun`).

Three behaviours of the code are worth stating plainly:

- Forward and cyclic dependencies (functions/task_decomposer.py:61-67). A
  component mentioning "test" depends on every component that does not,
  including later ones. Two user-facing components that both mention "auth"
  depend on each other, which forms a cycle. So dependencies do not only point
  to earlier subtasks. `TaskDependencies.DependenciesSound` states the rules
  as the code applies them.
- Stall break (functions/task_decomposer.py:167-169). When no remaining
  subtask is ready, the code takes the first remaining entry in dictionary
  order, which need not be the lowest id (`ForcedRound`). For the
  decomposer's own subtasks the two coincide, because their ids are distinct
  and created in order (`SubtaskIdsDistinct`).
- Failure (functions/task_decomposer.py:150). `max()` of an empty sequence
  raises `ValueError` when a task with several components is cut to none by
  `max_subtasks` (0, or a negative number at most minus the component count).
  The model returns `NoGroups` then (`TaskDecomposer.Fails`).

## Model

| member | source | states |
|---|---|---|
| PySlice.TakeLast | functions/stagnation_detector.py:48 | `s[-n:]` is the last n elements when 0 < n ≤ len, all of s when n exceeds it or is 0, s without its first -n elements when n is negative, and always a suffix of s |
| PySlice.TakeFirst | functions/stagnation_detector.py:25 | `s[:m]` is the first m elements for 0 ≤ m ≤ len, all of s beyond, len+m elements for negative m, and always a prefix |
| PySlice.TakeLastAppend | functions/stagnation_detector.py:116-119 | cutting to the last n before appending one more gives the same last n as appending to the whole list |
| PySlice.MapSeqSpec | functions/conflict_detector.py:93-111 | the per-element comprehension has one result per element, each the image of its element |
| Numerals.Decimal | functions/task_decomposer.py:115 | the decimal text of a number is non-empty and all digits |
| Numerals.DecimalLeadingDigit | functions/task_decomposer.py:115 | as with `str(n)`, the text starts with 0 only for zero itself |
| Numerals.ZeroPad | functions/task_decomposer.py:115 | `:03d` padding reaches the width only when the number is shorter, and ends with the number's digits |
| Numerals.ZeroPadZeros | functions/task_decomposer.py:115 | the padding characters are all '0': the result is the missing number of zeros followed by the digits |
| Numerals.ParseZeros | functions/task_decomposer.py:115 | any number of leading zeros leaves the value read back unchanged |
| Numerals.ParseDecimalOfDecimal | functions/task_decomposer.py:115 | reading the decimal text back gives the number |
| Numerals.ParseZeroPad | functions/task_decomposer.py:115 | leading zeros do not change the value read back |
| Numerals.PaddedDecimalRoundTrip | functions/task_decomposer.py:115 | a zero-padded number reads back as itself, so padding loses nothing |
| Strings.LowerChar | functions/task_decomposer.py:30 | `lower()` maps A–Z into a–z and leaves every other character unchanged (ASCII only, see Left out) |
| Strings.Lower | functions/task_decomposer.py:74 | `lower()` keeps the length and lowers character by character |
| Strings.ContainsSlice | functions/task_decomposer.py:60 | the `in` test on strings holds exactly when the pattern occurs as a contiguous slice |
| Strings.Strip | functions/task_decomposer.py:34 | `strip()` leaves no whitespace (`IsSpace`, Python's `str.isspace`) at either end and returns a slice of its input |
| Strings.TrimLeft | functions/task_decomposer.py:34 | the characters removed on the left are all whitespace in the sense of `IsSpace`, the rest is a suffix starting with non-whitespace |
| Strings.TrimRight | functions/task_decomposer.py:34 | the characters removed on the right are all whitespace in the sense of `IsSpace`, the rest is a prefix ending with non-whitespace |
| Strings.JoinSplitOn | functions/conflict_detector.py:42 | `split("\n")` loses nothing: joining the pieces gives the text back |
| Strings.SplitOnPieces | functions/conflict_detector.py:42 | no piece of `split("\n")` contains a newline |
| Strings.SplitOnJoin | functions/conflict_detector.py:42 | splitting a newline-joined listing of newline-free names gives the names back |
| Order.LeReflexive | functions/stagnation_detector.py:20 | the string order `Le` (Python's `<=` on `str`, code point by code point) is reflexive |
| Order.LeAntisymmetric | functions/stagnation_detector.py:20 | the string order `Le` is antisymmetric |
| Order.LeTransitive | functions/stagnation_detector.py:20 | the string order `Le` is transitive |
| Order.LeTotal | functions/stagnation_detector.py:20 | any two strings are comparable under `Le` |
| Order.Insert | functions/stagnation_detector.py:21 | insertion into a sorted list keeps it sorted and adds exactly that element |
| Order.Sort | functions/stagnation_detector.py:21 | `sorted` returns an ascending permutation of its input |
| Order.SortedUnique | functions/stagnation_detector.py:21 | two ascending lists with the same elements are equal |
| Order.SortIgnoresOrder | functions/stagnation_detector.py:21 | `sorted` depends only on the multiset of its input |
| Order.MinOf | functions/conflict_detector.py:66 | a non-empty set has a least element under the string order |
| Order.SortedSetSpec | functions/conflict_detector.py:66 | `sorted(list(s))` is ascending, duplicate-free and holds exactly the elements of s |
| StateHash.SortedItems | functions/stagnation_detector.py:20 | `sorted(d.items())` lists every entry once, in ascending key order, with its own value |
| StateHash.HashState | functions/stagnation_detector.py:24-25 | the fingerprint is the first twelve characters of the digest of the projection `Project(s)` |
| StateHash.OtherKeysIgnored | functions/stagnation_detector.py:18-23 | keys other than phase, indicators, recent files and recent actions affect neither `Project` nor the fingerprint |
| StateHash.FileOrderIgnored | functions/stagnation_detector.py:21 | reordering the recent files changes neither the projection nor the fingerprint |
| StateHash.OnlyLastActionsCount | functions/stagnation_detector.py:22 | only the last three recent actions affect the fingerprint |
| StateHash.ProjectionDecides | functions/stagnation_detector.py:18-25 | equal `Project` results give equal fingerprints, and a different phase gives a different `Project` result |
| StateHash.KeptFilesAreGreatest | functions/stagnation_detector.py:21 | the files kept are the up to five greatest names, sorted, not the five most recent |
| StateHash.SortedSuffixIsGreatest | functions/stagnation_detector.py:21 | a suffix of a sorted list is sorted, and everything cut off sorts no later than everything kept |
| StateHash.IndicatorsNormalised | functions/stagnation_detector.py:20 | the indicators enter `Project(s)` once each, with their values, in ascending key order |
| StateHistory.HistoryFile.constructor | functions/stagnation_detector.py:108-114 | the history file starts with the given content, absent when missing or undecodable |
| StateHistory.UpdateHistory | functions/stagnation_detector.py:96-125 | returns the fingerprint of the state and the history `Updated(stored, fingerprint)`: the stored history plus that fingerprint cut to the last twenty, and writes it back when there is a file |
| StateHistory.UpdatedShape | functions/stagnation_detector.py:116-119 | `Updated(prior, h)` never exceeds twenty entries, ends with the new fingerprint and keeps the newest old entries in order |
| StateHistory.ReplayKeepsLast | functions/stagnation_detector.py:116-119 | any run of updates keeps exactly the last twenty of all fingerprints seen |
| StateHistory.TakeLastPrefix | functions/stagnation_detector.py:119 | cutting to twenty before appending more does not change the last twenty afterwards |
| StagnationDetector.DetectStagnation | functions/stagnation_detector.py:28-93 | the detector returns `Classify(history, threshold, max_cycle_length)`, the classification by the five rules in their order |
| StagnationDetector.SearchCycle | functions/stagnation_detector.py:58-75 | the cycle loop finds the verdict for the least period from 2 up to the limit, or none |
| StagnationDetector.CompareHalves | functions/stagnation_detector.py:63-68 | the two halves of the last 2L entries agree exactly when the history ends with period L |
| StagnationDetector.CheckOscillation | functions/stagnation_detector.py:77-93 | the oscillation step returns the oscillation verdict or no pattern, as the rules say |
| StagnationDetector.AgreeFromSlices | functions/stagnation_detector.py:68 | entry-wise agreement L places apart is the equality of the two shifted slices |
| StagnationDetector.PeriodHalves | functions/stagnation_detector.py:64-68 | ending with period L means the last L entries equal the L before them |
| StagnationDetector.WindowHalves | functions/stagnation_detector.py:64-68 | the first half of the window is the earlier block, and the halves agree exactly when the history ends with period L |
| StagnationDetector.CycleLimit | functions/stagnation_detector.py:59 | the search stops at max_cycle_length and at half the history |
| StagnationDetector.FirstCycle | functions/stagnation_detector.py:59-75 | a found cycle length lies in the searched range |
| StagnationDetector.FirstCycleIsLeast | functions/stagnation_detector.py:59-75 | the search returns the least period in range, and nothing only when no length in range is a period |
| StagnationDetector.FirstCycleAt | functions/stagnation_detector.py:68-69 | a period at the start of the range is returned at once |
| StagnationDetector.DedupSpec | functions/stagnation_detector.py:80 | `dict.fromkeys` keeps every value once, nothing else, with the first value first |
| StagnationDetector.Reversed | functions/stagnation_detector.py:84 | `[::-1]` keeps the length and mirrors the positions |
| StagnationDetector.AlternationPalindrome | functions/stagnation_detector.py:83-84 | the five-long alternation reads the same reversed, so the reversed comparison adds nothing |
| StagnationDetector.InsufficientIffShort | functions/stagnation_detector.py:44-45 | `Classify` gives insufficient history exactly when the history is shorter than the threshold, and stagnation needs at least threshold entries |
| StagnationDetector.RepetitionFirst | functions/stagnation_detector.py:47-56 | when the last threshold entries are equal, `Classify` gives immediate repetition of that entry with count threshold |
| StagnationDetector.RepetitionSound | functions/stagnation_detector.py:47-56 | an immediate repetition verdict of `Classify` reports the last entry, repeated in all of the last threshold positions |
| StagnationDetector.CycleIsShortest | functions/stagnation_detector.py:58-75 | a cycle verdict of `Classify` has length between 2 and the limit, reports the repeating window, no shorter length repeats, and no repetition was found first |
| StagnationDetector.CycleFound | functions/stagnation_detector.py:58-75 | a period in range, with no repetition, always makes `Classify` give a cycle verdict no longer than that period |
| StagnationDetector.OscillationSound | functions/stagnation_detector.py:77-91 | an oscillation verdict of `Classify` means the last five entries alternate between two distinct values, and it can only happen when max_cycle_length is below 2 |
| StagnationDetector.PeriodTwoEnding | functions/stagnation_detector.py:59-84 | an ending A B A B is already a cycle of length 2, which is why the oscillation rule never fires otherwise |
| StagnationDetector.NoPatternMeansNoRule | functions/stagnation_detector.py:93 | `Classify` giving no pattern means no repetition, no period in range and no oscillation |
| ConflictDetector.ChangedFiles | functions/conflict_detector.py:37-42 | the changed-file set is empty exactly when git failed or printed nothing, and holds no name containing a newline |
| ConflictDetector.ChangedFilesOfListing | functions/conflict_detector.py:42 | reading back a listing of names gives exactly those names |
| ConflictDetector.RecordContents | functions/conflict_detector.py:62-68 | `MakeRecord` names the two workers, lists the shared files once each in ascending order, and is high exactly when more than three files are shared |
| ConflictDetector.RowPairs | functions/conflict_detector.py:60-63 | the pairs of row i are pairs (i, k) with i < k |
| ConflictDetector.PairsBefore | functions/conflict_detector.py:60-63 | the pairs of the first i rows start below i and have the first position below the second |
| ConflictDetector.RowPairsExact | functions/conflict_detector.py:60-68 | a row holds exactly its overlapping pairs, in increasing order |
| ConflictDetector.RowPairsSound | functions/conflict_detector.py:62-63 | every pair recorded in a row overlaps |
| ConflictDetector.RowPairsComplete | functions/conflict_detector.py:61-63 | every overlapping pair of a row is recorded |
| ConflictDetector.RowPairsIncreasing | functions/conflict_detector.py:61 | a row lists its pairs by increasing second position |
| ConflictDetector.PairsBeforeExact | functions/conflict_detector.py:60-68 | the first i rows hold exactly the overlapping pairs below i, in loop order |
| ConflictDetector.RowRecordsFollowPairs | functions/conflict_detector.py:61-68 | a row's records are the records of its overlapping pairs, in order |
| ConflictDetector.RecordsBeforeFollowPairs | functions/conflict_detector.py:60-68 | the records of the first i rows are the records of their overlapping pairs, in order |
| ConflictDetector.AllFiles | functions/conflict_detector.py:70-73 | the union holds exactly the files some listed worker changed |
| ConflictDetector.DetectConflicts | functions/conflict_detector.py:45-86 | the detector returns `ConflictReport(workers, changed)`, the specified report for the git answers given |
| ConflictDetector.CollectWorkerFiles | functions/conflict_detector.py:50-54 | each listed worker is mapped to its changed files |
| ConflictDetector.FindConflicts | functions/conflict_detector.py:57-68 | the nested loops produce `RecordsBefore(workers, changed, len(workers))`, the records of all rows |
| ConflictDetector.ScanRow | functions/conflict_detector.py:61-68 | the inner loop appends exactly row i's records |
| ConflictDetector.Summarize | functions/conflict_detector.py:70-86 | the summary is that of `ConflictReport(workers, changed)`: it counts the workers, the union of their files and each worker's files |
| ConflictDetector.RecordsMatchPairs | functions/conflict_detector.py:57-68 | there is one record per overlapping pair i < j, in loop order, and nothing else |
| ConflictDetector.HasConflictsIff | functions/conflict_detector.py:76-77 | in `ConflictReport`, has_conflicts holds exactly when two listed workers share a file, and the count is the number of records |
| ConflictDetector.SummaryCounts | functions/conflict_detector.py:79-85 | the summary gives the number of workers, the size of the union of their files and each worker's own count |
| ConflictDetector.StrategyFor | functions/conflict_detector.py:97-111 | manual merge exactly for one file, auto-merge exactly for another count of files all ending .md/.txt/.json, pause otherwise |
| ConflictDetector.Suggestion | functions/conflict_detector.py:98-111 | every suggestion starts with "Workers [w1, w2]: " |
| ConflictDetector.SuggestionTexts | functions/conflict_detector.py:97-111 | after the worker pair comes the manual-merge text quoting the file for one file, the auto-merge text for documentation-only files, or the pause text quoting the file count otherwise |
| ConflictDetector.SuggestResolution | functions/conflict_detector.py:89-113 | one suggestion per record, in record order, each the suggestion for its record |
| ConflictDetector.SingleFileWins | functions/conflict_detector.py:97-101 | a single file, documentation or not, gets the manual-merge text quoting its name |
| TaskComponents.RunEnd | functions/task_decomposer.py:30 | the whitespace run from i ends at or after i, inside the text |
| TaskComponents.RunEndSpec | functions/task_decomposer.py:30 | `\s+` consumes the maximal whitespace run: all of it is whitespace, and what follows is not |
| TaskComponents.RunEndAt | functions/task_decomposer.py:30 | a whitespace stretch followed by non-whitespace or the end is exactly the run `RunEnd` finds |
| TaskComponents.FirstWordBeforeSpace | functions/task_decomposer.py:35 | a word found is shorter than the text, so a character follows it |
| TaskComponents.FirstWordSpec | functions/task_decomposer.py:30-35 | an alternation `(w1\|w2\|...)\s+` anchored at the start matches the first listed word that begins the text and is followed by whitespace, or none of them qualifies |
| TaskComponents.FirstWordIs | functions/task_decomposer.py:30-35 | with whitespace-free words, whenever a listed word begins the text and is followed by whitespace, the alternation matches exactly that word |
| TaskComponents.SeparatorAt | functions/task_decomposer.py:30 | a separator match starting at i ends after i (`SeparatorAtIff` says exactly when one exists) |
| TaskComponents.SeparatorAtIff | functions/task_decomposer.py:30 | a match starts at i and ends at e exactly when s[i..e] is whitespace, a connective, whitespace, and no whitespace follows at e |
| TaskComponents.SeparatorAtFinds | functions/task_decomposer.py:30 | every separator text followed by non-whitespace or the end is found as a match at its start |
| TaskComponents.SeparatorAtEnd | functions/task_decomposer.py:30 | no whitespace follows a match, since the second `\s+` is greedy |
| TaskComponents.SplitFrom | functions/task_decomposer.py:30 | `re.split` gives one more piece than separators |
| TaskComponents.Split | functions/task_decomposer.py:30 | `re.split` gives one more piece than separators |
| TaskComponents.SplitRebuilds | functions/task_decomposer.py:30 | the pieces and the separator texts between them give the text back |
| TaskComponents.SplitSeparators | functions/task_decomposer.py:30 | every separator cut out is a whole match of `\s+(and\|with\|plus\|\+\|,)\s+` |
| TaskComponents.SeparatorTextAt | functions/task_decomposer.py:30 | the text of a match is whitespace, a connective, whitespace |
| TaskComponents.FirstPiece | functions/task_decomposer.py:30 | the first piece is the text from the scan start up to its own length |
| TaskComponents.SplitPiecesStart | functions/task_decomposer.py:30 | every piece after the first is empty or starts with non-whitespace |
| TaskComponents.SplitPiecesTrimmed | functions/task_decomposer.py:30 | in the split of the whole text, every piece after the first is empty or starts with non-whitespace |
| TaskComponents.SplitLeftmost | functions/task_decomposer.py:30 | each cut is at the leftmost match: no separator match starts inside any piece |
| TaskComponents.SplitIsLeftmost | functions/task_decomposer.py:30 | the split of the whole text has no match starting inside any piece |
| TaskComponents.MatchFreeCons | functions/task_decomposer.py:30 | a match-free piece in front of a match-free split keeps the split match-free |
| TaskComponents.NoSeparatorNoSplit | functions/task_decomposer.py:30 | a text with no match is returned whole |
| TaskComponents.PartsAreSlices | functions/task_decomposer.py:30 | every piece is a slice of the lower-cased task |
| TaskComponents.StripVerb | functions/task_decomposer.py:35 | removing a leading verb leaves a suffix, and leaves no leading whitespace unless nothing was removed (`StripVerbRemoves` and `StripVerbKeeps` say exactly what is removed) |
| TaskComponents.StripVerbRemoves | functions/task_decomposer.py:35 | for p = w + ws + q, with w a verb, ws non-empty whitespace and q empty or starting with non-whitespace, the result is q |
| TaskComponents.StripVerbKeeps | functions/task_decomposer.py:35 | when no verb followed by whitespace begins p, p is returned unchanged |
| TaskComponents.WordRemoves | functions/task_decomposer.py:35 | for any whitespace-free word list, the word w of p = w + ws + q is matched and what follows it, left-trimmed, is q |
| Strings.TrimLeftRun | functions/task_decomposer.py:35 | left-trimming whitespace followed by a text that starts with non-whitespace gives exactly that text |
| TaskComponents.NounEnding | functions/task_decomposer.py:36 | a trailing noun match is preceded by whitespace inside the piece (`NounEndingOf` and `NounEndingSound` say exactly when and how long) |
| TaskComponents.NounEndingOf | functions/task_decomposer.py:36 | for p = q + ws + w + t, with w a noun, t empty or "s" and ws non-empty whitespace, the ending found has the length of w + t |
| TaskComponents.NounEndingSound | functions/task_decomposer.py:36 | an ending found starts right after a whitespace character and is a noun, alone or plural |
| TaskComponents.NounEndingFinds | functions/task_decomposer.py:36 | whenever some listed noun, alone or plural, ends p after whitespace, an ending is found |
| TaskComponents.NounEndingHit | functions/task_decomposer.py:36 | an ending found is a listed noun, counted with its plural `s` when it has one |
| TaskComponents.EndingIs | functions/task_decomposer.py:36 | for any whitespace-free noun list, the ending found is the noun ending that is there, `s` included |
| TaskComponents.EndingFound | functions/task_decomposer.py:36 | for any noun list, an ending found follows whitespace and is a listed noun, alone or plural |
| TaskComponents.StripNoun | functions/task_decomposer.py:36 | removing a trailing noun leaves a prefix, with no trailing whitespace unless nothing was removed (`StripNounRemoves` and `StripNounKeeps` say exactly what is removed) |
| TaskComponents.StripNounRemoves | functions/task_decomposer.py:36 | for p = q + ws + w + t, with w a noun, t empty or "s", ws non-empty whitespace and q empty or ending with non-whitespace, the result is q |
| TaskComponents.StripNounKeeps | functions/task_decomposer.py:36 | when no noun, alone or plural, ends p right after whitespace, p is returned unchanged |
| Strings.TrimRightRun | functions/task_decomposer.py:36 | right-trimming a text that ends with non-whitespace, followed by whitespace, gives exactly that text |
| TaskComponents.StripVerbIsSlice | functions/task_decomposer.py:35 | the verb removal returns a slice of the piece |
| TaskComponents.StripNounIsSlice | functions/task_decomposer.py:36 | the noun removal returns a slice of the piece |
| TaskComponents.CleanIsSlice | functions/task_decomposer.py:33-36 | `Clean(part)` is a slice of the piece |
| TaskComponents.CleanIsStripped | functions/task_decomposer.py:34-36 | `Clean(part)` has no whitespace at either end |
| TaskComponents.KeptPiecesSnoc | functions/task_decomposer.py:37-38 | `KeptPieces` appends the cleaned piece exactly when it is longer than two characters |
| TaskComponents.ExtractComponents | functions/task_decomposer.py:24-40 | the loop returns `Components(task)`: the pieces of the split, each passed through `Clean`, kept by `KeptPieces` when longer than two characters, in order |
| TaskComponents.KeptPiecesShape | functions/task_decomposer.py:33-38 | every member of `KeptPieces(parts)` is long enough, stripped, a slice of the text and free of upper case |
| TaskComponents.ComponentsShape | functions/task_decomposer.py:24-40 | every member of `Components(task)` is a stripped slice of the lower-cased task, longer than two characters, with no upper-case letter |
| TaskComponents.SliceNoUpper | functions/task_decomposer.py:30 | a slice of a lower-cased text has no upper-case letter |
| TaskDependencies.TestDepsMembers | functions/task_decomposer.py:61 | the test rule lists exactly the other components that do not mention "test" |
| TaskDependencies.AuthDepsMembers | functions/task_decomposer.py:65-67 | the auth rule appends exactly the other components that mention "auth" |
| TaskDependencies.Initial | functions/task_decomposer.py:45 | every component starts with an entry |
| TaskDependencies.Step | functions/task_decomposer.py:58-67 | one loop step keeps the set of keys |
| TaskDependencies.DepsAfter | functions/task_decomposer.py:58-67 | the keys are the components throughout the loop |
| TaskDependencies.Dependencies | functions/task_decomposer.py:43-69 | the result has one key per component |
| TaskDependencies.StepMembers | functions/task_decomposer.py:60-67 | a step changes only its own component's entry, which then holds what the rules give, plus the old entry when the test rule did not replace it |
| TaskDependencies.DepsAfterMembers | functions/task_decomposer.py:58-67 | after n steps, a component lists exactly its rule dependencies if it was among the first n, otherwise nothing |
| TaskDependencies.DependenciesSound | functions/task_decomposer.py:43-69 | each component's list holds exactly the components the two rules give it, never itself and only components |
| TaskDependencies.StepExact | functions/task_decomposer.py:60-67 | from an empty entry, a step gives the test list followed by the auth list |
| TaskDependencies.DepsAfterExact | functions/task_decomposer.py:58-67 | with no repeated component, each list is exactly the test rule's list followed by the auth rule's list |
| TaskDependencies.DependenciesExact | functions/task_decomposer.py:43-69 | with no repeated component, each list is the test list then the auth list, both in component order |
| TaskDependencies.DetectDependencies | functions/task_decomposer.py:43-69 | the loop returns `Dependencies(components)`, the specified dependency map |
| TaskDependencies.ApplyRules | functions/task_decomposer.py:59-67 | one iteration returns `Step(deps, components, component)`: the test rule then the auth rule |
| TaskDependencies.AppendAuth | functions/task_decomposer.py:65-67 | the inner loop appends the other auth components in order |
| Subtasks.TaskId | functions/task_decomposer.py:115 | an id is "task-" followed by at least three characters |
| Subtasks.TaskIdDigits | functions/task_decomposer.py:115 | after "task-" come only digits, which read back as the number: the number zero-padded to three places |
| Subtasks.TaskIdInjective | functions/task_decomposer.py:115 | distinct numbers give distinct ids, also beyond 999 |
| Subtasks.FirstTaskId | functions/task_decomposer.py:97 | number 1 gives "task-001" |
| Subtasks.EstimateSizeRules | functions/task_decomposer.py:72-85 | `EstimateSize` gives L exactly when a large word occurs, S exactly when a small word occurs and no large word does, M otherwise |
| Subtasks.SmallIsLarge | functions/task_decomposer.py:77-81 | a description containing "small" is always L, since "small" contains "all" |
| ParallelGroups.IdIndex | functions/task_decomposer.py:157 | the position found is the first with that id, or the end when there is none |
| ParallelGroups.Entries | functions/task_decomposer.py:157 | the dictionary has no more entries than the list |
| ParallelGroups.UpsertSpec | functions/task_decomposer.py:157 | `Upsert` (setting a key) keeps the ids distinct and adds exactly that id |
| ParallelGroups.EntriesSpec | functions/task_decomposer.py:157 | the dictionary has one entry per distinct id of the list |
| ParallelGroups.EntriesKeepLast | functions/task_decomposer.py:157 | with a repeated id, the last subtask given for it is the one the dictionary keeps |
| ParallelGroups.EntriesFirstOrder | functions/task_decomposer.py:157 | the dictionary lists ids in the order of their first occurrence in the list |
| ParallelGroups.IdIndexSnoc | functions/task_decomposer.py:157 | appending a subtask moves no first occurrence, and a new id first occurs at the end |
| ParallelGroups.EntriesOfDistinct | functions/task_decomposer.py:157 | with distinct ids the dictionary keeps the list as it is, in order |
| ParallelGroups.Without | functions/task_decomposer.py:172-174 | deleting keys never adds entries |
| ParallelGroups.WithoutMembers | functions/task_decomposer.py:172-174 | an entry survives deletion exactly when its id was not deleted |
| ParallelGroups.WithoutIds | functions/task_decomposer.py:172-174 | the ids left are exactly the ids not deleted |
| ParallelGroups.WithoutShrinks | functions/task_decomposer.py:170-174 | deleting a present id shortens the dictionary |
| ParallelGroups.WithoutDistinct | functions/task_decomposer.py:172-174 | deletion keeps ids distinct |
| ParallelGroups.WithoutWithout | functions/task_decomposer.py:172-174 | deleting keys one by one equals deleting them together |
| ParallelGroups.WithoutFirst | functions/task_decomposer.py:166-168 | the first entry left is the first of the dictionary whose id was not deleted |
| ParallelGroups.ReadyIdsMembers | functions/task_decomposer.py:161-164 | an id is in `ReadyIds(rem, done)` exactly when its entry has all dependencies completed |
| ParallelGroups.ReadyIdsDistinct | functions/task_decomposer.py:161-164 | the ready list holds no id twice |
| ParallelGroups.RoundSpec | functions/task_decomposer.py:160-170 | the group of `RoundOf(rem, done)` is non-empty, duplicate-free and made of remaining ids |
| ParallelGroups.Rest | functions/task_decomposer.py:170-174 | each round leaves fewer entries, still with distinct ids, so the loop terminates |
| ParallelGroups.RoundsPartition | functions/task_decomposer.py:158-177 | the groups of `Rounds(rem, done)` hold every id of the dictionary exactly once and nothing else |
| ParallelGroups.RoundsCount | functions/task_decomposer.py:159-174 | there are at most as many groups as entries, and at least one when there is an entry |
| ParallelGroups.RoundAt | functions/task_decomposer.py:159-174 | group k is formed from the entries not placed in earlier groups, with those placed counted as completed |
| ParallelGroups.GroupNonEmpty | functions/task_decomposer.py:166-170 | no group is empty |
| ParallelGroups.DependenciesEarlier | functions/task_decomposer.py:161-164 | a task taken as ready has every dependency completed before or placed in a strictly earlier group |
| ParallelGroups.ForcedRound | functions/task_decomposer.py:166-168 | a forced group holds one id, that of the first unplaced entry in dictionary order, and no unplaced entry was ready |
| ParallelGroups.GroupsPartition | functions/task_decomposer.py:154-177 | every subtask id is in exactly one group of `GroupsFor(subtasks)`, and the groups hold nothing else |
| ParallelGroups.GroupCount | functions/task_decomposer.py:154-177 | at most one group per subtask, and at least one group when there is a subtask |
| ParallelGroups.RoundStep | functions/task_decomposer.py:159-174 | one iteration appends the round's group and leaves the groups of the entries it keeps |
| ParallelGroups.ComputeParallelGroups | functions/task_decomposer.py:154-177 | the loop returns `GroupsFor(subtasks)`, the groups of the rounds |
| ParallelGroups.ReadyOf | functions/task_decomposer.py:161-164 | the scan returns `ReadyIds(remaining, completed)`, the ready ids in dictionary order |
| ParallelGroups.Retire | functions/task_decomposer.py:172-174 | each deleted id is still a key when deleted; the group leaves the dictionary and joins the completed set |
| ParallelGroups.DistinctSameLength | functions/task_decomposer.py:139 | two duplicate-free lists with the same elements have the same length |
| ParallelGroups.FlattenLength | functions/task_decomposer.py:139-140 | non-empty groups number at most their ids, and exactly as many when each holds one id |
| TaskDecomposer.IndexOf | functions/task_decomposer.py:121 | `index` returns the first position holding the value |
| TaskDecomposer.DepIdsMembers | functions/task_decomposer.py:119-123 | `DepIds(cs, deps)` holds exactly the ids of the first subtasks of the named components |
| TaskDecomposer.DepIdsEmpty | functions/task_decomposer.py:119-123 | no id is produced exactly when no dependency names a component |
| TaskDecomposer.SubtasksFor | functions/task_decomposer.py:114-131 | one subtask per kept component, in order |
| TaskDecomposer.MaxLen | functions/task_decomposer.py:148 | `max(len(g) ...)` is at least every group's size and equal to some group's size |
| TaskDecomposer.SingleTask | functions/task_decomposer.py:93-105 | with at most one component, `Decompose` gives `Single(task)`: the one subtask task-001 over the whole task, with no dependencies, parallel-safe, alone in its group, single_worker, without a worker count |
| TaskDecomposer.PlanFails | functions/task_decomposer.py:134-148 | `Plan(task, cs)` fails exactly when no component is kept |
| TaskDecomposer.Fails | functions/task_decomposer.py:108-148 | `Decompose` fails exactly when there are several components and max_subtasks cuts them all |
| TaskDecomposer.SubtaskShape | functions/task_decomposer.py:114-131 | `SubtaskFor(cs, deps, i)` has id task-(i+1), description "Implement " plus its component, and its component's size |
| TaskDecomposer.SubtaskIdsDistinct | functions/task_decomposer.py:115 | subtask ids are distinct, so grouping sees the subtasks in their own order |
| TaskDecomposer.DependencyIds | functions/task_decomposer.py:117-123 | a subtask depends on exactly the ids of the components its component depends on |
| TaskDecomposer.ParallelSafe | functions/task_decomposer.py:125-131 | a subtask is parallel-safe exactly when its component depends on nothing, and it never depends on itself |
| TaskDecomposer.DependenciesAreSubtasks | functions/task_decomposer.py:119-123 | every dependency id names one of the subtasks |
| TaskDecomposer.RecommendRules | functions/task_decomposer.py:137-142 | `Recommend` gives full_parallel exactly for one group, sequential exactly when each of several groups holds one subtask, mixed otherwise |
| TaskDecomposer.WorkerCount | functions/task_decomposer.py:148 | the worker count is the largest group size capped at three, between one and three |
| TaskDecomposer.PlanGroups | functions/task_decomposer.py:134-142 | the groups of a decomposition cover its subtasks once each and are non-empty, and the recommendation follows the rules |
| TaskDecomposer.DecomposeTask | functions/task_decomposer.py:88-151 | the function returns `Decompose(task, max_subtasks)`, the specified outcome |
| TaskDecomposer.BuildSubtasks | functions/task_decomposer.py:114-131 | the loop returns `SubtasksFor(components, deps)`, one `SubtaskFor` per component |
| TaskDecomposer.MakeSubtask | functions/task_decomposer.py:115-131 | one iteration returns `SubtaskFor(components, deps, i)` |
| TaskDecomposer.TranslateDeps | functions/task_decomposer.py:119-123 | the inner loop returns `DepIds(components, deps)` |

## Left out

- `run_git`, `get_repo_root` and `get_changed_files`'s subprocess call are left out. Git's answer for each worker is the parameter `changed`, and `ChangedFiles` models the parsing of its output. The exit when the directory is not a repository is not modelled.
- The MD5 digest and `json.dumps` of the projection are the parameter `digest`. The model states what the fingerprint depends on, not the digest's bytes.
- File input and output of the history is the `HistoryFile` object. A missing file or one that is not valid JSON is read as `None`, and stored content is a list of fingerprints. Not modelled: a file holding valid JSON that is not a list (`{}`, `"x"`, `3`, `null`), which is loaded and then makes the append raise; other `OSError`s on reading, such as a permission error, which propagate; and errors when writing.
- StateHash.State: the state is typed. `HashState` therefore does not model three failures of the untyped dictionary: the `TypeError` from `sorted` when `recent_files` mixes types, the `AttributeError` when `indicators` is not an object, and a string `recent_actions`, which would be sliced as text. `recent_files` is a list of strings.
- StateHash.Json: there is no floating-point constructor, so float values in the state (an indicator of 0.5, say) are not represented. Floating point is not part of this model.
- `main` functions, argument parsing, printing and exit codes are left out, including the "invalid history" message of the stagnation command line.
- The `dependency_hints` table in `detect_dependencies` is built but never read, so it is not modelled.
- Strings.Lower: models `str.lower()` on ASCII letters only, because Unicode case mapping is not part of this model.
- Strings.LowerChar: leaves non-ASCII letters unchanged, where Python lowers them, for the same reason.
- The verdict's `suggestion` texts in the stagnation result are not modelled. `Label` and `Count` model the type and count fields.
- TaskComponents.StripNoun: `$` in Python also matches just before a final newline. This is not modelled, because pieces are stripped before the noun is removed, so no piece ends in a newline.
- `graph_manager.py` and `worktree_manager.py` are not part of this model.
