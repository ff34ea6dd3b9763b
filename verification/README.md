# Verified models of gitoxide's algorithmic kernels

gitoxide is a Rust implementation of Git. This project models the parts of it in which a fast, stateful piece of
code has to agree with a simple meaning, and proves that it does, for all inputs and all runs. It is written in
Dafny 4.11; `dafny verify dfyconfig.toml` checks all of it.

| file | what it models | main results |
|---|---|---|
| `Wildmatch.dfy`, `Brackets.dfy`, `WildmatchLosses.dfy`, `WildmatchLoops.dfy`, `GlobPattern.dfy` | `gix-glob` | the backtracking matcher with Git's abort codes and its depth limit decides a declarative glob relation; a bracket accepts exactly the bytes it lists; the shortcuts of `Pattern::matches` change no answer |
| `DiffMarks.dfy`, `DiffEngine.dfy`, `Hunks.dfy`, `Interner.dfy`, `LineDiff.dfy` | `gix-imara-diff` | whatever the heuristics answer, the hunks that come out turn the old file into the new one |
| `RarestBlock.dfy`, `Twins.dfy`, `Histogram.dfy` | `gix-imara-diff` | the histogram algorithm divides files by the block with the rarest token, and no hunk has the same line on both sides but for lines behind frequent ones where it gives up |
| `SliderPlaces.dfy`, `Slider.dfy` | `gix-imara-diff` | postprocessing puts every hunk next to changes of the other file or where the heuristic wants it, and changes nothing but places |
| `EditDistance.dfy`, `FurthestPaths.dfy`, `ShortestPaths.dfy`, `MiddleSnake.dfy`, `HunkSize.dfy` | `gix-imara-diff` | the search for a middle snake ends on a shortest path, so the minimal algorithm's hunks, and those of Myers between files with few differences, are the smallest that turn the old file into the new one |
| `Fsck.dfy` | `gix-fsck` | the connectivity walk terminates on every object graph, succeeds exactly on sound ones and then has seen exactly what is reachable |
| `Snapshot.dfy` | `gix-fs` | in every interleaving, a snapshot is at least as new as the file was at the call's first look at it; a call that nothing comes between returns and stores the present content |
| `PathStack.dfy` | `gix-fs` | the delegate is called for exactly what the old and the new path differ in, up to the first callback that fails, and its open directories always match the stack |
| `ErrorChain.dfy` | `gix-error` | walking frames and flattened chains with shared cursors is breadth-first traversal of the error tree |
| `CommitGraph.dfy` | `gix-commitgraph` | iterating over a commit yields exactly its parents; verification succeeds exactly on consistent graphs, and then its answer is the length of the longest path; lookup inverts positions exactly if the fan-out tables are right |
| `ShellWords.dfy` | `gix-command` | every command line has at most one reading, and the parser finds it or reports where reading stops |
| `Ewah.dfy` | `gix-bitmap` | encoding and decoding are inverse, and visiting yields the set bits of the run-length expansion |
| `Ident.dfy` | `gix-filter` | undoing an applied `$Id$` filter gives back exactly the stable texts |
| `Capabilities.dfy`, `BundleHeader.dfy` | `gix-bundle` | exactly the well-formed headers survive being written in front of any pack data; the valid filters are exactly the texts of filters that nest at most 8 deep, each with one meaning |
| `BlameRanges.dfy` | `gix-blame` | the kept ranges cover exactly the lines that were asked for, and are their only normal form exactly if every range without a line has been merged away |
| `Common.dfy` | | options and results, bytes, and places in sequences, as the other files use them |

How the model is built:

- Rust sub-slices are offsets into the whole sequence; vectors that are filled in place are arrays or fields of
  classes; iterators with state are classes.
- Heuristics are parameters, so that the theorems hold for every choice: at which cost a Myers split gives up, which
  common lines to prune, where a slider comes to rest, which delegate callback fails.
- The vectors of a Myers split start with arbitrary values where the code leaves what an earlier split wrote.
- Files, clocks, hashes and the object database are parameters or state of the model. Threads are a state machine
  over their atomic steps.

Where the code does something other than what was to be expected:

- `*[\a-[:foo:]x]` should match `afx]` but is refused (`EscapedRangeLosesMatch`), and so is `ab` by
  `*[\b-[:alpha:]b]` (`TwoReadingsLoseMatch`). In a bracket, a byte after a backslash that equals the text byte does
  not become the start of a following range (`gix-glob/src/wildmatch.rs:246-260`), so where the bracket ends depends on
  the text byte, and the abort codes prune too much. `WildIsExact` shows that nothing is lost if every bracket behind
  a `*` that the pattern can reach ends in the same place for all bytes it is tried on; `PlainRangesAreSafe` says that
  this is so for every pattern without a `*`, without an escaped byte in front of a `-`, or without `-[:`.
  `OneEndIsExact` is the converse for a `*` directly in front of a bracket of which all readings that accept a byte end
  in the same place: nothing is lost if and only if no byte reads it as malformed or to another end.
- `xx[[:]yz]` should match `xx:yz]` but refuses it and accepts `xxy` (`RestartMisreads`): a `[:` that no `:]` closes
  makes the bracket go on in a new iterator, whose indices start again at zero (`gix-glob/src/wildmatch.rs:291-301`).
  The glob relation reads such a `[` as an ordinary byte of the set, as Git does. The loops are modelled with the
  restart; `WildmatchText` shows that what they accept is right for every pattern that reaches no such bracket.
- A fan-out table that does not fit the ids makes `lookup` miss ids that are there, and verification accepts it
  (`FanLosesId`; a note at `gix-commitgraph/src/file/verify.rs:56` has this as still to be done). `VerifiedLookup`
  gives the exact condition.
- The heuristic of a Myers split that looks for a long snake in front of a place compares the tokens with the same
  indices in both files, not those in front of the place (`ForwardSnakeIsElsewhere`). It only chooses the split.
- The histogram algorithm can give up although the files share a token that occurs once (`GivesUpOnRare`): a block
  that is longer replaces the best one even if all its tokens are frequent (`gix-imara-diff/src/histogram/lcs.rs:116`),
  and the place of a further occurrence in the old file is compared with the end of the block in the new one (line 127).
  `GivesUpMeans` says what is true of all files: every shared token is frequent or follows a frequent one in a common
  stretch. `GivesUpExactly` is an equivalence for files in which no rare token follows a frequent one in both.
- A deletion during a call can leave a snapshot older than the first look at the file (`DeletionLeavesStale`), as a
  comment in the code concedes; `SnapshotsAreRecent` states the guarantee for calls without one.
- Of a line that ends with two carriage returns a bundle header keeps one, which is lost when the header is written and
  read again. `ReadableExactly` says which headers can be read at all, `RoundTrip` which of them survive.
- Blame ranges without a line are kept until a range covers or touches them (`Merge`), so the ranges need not be in
  normal form, but the lines are right.
- Undoing the `$Id$` filter is the inverse of applying it for more texts than those it leaves alone:
  `RoundTrip` gives the exact condition.

## Model

| member | source | states |
|---|---|---|
| `Wildmatch.WalkSound` | gix-glob/src/wildmatch.rs:55-222 | a match that the recursion reports is a match of the declarative glob relation, at every depth |
| `Wildmatch.WalkMeans` | gix-glob/src/wildmatch.rs:55-222 | every result code means what the pruning relies on: "abort all" excludes all later positions, "abort to `**`" those in the same path component |
| `Wildmatch.RetryMeaning` | gix-glob/src/wildmatch.rs:180-221 | giving up early in the retry loop loses no match |
| `Wildmatch.WalkDepth` | gix-glob/src/wildmatch.rs:53-63 | a match leaves room for all levels below the limit, so it needs at least as many as the rest of the pattern has runs of `*` that recurse |
| `Wildmatch.LevelsBounded` | gix-glob/src/wildmatch.rs:97-131 | these are at most the runs of `*` in its text |
| `Wildmatch.WildIsSound` | gix-glob/src/wildmatch.rs:405-411 | for every pattern, text and mode, what the recursion accepts the glob relation accepts |
| `Wildmatch.WildIsExact` | gix-glob/src/wildmatch.rs:405-411 | if every reachable item behind a `*` reads the same for all bytes, the recursion accepts exactly the texts of the glob relation whose runs of `*` nest less than 64 deep; with fewer than 64 runs that is all of them |
| `Wildmatch.UnescapedSteady` | gix-glob/src/wildmatch.rs:240-389 | without an escaped byte in front of `-`, where a bracket ends does not depend on the text |
| `Wildmatch.AlignedSteady` | gix-glob/src/wildmatch.rs:246-301 | without `-[:`, two bytes read a bracket in steps that part by at most one item and meet again, so it ends in the same place |
| `Wildmatch.PlainRangesAreSteady` | gix-glob/src/wildmatch.rs:246-301 | patterns of either kind read the same for all bytes |
| `Wildmatch.PlainRangesAreSafe` | gix-glob/src/wildmatch.rs:246-301 | so pruning is safe for them and for all patterns without a `*` |
| `Brackets.BracketLists` | gix-glob/src/wildmatch.rs:223-389 | a bracket that is written from bytes, escaped bytes, ranges and classes is read to its end and accepts exactly the bytes that one of them stands for, or exactly the others behind `!` or `^`, and no slash in path mode |
| `WildmatchLosses.EscapedRangeLosesMatch` | gix-glob/src/wildmatch.rs:246-260 | a pattern and a text of the glob relation that the recursion refuses because one reading of a bracket is malformed |
| `WildmatchLosses.TwoReadingsLoseMatch` | gix-glob/src/wildmatch.rs:246-260 | the same although both readings are well formed |
| `WildmatchLosses.MalformedReadingLoses` | gix-glob/src/wildmatch.rs:180-221 | if the bracket behind a leading `*` is malformed for the first byte of a text, the text is refused even if the bracket and the rest match at a later place |
| `WildmatchLosses.ShortReadingLoses` | gix-glob/src/wildmatch.rs:180-221 | the same if the bracket accepts the first byte and what follows it then agrees with the text to its end, with pattern left over |
| `WildmatchLosses.OneEndIsExact` | gix-glob/src/wildmatch.rs:246-260 | for a leading `*` in front of a bracket whose accepting readings end in the same place, with a steady rest that some text matches, the recursion decides the glob relation on all texts if and only if pruning is safe |
| `WildmatchLoops.ScanBracket` | gix-glob/src/wildmatch.rs:223-389 | the loop over a bracket, restarts of its iterator included, computes one step: where the bracket ends, where indices are counted from and whether the byte is in it |
| `WildmatchLoops.MatchRecursive` | gix-glob/src/wildmatch.rs:55-96 | the loop over pattern and text computes the recursive specification of the five result codes |
| `WildmatchLoops.MatchStar` | gix-glob/src/wildmatch.rs:97-222 | a run of `*` either decides the result or goes on behind a slash, as the specification says |
| `WildmatchLoops.RetryLoop` | gix-glob/src/wildmatch.rs:180-221 | trying the rest of the pattern at later positions, skipping ahead to a literal, computes the specification |
| `WildmatchLoops.RunIsWalk` | gix-glob/src/wildmatch.rs:281-302 | from where no reachable bracket restarts, the loops compute the recursion about which the meaning is proved |
| `WildmatchLoops.ClosedClassesAreClean` | gix-glob/src/wildmatch.rs:281-302 | no bracket restarts if every `[:` is closed by `:]` |
| `WildmatchLoops.WildmatchText` | gix-glob/src/wildmatch.rs:405-411 | for every pattern the matcher computes the specification; without a restart it accepts only texts of the glob relation, and exactly these if pruning is safe as well |
| `WildmatchLoops.LoopsLoseEscapedRange` | gix-glob/src/wildmatch.rs:246-260 | the loops lose the match that a malformed reading loses |
| `WildmatchLoops.LoopsLoseTwoReadings` | gix-glob/src/wildmatch.rs:246-260 | and the one that two well-formed readings lose |
| `WildmatchLoops.RestartMisreads` | gix-glob/src/wildmatch.rs:291-301 | a pattern that restarts and for which pruning is safe; the loops refuse a text of the glob relation and accept one outside of it |
| `GlobPattern.FirstWildcardPos` | gix-glob/src/parse.rs:51-53 | the first glob character, or none if there is none |
| `GlobPattern.SplitSlashes` | gix-glob/src/parse.rs:31-38 | leading and trailing slash are taken off and remembered; nothing else is lost |
| `GlobPattern.Parse` | gix-glob/src/parse.rs:12-49 | blank patterns are refused; otherwise rendering the parsed pattern gives back the text, and the flags say what is in it |
| `GlobPattern.SuffixShortcut` | gix-glob/src/pattern.rs:136-150 | comparing the end of the value is the same as matching `*literal` |
| `GlobPattern.LiteralIsExact` | gix-glob/src/pattern.rs:136-174 | patterns whose only glob character is a leading `*` are matched exactly |
| `GlobPattern.RunOfPrefix` | gix-glob/src/pattern.rs:152-174 | whatever the rest of a pattern is, the text in front of its first wildcard has to be equal |
| `GlobPattern.MatchesIsAccepting` | gix-glob/src/pattern.rs:136-174 | for every parsed pattern, value and mode the shortcuts give the answer of the full matcher |
| `DiffMarks.FindHunkEnd` | gix-imara-diff/src/util.rs:109-111 | the end of a run of marked tokens |
| `DiffMarks.FindHunkStart` | gix-imara-diff/src/util.rs:114-120 | the start of a run of marked tokens |
| `DiffMarks.FindNextChange` | gix-imara-diff/src/util.rs:101-106 | the distance to the next marked token, if there is one |
| `Slider.MovedKeeps` | gix-imara-diff/src/postprocess.rs:129-162 | exchanging a mark at one end of a run for one at the other keeps the sequence of unmarked tokens |
| `Slider.Postprocessor.SlideDown` | gix-imara-diff/src/postprocess.rs:129-145 | moves exactly if the first token equals the one behind the hunk; kept tokens, the number of marks and the alignment with the other file stay, and merging only grows the hunk |
| `Slider.Postprocessor.SlideUp` | gix-imara-diff/src/postprocess.rs:147-162 | the same upwards |
| `Slider.Postprocessor.NextHunk` | gix-imara-diff/src/util.rs:70-98 | the next run of added tokens together with the run of removed ones in front of which equally many tokens are kept |
| `Slider.Postprocessor.SlideAllUp` | gix-imara-diff/src/postprocess.rs:86-90 | the first phase terminates, only grows the hunk, and ends where it can slide up no further |
| `Slider.Postprocessor.SlideAllDown` | gix-imara-diff/src/postprocess.rs:92-97 | the second phase terminates where the hunk can slide down no further; its last stretch without merging is recorded, and whether removed tokens were met in it |
| `Slider.Postprocessor.Settle` | gix-imara-diff/src/postprocess.rs:83-103 | repeating both phases ends with a hunk that slid down without merging from the highest place it can have to the lowest, having absorbed all it met; the hunks in front of it stay undisturbed |
| `Slider.Postprocessor.AlignWithRemoved` | gix-imara-diff/src/postprocess.rs:108-115 | sliding back up until removed tokens are met always succeeds, and ends in the last place of the hunk that is next to some |
| `Slider.Postprocessor.Retrace` | gix-imara-diff/src/postprocess.rs:112-123 | every slide up in the placement phase succeeds, undoes one slide down and merges nothing |
| `Slider.Postprocessor.MoveTo` | gix-imara-diff/src/postprocess.rs:117-123 | for every answer of the heuristic, the hunk ends there, or at the nearest end it can have |
| `Slider.Postprocessor.Rest` | gix-imara-diff/src/postprocess.rs:104-123 | a settled hunk that can slide is moved next to removed tokens if it met some, else by the heuristic; then it and all hunks in front of it are placed |
| `Slider.Postprocessor.Run` | gix-imara-diff/src/postprocess.rs:76-126 | for every heuristic that answers for all slidable hunks the whole pass terminates, keeps the sequence of unmarked tokens, and leaves every hunk between its highest and its lowest place: in the last one next to removed tokens if there is one, else where the heuristic wants it; it cannot slide up to touch another one, and on the way down it took in all that was marked |
| `SliderPlaces.PlacedStable` | gix-imara-diff/src/postprocess.rs:76-126 | changes behind a placed hunk that do not touch it leave it placed |
| `SliderPlaces.TopIs` | gix-imara-diff/src/postprocess.rs:86-90 | the highest place of a hunk is the one that it can reach and from which it can slide up no further |
| `SliderPlaces.BottomIs` | gix-imara-diff/src/postprocess.rs:92-97 | the same for the lowest place |
| `Slider.PostprocessWith` | gix-imara-diff/src/postprocess.rs:21-45 | both passes keep a diff valid, with the same unmarked tokens and the same number of marks on either side, and place all hunks: those of removed tokens with regard to the added ones, then those of added tokens with regard to where the removed ones are then |
| `Slider.BestSliderEnd` | gix-imara-diff/src/slider_heuristic.rs:73-100 | the indentation heuristic keeps the place that improved last on the best one before it, from at most 100 places up to the end, within the bounds the placement phase relies on |
| `Slider.IndentServes` | gix-imara-diff/src/slider_heuristic.rs:73-100 | for every scoring it answers whenever a hunk is to be placed |
| `DiffMarks.CommonPrefix` | gix-imara-diff/src/util.rs:8-17 | the longest common prefix |
| `DiffMarks.CommonPostfix` | gix-imara-diff/src/util.rs:20-29 | the longest common postfix |
| `DiffMarks.CommonEdges` | gix-imara-diff/src/util.rs:32-36 | both at once, without overlap, and the tokens inside differ at both edges |
| `DiffEngine.Preprocess` | gix-imara-diff/src/myers/preprocess.rs:120-149 | the pruned file is an ordered part of the file, and exactly the tokens left out of it are marked |
| `DiffEngine.MarkChanged` | gix-imara-diff/src/myers/slice.rs:31-35 | marks the tokens of a slice and nothing else |
| `DiffEngine.KeptLift` | gix-imara-diff/src/myers/preprocess.rs:120-149 | what is unmarked in a file is what is unmarked in its pruned form |
| `EditDistance.KeptIsCommon` | gix-imara-diff/src/lib.rs:214-226 | no markers that leave equal tokens unmarked keep more than a longest common subsequence |
| `EditDistance.DroppingKeepsCommon` | gix-imara-diff/src/myers/preprocess.rs:58-84 | leaving out tokens without a counterpart shortens no longest common subsequence |
| `FurthestPaths.FurthestExists` | gix-imara-diff/src/myers/middle_snake.rs:107-168 | for every pair of files there is one recurrence of furthest reaching paths |
| `FurthestPaths.ReachDivides` | gix-imara-diff/src/myers/middle_snake.rs:107-168 | while the paths have not met before, the next one ends inside the box and at neither of its opposite corners |
| `FurthestPaths.MeetsInTime` | gix-imara-diff/src/myers.rs:149-200 | the paths from both ends meet after fewer edits than there are tokens |
| `ShortestPaths.ReachComplete` | gix-imara-diff/src/myers/middle_snake.rs:107-168 | no place with at most `d` edits lies beyond the furthest reaching path with `d` edits on its diagonal |
| `ShortestPaths.ReachSound` | gix-imara-diff/src/myers/middle_snake.rs:107-168 | and the end of that path, if it is in the box, needs at most `d` edits |
| `ShortestPaths.MeetingIsShortest` | gix-imara-diff/src/myers.rs:132-138 | the place where the paths first meet is on a shortest path between the files |
| `MiddleSnake.MiddleSnakeSearch.constructor` | gix-imara-diff/src/myers/middle_snake.rs:33-49 | the vector of a search holds the furthest reaching path without edits |
| `MiddleSnake.MiddleSnakeSearch.NextD` | gix-imara-diff/src/myers/middle_snake.rs:76-105 | widening the diagonals, or narrowing them at the edge of the box, leaves next to each of them what the paths with one edit less reach, or a value beyond the box |
| `MiddleSnake.MiddleSnakeSearch.Run` | gix-imara-diff/src/myers/middle_snake.rs:107-168 | the vector then holds what paths with one more edit reach, unless a diagonal meets the other search, and that is in the middle |
| `MiddleSnake.MiddleSnakeSearch.BestPosition` | gix-imara-diff/src/myers/middle_snake.rs:170-201 | the place furthest from the start of the search of all diagonals, and it divides the box |
| `MiddleSnake.MiddleSnakeSearch.FoundSnake` | gix-imara-diff/src/myers/middle_snake.rs:203-263 | the place with the highest score of all those that are far enough and at a snake, or none if there is none; it divides the box |
| `MiddleSnake.ForwardSnakeIsElsewhere` | gix-imara-diff/src/myers/middle_snake.rs:244-251 | a snake that is found from the start need not end at its place |
| `MiddleSnake.GoingIsShort` | gix-imara-diff/src/myers.rs:170-253 | as long as the searches have not met, there are more edits than both have made together |
| `MiddleSnake.FindSplit` | gix-imara-diff/src/myers.rs:139-254 | the search terminates, its answer divides the box for every cost limit, and it is on a shortest path without heuristics, or if there are at most 514 edits, or twice the cost limit if that is less, so that no heuristic can end the search |
| `DiffEngine.MyersDivide` | gix-imara-diff/src/myers.rs:111-128 | one of two windows without common ends is marked if the other is empty; otherwise the part in front of a split is diffed and the rest has become smaller; without heuristics, or with few edits, both parts together can keep as much as the whole |
| `DiffEngine.MyersRun` | gix-imara-diff/src/myers.rs:107-130 | divide and conquer terminates and leaves equal unmarked tokens on both sides of the slices, marking nothing else; without heuristics, or with few edits, it keeps a longest common subsequence |
| `DiffEngine.MyersDiff` | gix-imara-diff/src/myers.rs:24-61 | the whole algorithm leaves equal unmarked tokens, whatever is pruned, and never marks the common prefix; it keeps a longest common subsequence without heuristics, and also with them if there are few edits and no shared token is pruned; between small windows, two equal tokens are marked in the same place only if one of them was pruned |
| `DiffEngine.SearchOverlooks` | gix-imara-diff/src/myers/preprocess.rs:120-149 | if the search keeps all that the pruned files have in common, tokens that were not pruned are not marked in the same place of the whole files |
| `Histogram.Histogram.Populate` | gix-imara-diff/src/histogram.rs:58-62 | the histogram lists where each token occurs, in order, up to the chain limit |
| `Histogram.LcsSearch.Extend` | gix-imara-diff/src/histogram/lcs.rs:75-108 | growing a match in both directions gives the longest common block around it and the number of occurrences of its rarest token |
| `Histogram.LcsSearch.UpdateLcs` | gix-imara-diff/src/histogram/lcs.rs:63-138 | the places of a token are tried, each behind the end of the block before it, counted in the new file; a longer block or one with a rarer token becomes the best one, and the search goes on behind the furthest |
| `Histogram.FindLcs` | gix-imara-diff/src/histogram/lcs.rs:10-57 | the search ends with the block that its specification has, which `BlockMeans` and `GivesUpMeans` characterise, and the histogram is left empty |
| `RarestBlock.FrequentExactly` | gix-imara-diff/src/histogram/lcs.rs:59-61 | a token is frequent exactly if it occurs more often than the chain limit |
| `RarestBlock.BlockMeans` | gix-imara-diff/src/histogram/lcs.rs:10-138 | a block that is found is common, cannot be extended and has a token that is not frequent; every shared token occurs at least as often as its rarest one or follows one that does; it is empty exactly if nothing is shared |
| `RarestBlock.GivesUpMeans` | gix-imara-diff/src/histogram/lcs.rs:22-57 | where the search gives up, every shared token is frequent or follows a frequent one in a common stretch |
| `RarestBlock.FrequentGivesUp` | gix-imara-diff/src/histogram/lcs.rs:22-57 | if all that is shared is frequent, and something is, the search gives up |
| `RarestBlock.GivesUpExactly` | gix-imara-diff/src/histogram/lcs.rs:22-57 | if no rare token follows a frequent one in both files, it gives up if and only if that is so |
| `RarestBlock.GivesUpOnRare` | gix-imara-diff/src/histogram/lcs.rs:63-138 | two files that share a token occurring once, on which it gives up all the same |
| `Histogram.HistogramRound` | gix-imara-diff/src/histogram.rs:64-108 | one round diffs everything up to the end of the block or falls back to Myers, and makes progress; in what it diffs no two equal tokens are marked behind equally many unmarked ones, but for windows in which the search gives up and Myers prunes one of them or uses its heuristics |
| `Histogram.HistogramRun` | gix-imara-diff/src/histogram.rs:64-108 | the recursion terminates and leaves equal unmarked tokens in the two windows, touching nothing outside; no equal tokens are marked in the same place, with the same exception |
| `Twins.LcsHasNoTwins` | gix-imara-diff/src/histogram.rs:99-105 | where a longest common subsequence is kept, no equal tokens are marked in the same place, so the fallback loses none if it is exact |
| `Twins.TwinsOfFiles` | gix-imara-diff/src/lib.rs:503-527 | marked in the same place means in the same hunk: equally many tokens are unmarked in front of both |
| `Histogram.HistogramDiff` | gix-imara-diff/src/lib.rs:274-283 | stripping the common ends first loses nothing: the whole files have no equal tokens in one hunk but for those that are lost |
| `Histogram.LostMeans` | gix-imara-diff/src/histogram.rs:99-105 | equal tokens that are lost are frequent in the old file or follow a frequent one in a common stretch |
| `Histogram.NothingLost` | gix-imara-diff/src/histogram.rs:99-105 | between files that have together at most 514 tokens, or twice the cost limit if that is less, a token is lost only if it is pruned, and none is if no shared token is |
| `Histogram.OnlyFrequentLost` | gix-imara-diff/src/histogram.rs:99-105 | so tokens that are lost there occur more often than the chain limit if what is pruned does |
| `Histogram.ComputeWith` | gix-imara-diff/src/lib.rs:259-288 | every algorithm computes a valid diff that leaves the longest common prefix unmarked; the minimal one keeps a longest common subsequence, and so does Myers if there are few edits and no shared token is pruned; no equal tokens are in one hunk, for Myers but for what is pruned or hurried over, for the histogram algorithm but for what is lost |
| `Hunks.HunkIter.Next` | gix-imara-diff/src/lib.rs:503-527 | the iterator yields the hunks of the markers one after the other, and then nothing |
| `Hunks.RebuildsFrom` | gix-imara-diff/src/lib.rs:480-527 | from any place behind equal unmarked tokens, the hunks still to come are ordered, separated and rebuild the rest |
| `Hunks.ValidDiffRebuilds` | gix-diff/benches/blob.rs:174-187 | replacing the hunks of a valid diff in the old file gives the new file |
| `HunkSize.SizeOfDiff` | gix-imara-diff/src/lib.rs:480-527 | the hunks of a valid diff hold exactly the tokens it does not keep |
| `HunkSize.UnchangedIsCommon` | gix-diff/benches/blob.rs:174-187 | what hunks leave alone is a common subsequence of a file and what they make of it |
| `HunkSize.MinimalIsSmallest` | gix-imara-diff/src/lib.rs:223-226 | of all hunks that turn one file into the other, none are smaller than those of a diff that keeps a longest common subsequence |
| `HunkSize.HunksAreEdits` | gix-imara-diff/src/lib.rs:480-527 | hunks that turn one file into the other hold at least as many tokens as there are edits |
| `Interner.Interner.constructor` | gix-imara-diff/src/intern.rs:171-177 | a new interner is valid and empty |
| `Interner.Interner.Clear` | gix-imara-diff/src/intern.rs:180-183 | valid and empty again |
| `Interner.Interner.Intern` | gix-imara-diff/src/intern.rs:210-225 | the number of an equal token if there is one, the next number otherwise; tokens stay distinct and the table exact |
| `Interner.Interner.EraseTokensAfter` | gix-imara-diff/src/intern.rs:228-250 | keeps the first tokens, whichever of the two ways to bring the table up to date is taken |
| `Interner.Interner.Trim` | gix-imara-diff/src/intern.rs:240-248 | every erased token is found in the table, so the unreachable branch is never taken |
| `Interner.TableIsDetermined` | gix-imara-diff/src/intern.rs:228-250 | equal tokens mean equal tables, so both ways to erase reach the same state |
| `Interner.NumbersAreEqual` | gix-imara-diff/src/intern.rs:210-225 | two interned values have the same number exactly if they are equal |
| `Interner.InternAll` | gix-imara-diff/src/intern.rs:139-152 | interning a whole input numbers each of its values |
| `Interner.InternInput` | gix-imara-diff/src/intern.rs:98-109 | numbers are equal exactly where the lines are, within each file and across both |
| `LineDiff.ApplyNumbered` | gix-imara-diff/src/intern.rs:139-152 | applying hunks to numbers and to lines comes to the same |
| `LineDiff.Diff` | gix-imara-diff/src/lib.rs:251-288 | interning, diffing, sliding and reading off hunks turns one file into the other, for every algorithm, hash and heuristic; no hunks that do so are smaller than those of the minimal algorithm, or than those of Myers if some hunks that do so are small and no shared line is pruned |
| `Fsck.Connectivity.InsertSeen` | gix-fsck/src/lib.rs:808-832 | adds an id and says whether it was new |
| `Fsck.Connectivity.CheckBlob` | gix-fsck/src/lib.rs:863-892 | succeeds exactly if the id is absent or a blob, on every visit; a missing blob is reported on the first |
| `Fsck.Connectivity.CheckTree` | gix-fsck/src/lib.rs:611-697 | all entries are checked for their kind and the subtrees still to walk are collected; submodules are skipped |
| `Fsck.Connectivity.CheckTreeId` | gix-fsck/src/lib.rs:591-609 | the worklist terminates on cyclic trees and has then walked everything below the root |
| `Fsck.Connectivity.CheckReferenced` | gix-fsck/src/lib.rs:551-589 | the kind is checked on every visit, and what is behind the object is walked on the first |
| `Fsck.Connectivity.CheckCommitAt` | gix-fsck/src/lib.rs:231-265 | walks the tree and, recursively, all parents of a commit, and fails only for a fault that is reachable |
| `Fsck.Connectivity.CheckTagAt` | gix-fsck/src/lib.rs:291-313 | the same for the target of a tag |
| `Fsck.ClosedContainsReach` | gix-fsck/src/lib.rs:611-697 | a set of seen objects that contains all it refers to contains all that can be reached |
| `Fsck.Connectivity.CheckRoots` | gix-fsck/src/lib.rs:211-313 | succeeds exactly if every root is there and no fault is reachable from any; then the seen objects are exactly the reachable ones and every missing one is reported once |
| `Fsck.Connectivity.Unreachable` | gix-fsck/src/lib.rs:512-518 | the given ids that were not seen, in order |
| `Snapshot.WriteKeepsInv` | gix-fs/src/snapshot.rs:94-162 | writing a new version of the file at any moment keeps what the protocol maintains |
| `Snapshot.DeleteKeepsInv` | gix-fs/src/snapshot.rs:94-162 | so does deleting the file |
| `Snapshot.StepKeepsInv` | gix-fs/src/snapshot.rs:94-162 | and so does every step of every call, under any interleaving |
| `Snapshot.InvAlways` | gix-fs/src/snapshot.rs:94-162 | the recorded modification time never exceeds that of the content loaded, in every reachable state |
| `Snapshot.SnapshotsAreRecent` | gix-fs/src/snapshot.rs:109-162 | if the file is not deleted during a call, its snapshot is at least as new as the file at its first look |
| `Snapshot.DeletionLeavesStale` | gix-fs/src/snapshot.rs:106-162 | a run in which a deletion makes a call return an older snapshot |
| `Snapshot.AloneIsPresent` | gix-fs/src/snapshot.rs:109-162 | from every reachable state, a call that nothing comes between and whose `open` succeeds returns the present content of the file, or nothing if there is none, and leaves that in the cache |
| `Snapshot.RefreshIsPresent` | gix-fs/src/snapshot.rs:94-101 | a forced refresh stores the present content with its modification time, or nothing if there is no file |
| `Snapshot.CanEnd` | gix-fs/src/snapshot.rs:94-162 | while nobody else holds the lock, a call that has begun can end, in at most six steps |
| `PathStack.Stack.PopTo` | gix-fs/src/stack.rs:168-176 | leaving components closes exactly the directories behind the common prefix, with one callback for each |
| `PathStack.Stack.CountMatching` | gix-fs/src/stack.rs:149-166 | the length of the common prefix; refused exactly if an invalid component comes while the paths still agree and the current one goes on |
| `PathStack.Stack.Enter` | gix-fs/src/stack.rs:197-222 | a component is announced by one callback, a directory by a second one, up to the first that fails; if one fails the stack is as it was and the delegate has the same directories open |
| `PathStack.Stack.EnterAll` | gix-fs/src/stack.rs:197-224 | everything behind the current directory is entered in order, up to the first callback that fails or the first component that is invalid |
| `PathStack.Stack.MakeRelativePathCurrent` | gix-fs/src/stack.rs:136-224 | the callbacks are exactly those of a script made from the old path, what is open and the new path, up to the first that fails; open directories always are the prefixes the stack counts; on success the state depends on the path alone, and on failure the stack stands at a prefix of the new path or where it was |
| `PathStack.LastCallback` | gix-fs/src/stack.rs:178-206 | the last callback of the script for a path is a push of that path as the last one, whatever was open before |
| `PathStack.FollowsOnce` | gix-fs/src/stack.rs:136-224 | script and delegate decide which callbacks are made and how the call ends |
| `ErrorChain.VisitIsComplete` | gix-error/src/error.rs:682-740 | breadth-first traversal visits every error of the tree as often as it occurs in it |
| `ErrorChain.FlattenNodes` | gix-error/src/exn/impls.rs:944-1016 | the queue flattens a tree into breadth-first order with parent indices |
| `ErrorChain.FlatLayout` | gix-error/src/exn/impls.rs:944-1016 | the causes of each node stand next to each other, in the order of their parents |
| `ErrorChain.ParentsInOrder` | gix-error/src/error.rs:705-722 | links before the causes of an error belong to earlier parents and links behind them to later ones |
| `ErrorChain.Stream` | gix-error/src/error.rs:705-722 | the two loops over a cursor yield exactly the causes of one link |
| `ErrorChain.Errors.Children` | gix-error/src/error.rs:682-725 | the causes of a frame or of a link of a chain are appended in order, and all other pending errors stay correct although cursors are shared |
| `ErrorChain.Errors.OfFrame` | gix-error/src/error.rs:643-680 | iteration over a tree of frames begins with its root |
| `ErrorChain.Errors.Next` | gix-error/src/error.rs:731-740 | the iterator yields the first of what remains of the traversal |
| `ErrorChain.IterateAll` | gix-error/src/error.rs:643-740 | iterating to the end visits the logical tree of a flattened error breadth first, each error once, across nested boundaries |
| `ErrorChain.IterateFrames` | gix-error/src/error.rs:643-740 | so does iterating over frames, which may enclose flattened errors |
| `CommitGraph.New` | gix-commitgraph/src/init.rs:109-142 | accepts up to 256 files of one hash and a limited number of commits, and sets how far parents may point |
| `CommitGraph.LookupByPos` | gix-commitgraph/src/access.rs:74-89 | the file and the place in it that a position stands for; it never runs past the last file |
| `CommitGraph.CheckFan` | gix-commitgraph/src/file/init.rs:292-309 | accepts exactly the tables that never fall and end with the number of commits |
| `CommitGraph.LookupInFile` | gix-commitgraph/src/file/access.rs:79-96 | binary search in the part that the fan-out table names for the first byte; never outside the file, and a find is right |
| `CommitGraph.SearchFinds` | gix-commitgraph/src/file/access.rs:84-95 | on ascending ids it finds every one between its bounds |
| `CommitGraph.InFanIsFound` | gix-commitgraph/src/file/access.rs:79-96 | a commit is found in its file exactly if the table names its place |
| `CommitGraph.Lookup` | gix-commitgraph/src/access.rs:59-72 | the first file of the chain that finds the id decides the position |
| `CommitGraph.FanDecidesLookup` | gix-commitgraph/src/access.rs:59-72 | on ascending and unique ids, lookup inverts reading the id at a position exactly if every fan-out table names every commit of its file |
| `CommitGraph.VerifiedLookup` | gix-commitgraph/src/file/verify.rs:39-95 | a graph that passes verification is ascending and unique, so this is so for it |
| `CommitGraph.FanLosesId` | gix-commitgraph/src/file/verify.rs:56-58 | a graph that passes all checks and in which an id is not found |
| `CommitGraph.LocateInverse` | gix-commitgraph/src/access.rs:74-89 | different places have different positions |
| `CommitGraph.ParentIter.Next` | gix-commitgraph/src/file/commit.rs:143-227 | each call of the iterator with its four states yields the next of the positions that are to come, checked against the limit of the file, or the error that ends them |
| `CommitGraph.ParentsExactly` | gix-commitgraph/src/file/commit.rs:143-227 | iterating meets no error and yields these positions if and only if they are the first parent and then none, the second one, or the extra edge list from its index to the edge that is marked as last, all below the limit |
| `CommitGraph.CountParents` | gix-commitgraph/src/file/verify.rs:92-93 | counting what the iterator yields gives the number of parents, or stops at an error |
| `CommitGraph.ParentsLimited` | gix-commitgraph/src/file/commit.rs:143-227 | the parents that iterating over a commit yields are below the limit of its file, extra edges included |
| `CommitGraph.ParentsInGraph` | gix-commitgraph/src/init.rs:109-142 | so in a graph that was accepted the parents of every commit are commits of the graph |
| `CommitGraph.CheckGeneration` | gix-commitgraph/src/verify.rs:84-110 | decides whether a generation is one more than that of the highest parent, up to the cap |
| `CommitGraph.Traverse` | gix-commitgraph/src/file/verify.rs:39-95 | checks order, trees, uniqueness, generations and the answer of the processor for one file, counts its commits by the number of their parents, and refuses only inconsistent graphs |
| `CommitGraph.AddCounts` | gix-commitgraph/src/verify.rs:117-121 | the counts of the files add up |
| `CommitGraph.GenerationsFall` | gix-commitgraph/src/verify.rs:101-113 | below the cap generations fall with every step to a parent |
| `CommitGraph.PathOfGeneration` | gix-commitgraph/src/verify.rs:101-113 | a commit heads a path with as many commits as its generation says |
| `CommitGraph.GenerationsGiveLongestPath` | gix-commitgraph/src/verify.rs:123-128 | the highest generation tells the length of the longest path, and there is no cycle |
| `CommitGraph.VerifyIntegrity` | gix-commitgraph/src/verify.rs:35-129 | succeeds exactly on consistent graphs of which the processor accepts every commit in turn, with the parents that `ParentsExactly` characterises; then the processor has seen all commits in order and the counts say how many commits have how many parents; a reported length is that of a longest path of an acyclic graph, and none is reported only if a generation is capped |
| `ShellWords.UnitSame` | gix-command/src/parse.rs:116-166 | at most one unit can stand at a place |
| `ShellWords.Unambiguous` | gix-command/src/parse.rs:107-178 | every text is the text of at most one sequence of units |
| `ShellWords.TracksNext` | gix-command/src/parse.rs:116-166 | reading a unit keeps words, value and flags in step with what the units mean |
| `ShellWords.WordBare` | gix-command/src/parse.rs:182-198 | pushing an unquoted byte keeps value, separator and the flag for a possible assignment exact |
| `ShellWords.ParseBare` | gix-command/src/parse.rs:140-166 | unquoted bytes, escapes and continued lines become the unit that stands there |
| `ShellWords.ParseDouble` | gix-command/src/parse.rs:126-138 | between double quotes only `$`, backquote, quote and backslash are escaped, and lines joined |
| `ShellWords.ParseWords` | gix-command/src/parse.rs:107-178 | succeeds exactly on texts that have a reading, with the words of the only one; otherwise the error is that of the quote or backslash behind the units read so far, from which no unit can be read |
| `ShellWords.StopsOnce` | gix-command/src/parse.rs:107-178 | reading stops in only one place, with one error |
| `ShellWords.LineMeans` | gix-command/src/parse.rs:107-178 | the words of any line built from bare, escaped and quoted pieces are what its text means |
| `ShellWords.SeparatorIsAssignment` | gix-command/src/parse.rs:182-198 | a separator is set exactly when an unquoted `=` follows an unquoted shell identifier, and it is the place of that `=` |
| `ShellWords.WordsFormed` | gix-command/src/parse.rs:84-91 | every separator splits its word into a name and a value, so splitting assignments cannot fail |
| `ShellWords.CommandLine` | gix-command/src/parse.rs:73-97 | leading assignments become the environment, the next word the command, the others arguments; only lines of assignments have no command; errors are those of reading the words |
| `Ewah.ValidateWords` | gix-bitmap/src/ewah.rs:40-71 | accepts exactly the words in which every announced literal is present and the last running length word exists |
| `Ewah.ChunkWord` | gix-bitmap/src/ewah.rs:91-101 | setting bits one by one gives the number with these binary digits |
| `Ewah.FromBits` | gix-bitmap/src/ewah.rs:90-111 | fewer than 2^32 bits become a valid bitmap whose expansion is these bits |
| `Ewah.WriteTo` | gix-bitmap/src/ewah.rs:116-130 | writes the encoding unless a count does not fit 32 bits |
| `Ewah.Decode` | gix-bitmap/src/ewah.rs:3-38 | finds the bitmap the data starts with, if it starts with one |
| `Ewah.StartsWithOne` | gix-bitmap/src/ewah.rs:3-38 | data starts with at most one bitmap |
| `Ewah.DecodeEncoded` | gix-bitmap/src/ewah.rs:3-38 | decoding an encoded bitmap in front of any rest gives it back with its length |
| `Ewah.VisitGroup` | gix-bitmap/src/ewah.rs:140-176 | a run and its literal words are visited bit by bit, and never run out of words |
| `Ewah.ForEachSetBit` | gix-bitmap/src/ewah.rs:136-179 | succeeds exactly if the expansion fits the declared number of bits and no visit is refused, and then has visited the set bits in order |
| `Ewah.OnesAreExact` | gix-bitmap/src/ewah.rs:136-179 | the visited places are exactly the set bits, ascending |
| `Ewah.RoundTrip` | gix-bitmap/src/ewah.rs:3-179 | bits that are written, read and visited come out as the places of the set ones, and the rest of the data is left |
| `Ident.FindRange` | gix-filter/src/ident.rs:11-26 | the first `$Id:` that meets a dollar on its line, and where that ends |
| `Ident.Undo` | gix-filter/src/ident.rs:10-42 | writes the text with every range undone, or leaves the buffer alone exactly if there is none |
| `Ident.Apply` | gix-filter/src/ident.rs:52-80 | writes the text with every `$Id$` expanded, or leaves the buffer alone exactly if there is none |
| `Ident.RoundTrip` | gix-filter/src/ident.rs:10-80 | undoing the application gives back a text exactly if all its ranges start with the closing dollar of a `$Id$` |
| `Ident.UntouchedIsStable` | gix-filter/src/ident.rs:10-42 | texts with nothing to undo are among these |
| `Ident.UndoAfterApply` | gix-filter/src/ident.rs:10-80 | whenever there is nothing to undo, undoing the application gives back the text, for every id |
| `Capabilities.PercentDecode` | gix-bundle/src/header.rs:333-352 | the text of which the value is an encoding, or none if there is none; there is at most one |
| `Capabilities.EncodedIsDecoded` | gix-bundle/src/header.rs:333-361 | whatever bytes are encoded besides `%` and `+`, decoding gives back the text |
| `Capabilities.SplitOnce` | gix-bundle/src/header.rs:305-315 | texts without `+` that are joined by it can be split in only one way |
| `Capabilities.MeansOne` | gix-bundle/src/header.rs:280-315 | a text denotes at most one filter |
| `Capabilities.ValidIsFilter` | gix-bundle/src/header.rs:280-315 | valid are exactly the texts that denote a filter nested at most 8 deep |
| `Capabilities.RenderIsValid` | gix-bundle/src/header.rs:280-352 | a filter that is written, whatever is encoded in it, is valid exactly if it nests at most 8 deep |
| `Capabilities.CheckedIsSupported` | gix-bundle/src/header.rs:228-257 | a capability is accepted exactly if it names the object format of the bundle or is such a filter |
| `BundleHeader.ReadHeader` | gix-bundle/src/header.rs:65-187 | reads lines until the header ends and stops right behind its last line, or fails at the first line that is wrong or missing |
| `BundleHeader.Decode` | gix-bundle/src/header.rs:377-381 | the same for a byte slice, with the number of bytes read |
| `BundleHeader.EndsOnce` | gix-bundle/src/header.rs:105-175 | a header ends in only one place |
| `BundleHeader.LineReads` | gix-bundle/src/header.rs:363-371 | a line without newline is read as it was written, but for one final carriage return |
| `BundleHeader.LineReadsTo` | gix-bundle/src/header.rs:105-175 | each line of a complete header adds its capability, prerequisite or reference |
| `BundleHeader.WriteTo` | gix-bundle/src/header.rs:194-225 | writes the lines of the header; version 2 has no capabilities |
| `BundleHeader.ReadsBack` | gix-bundle/src/header.rs:65-187 | a written header ends where its text ends, in front of any pack data |
| `BundleHeader.ReadIsReadable` | gix-bundle/src/header.rs:65-187 | whatever was read has a reference, valid capabilities, ids of the right length and fields without newline, and took at least as many bytes as writing it takes; if it took no more it is well formed |
| `BundleHeader.ReadableExactly` | gix-bundle/src/header.rs:65-187 | and every such header is read from some data |
| `BundleHeader.RoundTrip` | gix-bundle/src/header.rs:65-225 | writing and decoding, in front of any pack data, gives back the header and its length exactly if it is well formed |
| `BlameRanges.BlameRanges.Merge` | gix-blame/src/types.rs:110-129 | for every range, empty and inverted ones too, exactly the old lines and the new ones are covered, and the ranges are in normal form exactly if all those without a line have been merged away; in a selection of the whole file only the range is left |
| `BlameRanges.MergeIsExact` | gix-blame/src/types.rs:113-124 | merging leaves ranges that are apart from each other and cover the old lines and the new ones, and every one of them has a line exactly if those without one have been merged away |
| `BlameRanges.SortByStart` | gix-blame/src/types.rs:125-126 | sorting ranges that are apart brings them into order, each before the next with a gap |
| `BlameRanges.BlameRanges.AddOneBased` | gix-blame/src/types.rs:102-107 | line zero is refused and changes nothing; otherwise exactly the lines between the two ends are added |
| `BlameRanges.FromOneBased` | gix-blame/src/types.rs:69-97 | the lines asked for are exactly those of all given ranges, in any order, and in normal form if no range is inverted |
| `BlameRanges.BlameRanges.ToZeroBased` | gix-blame/src/types.rs:132-153 | the ranges within a file cover exactly the lines that are asked for and exist, in normal form if they were |
| `BlameRanges.NormalIsUnique` | gix-blame/src/types.rs:110-129 | only one normal form covers given lines, so the order of adding does not matter |

## Left out

- Wildmatch.WildIsExact: the condition on the pattern is shown to be necessary only for the patterns of `OneEndIsExact`;
  where two readings that accept bytes end in different places, whether a match is lost depends on what follows them.
- Wildmatch.WildIsSound: is about the recursion, which the loops compute on patterns that reach no restart
  (`WildmatchLoops.RunIsWalk`); `RestartMisreads` shows that it is not so for others.
- WildmatchLoops.WildmatchText: for patterns that restart, the result is specified by the restart itself, not by the
  glob relation.
- CommitGraph.VerifyIntegrity: the distinction of error classes, and the lowest and highest generation of each file.
- ErrorChain.Errors.Next: locations of native sources, probable causes, classification and display; a native source is a
  frame with at most one cause.
- BundleHeader.Decode: ids are text in lower case, and reading in chunks is one read of the whole data.
- ShellWords.CommandLine: conversion to operating system strings, which can fail only on some platforms.
- Ewah.RoundTrip: bitmaps that others wrote are covered by `Decode` and `ForEachSetBit`, not by `FromBits`.
- Snapshot.SnapshotsAreRecent: calls that return no snapshot, and file systems whose times do not increase with
  every write.
- Fsck.Connectivity.CheckRoots: options for progress, interruption and skipped objects, `check_object`, reflog and index
  roots, paths of objects and writing lost objects; an object database is assumed to know the empty tree and the empty
  blob by their ids.
- PathStack.Stack.MakeRelativePathCurrent: splitting paths into components.
- GlobPattern.MatchesIsAccepting: `matches_repo_relative_path`, which selects the part of a path to match.
- LineDiff.Diff: which common lines the preprocessing prunes, the cost limit of a Myers split and the scores of the
  indentation heuristic are arbitrary.
- Histogram.HistogramDiff: where the search gives up and Myers prunes or uses its heuristics, `LostMeans` and
  `NothingLost` say which equal lines can be lost, not which are.
- RarestBlock.GivesUpExactly: is an equivalence for files in which no rare token follows a frequent one in both; for
  others `GivesUpMeans` has one direction, and the other one fails (`GivesUpOnRare`).
- Brackets.BracketLists: brackets with a `]`, `[` or `-` that is not escaped, which read differently in other places.
- MiddleSnake.FindSplit: the search counts in integers without bounds, and each split has vectors of its own.
- HunkSize.MinimalIsSmallest: compares with hunks that have an unchanged token between them, as the iterator yields
  them.
- Line offsets, blame entries and the blame algorithm of gix-blame are not modelled.
- Reading and writing files, memory maps, processes, repository discovery, configuration, transport, index, packs and
  references: operating system behaviour or foreign formats.
