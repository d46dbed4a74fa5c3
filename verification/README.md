# Models of dwdiff and of three ICU components

dwdiff compares two files word by word. It splits each file into words and
whitespace, numbers the words, optionally replaces every word by the window of
words around it, computes an edit script with the divide-and-conquer algorithm
of GNU diff, trims the script back to words and walks it while printing, showing
only lines near a change if asked to. It links against ICU, of which this project
models the edit log `Edits`, the code point set `BMPSet` and the dynamic
programming of the Chinese/Japanese word break engine.

Code that works by updating things is written as classes, arrays and loops, each
proved against a definition that does not mention the algorithm. The results:

- **Edit scripts** (`EditDistance`, `EditGraph`, `MidpointSearch`, `Flags`,
  `CompareSeq`, `Discard`, `ShiftBoundaries`, `DiffFiles`). For all pairs of
  files and all settings, the script applied to the first file gives the second,
  its changes are maximal and at least one matched line apart. With the minimal
  setting its length is the edit distance |x| + |y| - 2·LCS(x, y). This rests on
  the theorem that the first meeting of the forward and the backward search lies
  on a shortest path; every other exit of the search (big snakes, giving up)
  still returns a point that splits the problem properly. With any setting the
  script is fixed by a description of how it was found: which lines are set aside,
  where each search ends and with which point, and where each run of changes comes
  to rest when it slides over equal lines. As long as the distance of the lines
  compared is within the cost limit (or the one of the heuristic), the script leaves
  as many lines unchanged as their longest common subsequence has.
- **Windows of words** (`Interning`, `ContextWindows`, `WordDiff`, `WordTrace`,
  `WordWalk`, `WordOutput`, `PrepareDiff`). The interning table numbers byte strings
  faithfully, so two window tokens are equal exactly if the windows are. A correct
  script over windows without short swaps (as many words inserted as deleted, no
  more than the context) trims to a correct script over words. The program asserts
  that there is no short swap. A run passes exactly if none of the scripts it walks
  has one, the first being that of the whole files and the others those of the ranges
  compared again; each of them has everything said above of edit scripts. A run passes
  for certain under the minimal setting, with a context below 2, and whenever none of
  its comparisons is cut short, as is the case if both files together have at most 512
  windows (402 with the heuristic for large files). The last rests on a
  property of the line comparison: unless it is cut short, a change whose two sides
  share a line also holds a line that the other file does not have.
  A run that passes prints as changed exactly the words of the scripts, consumes words
  of both files once and in order, at every depth of recursion, and what it leaves at
  the end pairs up equal. It leaves nothing if common words are printed, or if the
  last words of the files differ. Otherwise that depends on which longest common
  subsequence the search picks, and only one direction is given: with the minimal
  setting and no context, the last words are left if all of these subsequences pair
  them. No run that passes gets by with fewer changed words than the edit distance;
  with the minimal setting and no context it changes exactly as many. All this holds
  from the bytes of two files on, for their folded words.
- **Edit log** (`EditsLog`, `EditsIterator`, `EditsView`, `EditsSearch`,
  `EditsRoundTrip`, `EditsCuts`, `EditsMerge`). Reading a log back gives exactly the recorded
  edits across run compression and all length encodings, forward and backward,
  fine and coarse. Index search lands on the span that covers the index from
  every state the iterator can be in, so the two index mappings depend on the
  log and the index alone; which span a following step shows is characterized as
  well. Merging a to b and b to c gives a log in which text is unchanged exactly
  where it was unchanged in both steps. One edit of the merge ends and the next begins
  only at places of b that no change of either step runs across, and no change of the
  merge passes such a place; of an insertion into b and a deletion from it at the same
  place the insertion comes first. The merge fails exactly if the length difference
  overflows on the way or the two logs disagree on the length of b, and what a
  failed merge leaves behind is stated too.
- **Context lines** (`ContextBuffer`). The ring of line buffers shows exactly the
  lines within N of a changed line, with a separator exactly where lines were
  dropped between two shown ones.
- **Code point sets** (`BitTable`, `InversionList`, `BmpTables`, `BmpSet`).
  Bit tables, block bits and restricted binary searches agree with the inversion
  list for every 32-bit integer; a UTF-16 span stops at the first code point whose
  membership differs.
- **Word breaking** (`CjkSegmentation`, `KatakanaText`). The table holds the costs of cheapest
  segmentations, and marks exactly the unreachable places as unreached, if and only
  if no cheapest cost reaches the mark for unreached places and no 32-bit sum wraps
  below a cheapest cost. If moreover no wrapped sum equals one, the boundaries found
  are those of a cheapest segmentation, and of all cheapest ones the one with the
  longest words from the end. Bounded costs guarantee both; an input whose
  costs wrap, and for which the table is wrong, is given. Katakana that the dictionary
  does not have stay together exactly in runs of up to 8 characters, and a dictionary
  word is preferred to such a run exactly if it costs less than the run's entry in the
  cost table.
- **Tokens** (`Tokenizer`). For every input and every classification of bytes the
  two escaped streams put together again give the input.

Behaviour worth knowing, as the code has it:

- A `next()` after `findIndex` yields the found span again, because the iterator
  turns around, exactly if the search went back less than half way, or stayed on a
  span that was reached backward (`EditsRoundTrip.StepAfterFind`). What is
  independent of the iterator's history is the span found, not the step after it;
  `EditsRoundTrip.TwoHistories` shows both outcomes on one log and index.
- Without common words printed (`-3`), the common words after the last change are
  not consumed at all; two equal files are not even started
  (`WordOutput.EqualFiles`), and a last word that both files have, and only there, is
  always left (`WordOutput.SameLastWord`).
- `findIndex` resets the iterator without clearing its `changed` flag; the flag is
  not looked at before the next span has been read.
- In the word break engine the note whether the previous character was Katakana is
  not updated at places that no word reaches. Which Katakana runs are offered as
  words therefore depends on which places are reachable;
  `CjkSegmentation.AfterKatakana` defines it so.
- Runs of 20 or more Katakana characters are not offered as a word. Runs of 9 to 19
  are, but at a cost that single characters never reach, so without a dictionary word
  they are cut into characters (`KatakanaText.NoDictionary`). Only from 16843009
  characters on, where the costs add up to the mark for unreached places, is nothing cut.
- A merge of logs that disagree on the length of b leaves the edits added so far in
  the receiving log, and the receiving log itself carries no error. On an overflow
  the edits before the first one that does not fit are left, and the log keeps the
  error (`EditsMerge.MergeAndAppend`).

## Model

| member | source | states |
|---|---|---|
| EditDistance.LcsIsMaximum | upstream/dwdiff/src/diff/diffseq.h:20-26 | the recursive LCS used as reference is attained by a common subsequence and exceeded by none |
| EditDistance.DistTriangle | upstream/dwdiff/src/diff/diffseq.h:20-26 | edit distances of two halves bound the distance of the whole |
| EditGraph.CostBounds | upstream/dwdiff/src/diff/diffseq.h:190-274 | costs from either corner differ from the diagonal distance by an even number, and their sum is at least the distance of the box |
| EditGraph.PointAtCost | upstream/dwdiff/src/diff/diffseq.h:205-274 | every cost up to the total occurs on some shortest path |
| EditGraph.TrimmedTotal | upstream/dwdiff/src/diff/diffseq.h:465-477 | after the common ends are removed at least two edits are needed |
| EditGraph.FCoverNext | upstream/dwdiff/src/diff/diffseq.h:223-233 | the end of the snake is the furthest point of its diagonal at the next cost |
| EditGraph.OverlapSplits | upstream/dwdiff/src/diff/diffseq.h:234-274 | where a forward frontier is at or past a backward one, both points are on a shortest path |
| MidpointSearch.ForwardCell | upstream/dwdiff/src/diff/diffseq.h:221-233 | the stored cell is exactly the furthest reaching point, computed from written cells inside the allocated diagonals |
| MidpointSearch.ForwardPass | upstream/dwdiff/src/diff/diffseq.h:210-241 | one forward pass advances the frontier by one cost or meets the backward one at the two costs, on the highest diagonal where they meet; if it does not meet, the frontiers are apart on all shared diagonals; a long snake is reported exactly if there is one |
| MidpointSearch.BackwardPass | upstream/dwdiff/src/diff/diffseq.h:243-274 | the same backward |
| MidpointSearch.ApartMeansLonger | upstream/dwdiff/src/diff/diffseq.h:205-274 | frontiers apart on all shared diagonals mean that no path costs as little as the sum of the costs |
| MidpointSearch.MeetingIsMinimal | upstream/dwdiff/src/diff/diffseq.h:234-274 | a first meeting is interior and splits a shortest path |
| MidpointSearch.BestForward | upstream/dwdiff/src/diff/diffseq.h:379-395 | the best forward point is interior, costs at most what was spent, is the clipped cell of one of the forward diagonals, and no diagonal has a larger x + y |
| MidpointSearch.BigSnakeForward | upstream/dwdiff/src/diff/diffseq.h:290-327 | the chosen point is a stored cell at the end of a long snake, has made enough progress, and no other such point made more; none is chosen only if there is none |
| MidpointSearch.GiveUp | upstream/dwdiff/src/diff/diffseq.h:370-431 | when the search costs too much the returned point is the better of the furthest forward and the furthest backward point, interior, and the half behind it, the only one flagged minimal, costs at most what was spent |
| MidpointSearch.TryCutShort | upstream/dwdiff/src/diff/diffseq.h:276-431 | a search goes on below the cost limit unless there is a long snake with enough progress; if it is cut short, the point is the one the heuristic or the limit asks for, and exactly one half is flagged minimal |
| MidpointSearch.Diag | upstream/dwdiff/src/diff/diffseq.h:177-434 | for every exit the midpoint is inside the box and not a corner, and it is the one that the rules of the search fix from the frontiers at the cost where it ends: the meeting, the long snake with most progress, or the better of the two furthest points. With both halves minimal, always so under the minimal setting and for boxes whose distance is within twice the cost limit (and twice 201 with the heuristic), it lies on a shortest path; with one, that half costs no more than was searched; all cells read were written and lie in the diagonals allocated |
| MidpointSearch.ExactSplit | upstream/dwdiff/src/diff/diffseq.h:177-434 | where the search may not be cut short, or the distance of the box is too small for it, the rules leave only a meeting, and a meeting lies on a shortest path |
| CompareSeq.Trim | upstream/dwdiff/src/diff/diffseq.h:465-477 | removing common ends keeps the box valid and leaves an empty side or differing ends |
| CompareSeq.Compare | upstream/dwdiff/src/diff/diffseq.h:453-512 | unmarked elements of the two ranges form equal sequences, as many as the LCS under the minimal setting or if the distance is within the limits of the search; marks outside the ranges are untouched. The marks follow a plan: all of the other side is marked if one is empty after trimming, otherwise the halves at the point where the search ends are compared in the same way, each with its own flag |
| CompareSeq.CompareTrimmed | upstream/dwdiff/src/diff/diffseq.h:496-508 | the same for a trimmed box split at the midpoint; the recursion ends because both halves are smaller |
| CompareSeq.PlannedCompared | upstream/dwdiff/src/diff/diffseq.h:453-512 | marks that follow a plan leave equal sequences in every part of it, as long as the LCS of the part wherever the part is flagged minimal or its distance is within the limits |
| Discard.CountEquivs | upstream/dwdiff/src/diff/analyze.c:70-81 | the number of lines of every class |
| Discard.ScaleIsRoot | upstream/dwdiff/src/diff/analyze.c:98-104 | the shift loop computes a square root up to a factor of two |
| Discard.Classify | upstream/dwdiff/src/diff/analyze.c:89-117 | lines without match are discardable, frequent ones provisionally, line class 0 never |
| Discard.CancelLongSubruns | upstream/dwdiff/src/diff/analyze.c:180-189 | exactly the maximal stretches of at least the minimum number of provisionals are cancelled; the backing up ends |
| Discard.ProcessRun | upstream/dwdiff/src/diff/analyze.c:133-227 | one run: provisionals at its ends and in long stretches are cancelled, too many cancel all; what stays provisional has definite discards on both sides |
| Discard.RunTreatedPart | upstream/dwdiff/src/diff/analyze.c:133-227 | the treatment of a run depends on its own lines only and changes nothing outside it |
| Discard.Prune | upstream/dwdiff/src/diff/analyze.c:119-229 | each maximal run is treated as if it were alone, so which provisionals remain is fixed by the run; nothing but provisionals has changed |
| Discard.Squeeze | upstream/dwdiff/src/diff/analyze.c:231-246 | kept lines with their indexes in order; exactly the others are flagged as changed |
| Discard.FilterFile | upstream/dwdiff/src/diff/analyze.c:89-246 | a whole file: indexes strictly increasing, kept values are the lines at them, the flags are those of the classification with every run treated, and every discarded run holds a line without match |
| Discard.KeptAmongStaying | upstream/dwdiff/src/diff/analyze.c:231-246 | the unchanged text of the file is the unchanged text among the kept lines |
| ShiftBoundaries.ExchangeSurvivors | upstream/dwdiff/src/diff/analyze.c:262-357 | exchanging the flags at the two ends of a run keeps the sequence of unchanged values |
| ShiftBoundaries.MovedKeeps | upstream/dwdiff/src/diff/analyze.c:300-345 | moving runs over equal lines, one line at a time and any number of times, keeps the sequence of unchanged values and every such stretch as below |
| ShiftBoundaries.AnchorsStep | upstream/dwdiff/src/diff/analyze.c:300-345 | a stretch of changed lines whose first and last lines are not part of the unchanged text stays changed as a whole when a run slides |
| ShiftBoundaries.MoveForward | upstream/dwdiff/src/diff/analyze.c:318-339 | the run moves as far forward as equal lines allow, both cursors stay at equal counts of unchanged lines, and the last end of the run opposite a change in the other file is found |
| ShiftBoundaries.PartedByPass | upstream/dwdiff/src/diff/analyze.c:300-345 | a pass from where a run cannot go back leaves it where it cannot slide back until it touches the run before it |
| ShiftBoundaries.ShiftRun | upstream/dwdiff/src/diff/analyze.c:296-353 | a whole run: flags move over equal lines only, none is lost; it ends at the last place it can slide to, forward or back, that is opposite a change, or at the very last place if there is none; from there it cannot slide back until it touches the run before it; the unguarded final move back stays in range because the last pass merged nothing |
| ShiftBoundaries.Rested | upstream/dwdiff/src/diff/analyze.c:300-353 | a pass from where the run cannot go back to where it cannot go forward has seen every place it can slide to |
| ShiftBoundaries.ShiftFile | upstream/dwdiff/src/diff/analyze.c:262-357 | one file: flags move over equal lines only, so unchanged values and sentinels are kept, and at the end every run stands at that place, parted from the run before it |
| ShiftBoundaries.ShiftBoth | upstream/dwdiff/src/diff/analyze.c:262-357 | both files keep their sequences of unchanged values, flags moving over equal lines only; the runs of the first file stand at those places against the old flags of the second, those of the second against the final flags of the first |
| DiffFiles.BuildScript | upstream/dwdiff/src/diff/analyze.c:384-412 | the script describes the flags: in order, maximal, separated by matched lines; both cursors pass the front together |
| DiffFiles.ApplyDescribed | upstream/dwdiff/src/diff/analyze.c:359-412 | applying a script that describes the change to file 0 gives file 1 |
| DiffFiles.TooExpensive | upstream/dwdiff/src/diff/analyze.c:454-459 | exactly the larger of 256 and twice the square root, up to a factor of two, of the number of diagonals |
| DiffFiles.ScriptLength | upstream/dwdiff/src/diff/analyze.c:384-412 | the script edits everything but the common text, which is no longer than the LCS |
| DiffFiles.ComparedFiles | upstream/dwdiff/src/diff/analyze.c:431-467 | comparing only the kept lines leaves the whole files with equal unchanged text, an LCS under the minimal setting |
| DiffFiles.ChangeTight | upstream/dwdiff/src/diff/analyze.c:414-483 | if the lines kept were compared exactly, the two sides of every change have no line in common, or one of them holds a line that does not occur in the other file |
| DiffFiles.SmallTight | upstream/dwdiff/src/diff/analyze.c:414-483 | that is so for all files of up to 512 lines together, 402 with the heuristic |
| DiffFiles.DiffTwoFiles | upstream/dwdiff/src/diff/analyze.c:414-483 | for all inputs and settings the script is correct and no shorter than the distance, and under the minimal setting exactly as long. It is fixed for every setting: it marks the flags that result from setting lines aside in both files, comparing the others by a plan as above, and sliding the runs to rest. If the comparison is not cut short, because of that setting or the distance of the lines left, its length is the size of the files less twice the LCS of the lines left, and every change is tight as above |
| Interning.Hash | upstream/dwdiff/src/hashtable.c:96-107 | wrapping after every step gives the unbounded polynomial in 33, reduced once modulo 2^32 |
| Interning.Interner.GetValue | upstream/dwdiff/src/hashtable.c:119-147 | the table is a map from byte strings to first-seen numbers; it fails exactly if a new string arrives with all numbers used |
| Interning.Interner.GetHashMax | upstream/dwdiff/src/hashtable.c:149-165 | returns the count of numbers given out and empties the table |
| Interning.InternAll | upstream/dwdiff/src/hashtable.c:119-165 | any sequence of requests to a table with room: numbers are positions among the distinct strings seen, lie below the count, and are equal exactly if the strings are; numbers given out before stay |
| Interning.SeenAllKeeps | upstream/dwdiff/src/hashtable.c:119-147 | numbers given out stay as they are; all requests are among the keys, which have no repetition |
| ContextWindows.EncodeInjective | upstream/dwdiff/src/doDiff.c:558-571 | byte images of windows are equal only for equal windows |
| ContextWindows.WindowMatch | upstream/dwdiff/src/doDiff.c:543-578 | equal windows hold the same words at the same distances, and stand at level places of the file edges |
| ContextWindows.WindowsEqual | upstream/dwdiff/src/doDiff.c:543-578 | conversely, windows over equal words at level places are equal |
| ContextWindows.ContextTokens | upstream/dwdiff/src/doDiff.c:543-578 | one token per word plus the context, each interning its window, with cut-off windows at both edges |
| ContextWindows.TokensFaithful | upstream/dwdiff/src/doDiff.c:543-578 | tokens of the two files are equal exactly if their windows are |
| WordDiff.TrimInRange | upstream/dwdiff/src/doDiff.c:654-683 | a change that is not a short swap, trimmed by the context or its shorter side, stays inside both word arrays |
| WordDiff.GapWords | upstream/dwdiff/src/doDiff.c:654-683 | all words between two trimmed changes pair up equal |
| WordDiff.SwapIsEqual | upstream/dwdiff/src/doDiff.c:661-663 | the two sides of a short swap are the same windows |
| WordDiff.MinimalHasNoSwap | upstream/dwdiff/src/doDiff.c:661-663 | a shortest window script has no short swap, so the assertion holds |
| WordDiff.TightHasNoSwap | upstream/dwdiff/src/doDiff.c:661-663 | nor does the script of any comparison that was not cut short |
| WordDiff.BeforeSwap | upstream/dwdiff/src/doDiff.c:654-683 | all words up to a short swap pair up equal |
| WordDiff.TrimmedScript | upstream/dwdiff/src/doDiff.c:645-683 | trimming a correct window script without short swaps gives a correct word script |
| WordWalk.UnderwayRefine | upstream/dwdiff/src/doDiff.c:670-677 | a change compared again with less context adds its comparisons, each from a change of another, and their words |
| WordWalk.UnderwayEnd | upstream/dwdiff/src/doDiff.c:645-747 | at the end of a script without short swap every long change has been compared again, and the words printed as changed are exactly those of the scripts walked |
| WordWalk.UncutPasses | upstream/dwdiff/src/doDiff.c:661-663 | a run can fail the assertion only if one of its comparisons was cut short |
| WordOutput.Printer.PrintToCommonWord | upstream/dwdiff/src/doDiff.c:404-413 | common words are consumed in pairs up to the given word |
| WordOutput.Printer.PrintDeletedWords | upstream/dwdiff/src/doDiff.c:420-474 | exactly the words of the range are consumed; the cursor is where it must be |
| WordOutput.Printer.PrintChange | upstream/dwdiff/src/doDiff.c:685-722 | common words up to the change, then both of its sides, in either order |
| WordOutput.Printer.PrintEnd | upstream/dwdiff/src/doDiff.c:481-491 | with common words printed both files are consumed to their ends; otherwise nothing is |
| WordOutput.WalkChange | upstream/dwdiff/src/doDiff.c:654-683 | one change: trimmed and printed, or its range compared with less context; the cursors end after the trimmed change, unless a script walked below it has a short swap |
| WordOutput.WalkScript | upstream/dwdiff/src/doDiff.c:645-747 | all changes of a script, recursing with less context. It passes exactly if none of the scripts walked has a short swap, always so without context, under the minimal setting, and for ranges of limited size; then the words from the cursors to the end of the range pair up equal. Otherwise everything up to a short swap has been dealt with |
| WordOutput.DoDiffInternal | upstream/dwdiff/src/doDiff.c:584-750 | the same from the words of a range, with the largest even context that fits it; every script walked is the one DiffTwoFiles fixes for its windows, so of minimal length under that setting; recursion ends because the context falls |
| WordTrace.TraceReproduces | upstream/dwdiff/src/doDiff.c:393-478 | what was consumed spells out both files up to the cursors |
| WordTrace.TraceCost | upstream/dwdiff/src/doDiff.c:393-478 | no trace consumes the files with fewer changed words than the edit distance |
| WordTrace.UniqueNeeded | upstream/dwdiff/src/doDiff.c:481-483 | if both files end with the same word, found nowhere else in them, every shortest script pairs these words |
| WordTrace.LastWordsLeft | upstream/dwdiff/src/doDiff.c:481-483 | a shortest trace that ends with a change leaves the last words if every shortest script pairs them |
| WordOutput.DoDiff | upstream/dwdiff/src/doDiff.c:753-761 | for every run: what is consumed spells out both files up to the cursors, and the run passes the assertion exactly if no script walked has a short swap, the scripts being those that DiffTwoFiles fixes for the whole files and for the ranges compared again. A run that passes prints as changed exactly the words of the scripts, leaves equal rests, consumes both files if common words are printed or their last words differ, and changes at least as many words as the edit distance. Every run passes under the minimal setting, with a context below 2, and if no comparison is cut short, in particular on files of limited size; with the first two it changes exactly as many words |
| WordOutput.EqualFiles | upstream/dwdiff/src/doDiff.c:481-483 | equal files of any length, minimal, without common words printed: nothing is consumed |
| WordOutput.SameLastWord | upstream/dwdiff/src/doDiff.c:481-483 | such files, minimal, without common words printed: the last words of both are not consumed |
| WordOutput.OneEqualWord | upstream/dwdiff/src/doDiff.c:481-483 | one equal word in both files, not consumed: completing is not enough for full consumption |
| PrepareDiff.NumbersFaithful | upstream/dwdiff/src/dwdiff.c:398-408 | after both files are read their numbers are equal exactly if the folded words are |
| PrepareDiff.ReplaysWords | upstream/dwdiff/src/dwdiff.c:398-408 | what is consumed of the numbers is consumed of the words |
| PrepareDiff.PrepareAndExecuteDiff | upstream/dwdiff/src/dwdiff.c:398-408 | from the bytes of two files: the words are the folded tokens of the split, numbered faithfully; the trace consumes the words of both up to the cursors, once and in order, and spells them out; common words and the rests are equal; whether the run passes, how much is consumed and how many words change is as for the numbers |
| EditsLog.LengthRoundTrip | upstream/icu/source/common/edits.cpp:178-207 | lengths up to 2^31-1 written as head field and trail units are read back |
| EditsLog.ShortRoundTrip | upstream/icu/source/common/edits.cpp:163-176 | lengths and count of a compressed change are read back from its unit |
| EditsLog.Edits.AddUnchanged | upstream/icu/source/common/edits.cpp:114-140 | the edits seen by a reader gain unchanged text, fused with unchanged text before it; errors as in the code |
| EditsLog.Edits.AddReplace | upstream/icu/source/common/edits.cpp:142-208 | the edits gain one change, compressed or not; fails exactly for negative lengths or if the length difference leaves 32 bits |
| EditsIterator.Iterator.constructor | upstream/icu/source/common/edits.cpp:400-404 | a new iterator stands before the first span |
| EditsIterator.Iterator.Next | upstream/icu/source/common/edits.cpp:449-543 | moves to the following span or change, or again to the current one after turning around, in both views, for every state of a valid iterator |
| EditsIterator.Iterator.Previous | upstream/icu/source/common/edits.cpp:545-652 | moves to the preceding span, finding record heads behind trail units |
| EditsView.SpanAt | upstream/icu/source/common/edits.cpp:449-543 | lengths and indexes shown at any place are those of one recorded edit and the sums of those before it |
| EditsSearch.FindIndex | upstream/icu/source/common/edits.cpp:654-739 | from every valid state: -1 before the text, with the iterator untouched, 1 at or after its end, otherwise 0 and the iterator is on the span that covers the index, reading backward exactly if the search went back less than half way or stayed where it was reading backward |
| EditsSearch.SameSpan | upstream/icu/source/common/edits.cpp:654-739 | whatever two iterators did before, having found the same index they show the same span |
| EditsSearch.DestinationIndexFromSourceIndex | upstream/icu/source/common/edits.cpp:741-758 | equals a linear scan of the recorded edits, whatever the state of the iterator |
| EditsSearch.SourceIndexFromDestinationIndex | upstream/icu/source/common/edits.cpp:760-777 | the same in the other direction |
| EditsSearch.MapMonotone | upstream/icu/source/common/edits.cpp:741-777 | both mappings keep order and stay within the text |
| EditsSearch.MapRoundTrip | upstream/icu/source/common/edits.cpp:741-777 | an index in unchanged text maps there and back to itself |
| EditsRoundTrip.Record | upstream/icu/source/common/edits.cpp:114-208 | any sequence of calls: no error exactly if no length is negative and the difference stays in range throughout; then the log records the calls, fused |
| EditsRoundTrip.Collect | upstream/icu/source/common/edits.cpp:449-543 | iterating from the start yields exactly the recorded edits |
| EditsRoundTrip.CollectChanges | upstream/icu/source/common/edits.cpp:449-543 | iterating over changes yields exactly the changes |
| EditsRoundTrip.RoundTrip | upstream/icu/source/common/edits.cpp:114-208 | recording and iterating gives the calls back, with adjacent unchanged text fused, and changes as well in the coarse view |
| EditsRoundTrip.NextFrom | upstream/icu/source/common/edits.cpp:449-543 | from a span, the following one if reading forward, the same one if reading backward |
| EditsRoundTrip.StepAfterFind | upstream/icu/source/common/edits.cpp:654-739 | a step after a search shows the found span again exactly if the search ended reading backward, and otherwise the next span or the end |
| EditsRoundTrip.TwoHistories | upstream/icu/source/common/edits.cpp:654-739 | one log and one index, found from two states: the steps that follow show different spans |
| EditsMerge.MergedKeep | upstream/icu/source/common/edits.cpp:337-349 | text unchanged on both sides stays aligned through the intermediate string |
| EditsCuts.PassPlaces | upstream/icu/source/common/edits.cpp:329-391 | passing text of b that is changed on either side passes no place that is free on both |
| EditsCuts.InsertionPlaces | upstream/icu/source/common/edits.cpp:279-295 | nor does taking an insertion of the second log |
| EditsCuts.DeletionPlaces | upstream/icu/source/common/edits.cpp:296-309 | nor does taking a deletion of the first log |
| EditsCuts.CutSums | upstream/icu/source/common/edits.cpp:254-398 | edits cut in this way cover the texts of a and c up to the last cut |
| EditsMerge.CutOff | upstream/icu/source/common/edits.cpp:337-397 | emitting the pending change at a free place adds a cut there |
| EditsMerge.TakeSecond | upstream/icu/source/common/edits.cpp:279-295 | the next span of the second log is taken; an insertion goes out at once unless a change of the first log runs across the place, and otherwise joins the pending change; the account of all three strings and the cuts are kept |
| EditsMerge.TakeFirst | upstream/icu/source/common/edits.cpp:296-309 | the same for the first log and its deletions |
| EditsMerge.Combine | upstream/icu/source/common/edits.cpp:329-391 | one step on two overlapping spans uses up the shorter one, keeps the account of all three strings, and emits the pending change where, and only where, no change of either log runs across |
| EditsMerge.MergeSpans | upstream/icu/source/common/edits.cpp:266-397 | the whole loop over both logs ends with the result below, from any state of the receiving log |
| EditsMerge.MergeAndAppend | upstream/icu/source/common/edits.cpp:254-398 | the added edits align an index of a with one of c exactly if both are aligned with the same index of b, also in a failed merge; they are cut only at places of b free of changes on both sides, no change passes such a place, and insertions come before deletions at the same place; they cover all of a and c if the lengths of b agree, otherwise all up to the last free place before the shorter one ends, the error is reported and the edits stay; the log gets an error exactly if the length difference overflows at some edit, and then holds the edits before it |
| EditsMerge.RoomyInRange | upstream/icu/source/common/edits.cpp:142-208 | a length difference with room for both texts does not overflow |
| EditsMerge.MergedDescribes | upstream/icu/source/common/edits.cpp:254-398 | if the receiving log validly describes x to y and the two logs a to b and b to c, after the merge it validly describes x + a to y + c in either view |
| ContextBuffer.ContextOutput.Release | upstream/dwdiff/src/buffer.c:68-94 | the buffers written in ring order are exactly the lines the change brings out, after a separator if lines were dropped |
| ContextBuffer.ContextOutput.EndLine | upstream/dwdiff/src/buffer.c:112-151 | the six states count lines after a change and lines held back; the ring keeps the latest N + 1 lines |
| ContextBuffer.ContextOutput.WriteString | upstream/dwdiff/src/buffer.c:209-233 | text joins the current line, shown or held back |
| ContextBuffer.ContextOutput.AddChar | upstream/dwdiff/src/buffer.c:57-152 | after every call the output is that of the two-pass definition over all lines so far |
| ContextBuffer.MarkHeldLine | upstream/dwdiff/src/buffer.c:68-94 | what a change on a held-back line adds to the two-pass output |
| ContextBuffer.Print | upstream/dwdiff/src/buffer.c:57-152 | for every sequence of calls and every N: exactly the lines within N of a changed one, separators exactly between groups with dropped lines between them |
| BitTable.Set32x64Bits | upstream/icu/source/common/bmpset.cpp:70-119 | exactly the bits of the range are added, across partial and full columns |
| InversionList.Parity | upstream/icu/source/common/bmpset.h:158-160 | membership in the ranges is the parity of the position |
| InversionList.FindCodePoint | upstream/icu/source/common/bmpset.cpp:257-289 | the restricted search finds the position |
| BmpTables.InitLatin1 | upstream/icu/source/common/bmpset.cpp:121-139 | the byte table holds membership of U+0000..U+00FF |
| BmpTables.InitTable7FF | upstream/icu/source/common/bmpset.cpp:141-172 | the bit table holds membership of U+0080..U+07FF |
| BmpTables.EnterBlocks | upstream/icu/source/common/bmpset.cpp:177-206 | one range: blocks wholly inside are set, blocks cut by an edge are marked mixed, known mixed blocks are skipped |
| BmpTables.InitBlocks | upstream/icu/source/common/bmpset.cpp:174-219 | a block is marked mixed exactly if it is neither full nor empty; otherwise its low bit is its membership |
| BmpSet.OverrideIllegal | upstream/icu/source/common/bmpset.cpp:229-255 | only bits of code points that contains() does not look up are replaced, by membership of U+FFFD |
| BmpSet.BMPSet.constructor | upstream/icu/source/common/bmpset.cpp:29-52 | all tables agree with the list |
| BmpSet.BMPSet.Contains | upstream/icu/source/common/bmpset.cpp:292-316 | for every 32-bit integer: true exactly for code points in the set |
| BmpSet.BMPSet.Span | upstream/icu/source/common/bmpset.cpp:318-408 | ends at a code point boundary; all code points before have the wanted membership, the one there has not |
| CjkSegmentation.SmallCosts | upstream/icu/source/common/dictbe.cpp:1100-1112 | bounded word costs keep every segmentation below the mark for unreached places |
| CjkSegmentation.Visit | upstream/icu/source/common/dictbe.cpp:1311-1362 | whatever the costs: after a visit no word tried there improves on the table, every entry is accounted for by its predecessor, earlier predecessors would cost more, and entries up to the place are unchanged |
| CjkSegmentation.Search | upstream/icu/source/common/dictbe.cpp:1274-1363 | the same for all places, for every input, sums wrapping at 2^32 |
| CjkSegmentation.ExactIff | upstream/icu/source/common/dictbe.cpp:1274-1363 | for every input, the table holds the costs of cheapest segmentations and marks exactly the unreachable places, if and only if no cheapest cost reaches the mark and no sum wraps below a cheapest cost |
| CjkSegmentation.OverflowFree | upstream/icu/source/common/dictbe.cpp:1274-1363 | if every segmentation costs less than the mark, no sum wraps and the condition holds |
| CjkSegmentation.WrappingFails | upstream/icu/source/common/dictbe.cpp:1311-1362 | an input of three characters whose costs wrap to 0: the table is wrong there |
| CjkSegmentation.Chain | upstream/icu/source/common/dictbe.cpp:1284-1289 | the predecessors of a reached place spell out a segmentation of exactly the cost in the table, if no wrapped sum ties with a cheapest cost |
| CjkSegmentation.TraceBack | upstream/icu/source/common/dictbe.cpp:1402-1408 | boundaries fall strictly from the end, and the predecessor of the last one is 0 |
| CjkSegmentation.LongestAt | upstream/icu/source/common/dictbe.cpp:1311-1362 | in a segmentation read off the table each word is as long as the last word of any cheapest segmentation that ends there, or longer |
| CjkSegmentation.Divide | upstream/icu/source/common/dictbe.cpp:1274-1408 | for every input strictly falling boundaries from the end, namely those of the predecessors in a table that no word improves and in which ties go to the earliest predecessor; under the two conditions on wrapping the word ends of a cheapest segmentation, of these the one with the longest words from the end, or only the end of the range if there is none |
| KatakanaText.RunOrSingles | upstream/icu/source/common/dictbe.cpp:1311-1362 | Katakana of which each is listed at the same cost are one word exactly if a run or a dictionary word over all of them costs no more than the characters, otherwise every character is a word |
| KatakanaText.RunCosts | upstream/icu/source/common/dictbe.cpp:1100-1112 | the cost of a run without dictionary word, with the literal values for 1 to 8 characters, 8192 for 9 to 19 and none beyond, against that of the characters |
| KatakanaText.WordOverRun | upstream/icu/source/common/dictbe.cpp:1100-1112 | a dictionary word over a run of 2 to 8 characters is preferred exactly if it costs less than the literal value |
| KatakanaText.NoDictionary | upstream/icu/source/common/dictbe.cpp:1340-1360 | n Katakana without dictionary words have only the boundary n exactly if n is at most 8, or so large that costs reach the mark for unreached places; otherwise a boundary after every character |
| KatakanaText.TwoCharacters | upstream/icu/source/common/dictbe.cpp:1311-1362 | any two characters without dictionary words stay together exactly if both are in the Katakana ranges or one is Hangul |
| Tokenizer.ReadRecord | upstream/dwdiff/src/doDiff.c:172-181 | reading a record undoes the escapes and stops after its terminator; the stream never ends within an escape |
| Tokenizer.InputFile.WriteTokenChar | upstream/dwdiff/src/dwdiff.c:81-90 | the byte joins the current token, escaped in the stream and folded in the word compared |
| Tokenizer.InputFile.ReadByte | upstream/dwdiff/src/dwdiff.c:304-366 | one step of the three-state machine keeps the account of everything read |
| Tokenizer.InputFile.ReadFile | upstream/dwdiff/src/dwdiff.c:286-379 | one more whitespace record than tokens, which are words or single delimiters with whitespace between adjacent words; together in turn they are the input |
| Tokenizer.ReadBack | upstream/dwdiff/src/doDiff.c:312-336 | reading the two streams in turn spells out records and tokens in order |
| Tokenizer.RoundTrip | upstream/dwdiff/src/dwdiff.c:286-379 | splitting and reading back returns the input for every input and classification |

## Left out

- Sizes: integers are unbounded except where stated; files are taken to be small enough for the offset type of the diff, and the texts of merged logs to have 32-bit lengths.
- Storage: allocation, growth and release of buffers, and running out of memory, are not modelled; `growArray` never fails here.
- EditsMerge.MergeAndAppend: the receiving log is taken to be a different object from the two logs merged, because the iterators keep pointers into them.
- EditsIterator.Iterator.Next: sums of lengths held by an iterator are unbounded integers, where the code has 32-bit ones.
- Interning: tuples are chains of values; the block allocator is not modelled.
- WordOutput.DoDiff: whether a comparison that is cut short can produce a short swap, so that the assertion fails, is not settled; no such input is given.
- WordOutput: whitespace, markers, line numbers and colours are not modelled; which side of a change is printed first is left open, as it depends on whitespace only.
- ContextBuffer: output without the context option is passed through and not modelled; line numbers are not modelled. In the code, numbers that fill the rest of a buffer exactly lose their last character to a terminating NUL that is counted (buffer.c:184 tests `printed > allowed`).
- Tokenizer: UTF-8 mode and paragraph delimiters are not modelled; case folding is any map of bytes, since tolower depends on the locale.
- BmpSet: spanning backward, UTF-8 spans and the copying constructor are not modelled.
- CjkSegmentation: the dictionary is an input giving words and costs at each place; normalization, mapping back to the original text, phrase breaking and the break at the start of the range are not modelled.
- CjkSegmentation.Divide: where a wrapped sum falls below or ties with a cheapest cost the boundaries are fixed by the table of wrapped sums, but no segmentation they belong to is stated.
- Edits `toString`, copying and moving, `reset` and the remaining iterator kinds would only add easy members.
- Command line, files and streams, temporary files, profiles and the dwfilter program: input and output only.
- The other break engines, BytesTrie, normalizer, locale and plugin code of ICU.
