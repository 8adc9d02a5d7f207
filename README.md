# wordraw core in Dafny

wordraw finds Wordle guesses whose colouring against a target word
draws a picture. It has five parts:

- `compare_words` colours a 5-letter guess against the target: green tiles first, then yellows from the letters still unused.
- `parse_mode` reads a mode string such as `x/gy`. The string places the three colours (x gray, y yellow, g green) in up to three groups.
- `pattern_match_rating` scores a colouring against a requested row of group indices under a mode.
- `find_words` scans a word list. For every desired picture, mode and round (six rounds) it keeps the best rating and every word tied at it, in `ModeResult` objects it updates in place.
- `sort_modes` totals each mode's ratings over all pictures and lists the modes by descending total. Equal totals keep their first-seen order.

Every one of these is imperative in the source. Each is modelled as a method with
loops and invariants, proved equal to a pure reference function, and the
properties the program relies on are proved about that function:

| file | module | models |
|---|---|---|
| `Common.dfy` | `Common` | the three exceptions the core raises (`ValueError`, `KeyError`, `IndexError`), `Result` and `Option` |
| `Text.dfy` | `Text` | `str.lower`, `str.strip` and `str.split` as the core uses them |
| `Compare.dfy` | `WordCompare` | `compare_words`: the two passes and the reference colouring `Colouring` |
| `Mode.dfy` | `ModeCodec` | `parse_mode`: the accepted language, the mapping, and rendering a mapping back to a mode |
| `Rating.dfy` | `PatternRating` | `pattern_match_rating` and its scoring loop |
| `Search.dfy` | `WordSearch` | `ModeResult` as a class, `find_words`, and the reference result `Final` |
| `Ranking.dfy` | `ModeRanking` | `sort_modes`: the per-mode totals and the stable descending sort |

Errors are values: a method that may raise returns `Failure(e)` where the
source raises `e`, and the reference functions say exactly which inputs do.
A Python dict is an association list in insertion order, and `find_words`'
result is a sequence (one per desired picture) of `(mode, ModeResult)`
pairs in the order of the given modes.

## Model

| member | source | states |
|---|---|---|
| WordCompare.CompareWords | main.py:25-63 | ValueError exactly when either word is not 5 long. Otherwise 5 values in 0..2, tile i green exactly when the lower-cased letters agree, and equal to the reference colouring of the lower-cased words |
| WordCompare.MarkGreens | main.py:45-55 | the first pass: greens where letters agree, those target letters consumed, and the other positions whose letter is still in the target queued in order |
| WordCompare.MarkYellows | main.py:57-61 | the second pass completes the reference colouring: a queued tile turns yellow exactly when an unused copy of its letter is left, and that copy is consumed |
| WordCompare.MarkYellow | main.py:58-61 | one queued tile: it turns yellow exactly when an unused copy of its letter is left, that copy is consumed, and the tiles settled so far agree with the reference colouring |
| WordCompare.YellowStart | main.py:45-58 | before the second pass nothing is settled and the unused target letters are exactly the non-green ones |
| WordCompare.YellowDone | main.py:58-63 | after the last queued tile the result is a pattern, green exactly where letters agree, and the reference colouring |
| WordCompare.ColouringShape | main.py:28-31 | the colouring has one value in 0..2 per letter, and 2 exactly where the letters agree |
| WordCompare.YellowPassShape | main.py:45-61 | the colouring pass gives a value in 0..2 per position and green exactly where the letters agree |
| WordCompare.YellowFromPool | main.py:59-61 | a yellow tile's letter is one still unused in the target |
| WordCompare.YellowLeftmostFrom | main.py:57-61 | a non-green tile is yellow exactly when fewer earlier non-green tiles show its letter than unused copies remain |
| WordCompare.YellowCountFrom | main.py:57-61 | the yellows of a letter number the minimum of its non-green guess occurrences and its unused target copies |
| WordCompare.SelfIsAllGreen | main.py:49-52 | a word compared with itself is all green |
| WordCompare.AbsentLetterIsGray | main.py:53-61 | a letter absent from the target is gray |
| WordCompare.YellowLeftmost | main.py:57-61 | a non-green tile is yellow exactly when fewer earlier non-green tiles of its letter exist than unused target copies of it: yellows go to the leftmost positions |
| WordCompare.LetterBudget | main.py:53-61 | yellows showing a letter number the minimum of its non-green guess and non-green target occurrences, and the non-gray tiles of a letter never exceed its count in the target |
| WordCompare.NonGreenTargetCount | main.py:49-52 | the target letters left after the green pass are its letters minus the greens |
| WordCompare.CrazyCigarStartsGreen | main.py:49-51 | "crazy" against "cigar" starts green |
| ModeCodec.ParseMode | main.py:66-90 | equals the reference: ValueError when the validating pattern rejects the string, KeyError for a valid mode followed by a newline, otherwise each colour's first (group, offset) |
| ModeCodec.RecordSlots | main.py:82-88 | the nested loops record every letter's colour code, each record pointing at a (group, offset) that holds that colour's letter, and the lookup fails exactly when a group holds a non-colour character |
| ModeCodec.RecordGroup | main.py:87-88 | the inner loop over one group records each letter's slot and fails exactly when the group holds a non-colour character |
| ModeCodec.ShapeGroups | main.py:79-82 | each accepted shape splits at '/' into the groups its letters form |
| ModeCodec.LocateUnique | main.py:86-88 | a letter with one slot is found at that slot |
| ModeCodec.SlotMapPlaces | main.py:86-88 | on groups with distinct letters every colour is mapped to its one slot |
| ModeCodec.PlacesFacts | main.py:69-75 | distinct colours get distinct slots, and every group index and offset lies in 0..2 |
| ModeCodec.RenderPlaced | main.py:82-88 | writing each colour at its slot rebuilds the groups the mode was split into |
| ModeCodec.ParsedIsSlotMap | main.py:86-88 | for a valid mode, the mapping the loops build is the reference mapping |
| ModeCodec.ModeMappingFacts | main.py:69-75 | a valid mode's mapping has keys exactly 0, 1 and 2, places each colour where its letter stands, gives distinct (group, offset) pairs, and every index lies in 0..2 |
| ModeCodec.ValidModeGroups | main.py:79-82 | splitting a valid mode at '/' gives groups of at most three letters, holding each colour letter exactly once |
| ModeCodec.RenderRoundTrip | main.py:66-90 | writing each colour letter at its (group, offset) and joining the groups with '/' gives back the mode |
| ModeCodec.OneThenTwoMapping | main.py:72-75 | a one-then-two mode maps its first letter to (0,0) and the next two to (1,0) and (1,1) |
| ModeCodec.OneThenTwoSlots | main.py:72-75 | three distinct colours grouped one then two sit at (0,0), (1,0) and (1,1) |
| ModeCodec.XSlashGYExample | main.py:72-75 | 'x/gy' maps x to (0,0), g to (1,0) and y to (1,1) |
| ModeCodec.RepeatedLetterRejected | main.py:79-80 | 'xx/g/y' raises ValueError |
| ModeCodec.TrailingNewlineIsKeyError | main.py:79-88 | 'x/gy' followed by a newline passes the pattern and then raises KeyError |
| PatternRating.RatePattern | main.py:93-123 | equals the reference: the mode's error first, then ValueError for a length other than 5 or a value outside 0..2, otherwise 10 per tile whose colour's group is the requested one plus 2 minus that colour's offset |
| PatternRating.ScoreTiles | main.py:109-123 | the scoring loop gives the reference rating, or ValueError when a pattern or requested value is outside 0..2 |
| PatternRating.ParsedComplete | main.py:105-121 | a parsed mode gives every colour code a group and an offset in 0..2, so the lookup never fails and each matching tile's bonus is exactly 2 minus its offset: `max(0, …)` never clamps |
| PatternRating.BonusBounds | main.py:117-123 | with offsets never negative, the summed offset bonus lies between 0 and 2 per matching tile |
| PatternRating.RatingBounds | main.py:109-123 | every rating lies in 0..60 |
| PatternRating.MoreMatchesScoreHigher | main.py:117-123 | under one mode, a pattern with more group matches rates strictly higher |
| PatternRating.AbsentGroupsNeverMatch | main.py:115-118 | a requested group that no colour belongs to never matches |
| PatternRating.RatingUnder | main.py:105-123 | for a mode that parses and patterns of 5 values in 0..2, the rating succeeds with the score computed on the parsed mapping |
| PatternRating.NoGroupTwo | main.py:69-75 | a four-character mode has two groups, so no colour lies in group 2 |
| PatternRating.RequestingMissingGroupRatesZero | main.py:115-123 | under 'x/gy', requesting group 2 everywhere is accepted and rates 0 |
| PatternRating.WorkedExample | main.py:93-123 | [2,1,0,0,0] against [1,1,1,1,1] under 'x/gy' rates 23 |
| PatternRating.WorkedExampleRate | main.py:109-123 | the same example computed on the mapping alone |
| WordSearch.FindWords | main.py:138-186 | fails exactly when the scan raises, with the first error the word list raises. Otherwise it returns one fresh result per desired picture, keyed by exactly the given modes, and each slot is the reference result |
| WordSearch.ScanWord | main.py:161-184 | one entry of the word list: it raises exactly the error the reference assigns it, and otherwise every slot is the reference for the list one entry longer |
| WordSearch.ScanRound | main.py:170-184 | one round: nothing happens when the word is skipped in it, otherwise the first error over the pictures is returned or every slot takes the word into that round |
| WordSearch.ScannedIsFinal | main.py:161-186 | once the whole list is scanned every slot is the reference result |
| WordSearch.NewResults | main.py:154-159 | every picture gets fresh, distinct results for exactly the given modes, each with 6 empty slots rated 0 |
| WordSearch.NewRow | main.py:157-159 | one fresh, empty result per mode, in the given order |
| WordSearch.ModeResult.constructor | main.py:159 | a new result has 6 ratings of 0 and 6 empty candidate lists |
| WordSearch.ModeResult.Offer | main.py:179-184 | a higher rating replaces the slot's rating and candidates, an equal one appends the word, a lower one changes nothing, and other rounds are untouched |
| WordSearch.ScanRounds | main.py:168-184 | one word through the six rounds: the first error the rounds raise is returned; otherwise every round that does not skip the word has taken it into every slot |
| WordSearch.ScanModes | main.py:177-184 | one word, one round, one picture: the first error the modes raise is returned; otherwise every mode's slot for that picture now holds the round's list with the word appended |
| WordSearch.ScanSlot | main.py:178-184 | IndexError when the picture has no row for the round, or the rating's error; otherwise the slot becomes the reference slot for the round's list with the word appended, and no other slot changes |
| WordSearch.FinalSlotFacts | main.py:176-184 | after the scan a slot's rating is 0 or the best rating among the words considered for its round, never below any of them, and its candidates are exactly the considered words rated at it |
| WordSearch.TargetNeverEarlyCandidate | main.py:171-174 | the target is never a candidate before the last round |
| WordSearch.SlotOfIsFinal | main.py:176-184 | the reference slot built round by round is the reference result |
| WordSearch.ConsideredMembers | main.py:161-174 | a word is considered for a round exactly when some stripped, lower-cased entry gives it, it has 5 letters, and it is not the target before the last round |
| WordSearch.ConsideredSound | main.py:161-166 | every considered word comes from some entry of the list |
| WordSearch.ConsideredComplete | main.py:161-174 | every entry that passes the filters is considered |
| WordSearch.TargetNotConsideredEarly | main.py:171-174 | the exact target is never considered before the last round |
| WordSearch.TargetConsideredLast | main.py:171-174 | the target, when listed, is considered in the last round |
| WordSearch.BestIsMax | main.py:180-182 | a slot's rating is at least 0, at least every offered rating, and 0 or one of them |
| WordSearch.BestNeverDecreases | main.py:180-182 | a slot's rating never decreases as words are offered |
| WordSearch.KeptIsTies | main.py:180-184 | the kept candidates are exactly the offered words rated at the best, in offer order, repeats included |
| WordSearch.TiesMembers | main.py:183-184 | a word is among the ties at a rating exactly when it was offered and rated at it |
| WordSearch.TiesAboveAll | main.py:180-182 | a rating above every offer has no ties |
| WordSearch.BestKeptSnoc | main.py:180-184 | offering one more word updates the best and the kept words as the update rule says |
| WordSearch.SlotOfSnoc | main.py:179-184 | offering a word to a round of the reference slot is the update rule on that round |
| WordSearch.SlotOfEmpty | main.py:159 | with nothing offered, the reference slot is the empty one |
| WordSearch.ConsideredSnoc | main.py:161-174 | one more entry adds its normalised word exactly when it passes the filters |
| WordSearch.ListsSnoc | main.py:161-174 | one more entry: when it normalises to 5 letters every round that does not skip it takes it, otherwise no round's list changes |
| WordSearch.ListsEmpty | main.py:154-159 | before the scan every round's list is empty |
| WordSearch.ScanErrorSnoc | main.py:161-186 | the scan's error after one more entry is the earlier error if any, else that entry's |
| WordSearch.Considered | main.py:161-174 | every word considered for a round has 5 letters and is not skipped in that round |
| WordSearch.NoErrorMeansRated | main.py:168-178 | when the scan raises nothing, every considered word rates successfully under every picture and mode |
| WordSearch.ModesRated | main.py:177-178 | when no mode raises for a word, round and picture, every mode rates the word |
| WordSearch.RoundsRated | main.py:170-178 | when no round raises for a word, it is rated under every picture and mode in every round that does not skip it |
| WordSearch.FirstFailureSticks | main.py:161-186 | once an entry raises, later entries do not change the error |
| WordSearch.NoEligibleWordNoError | main.py:161-166 | a list with no 5-letter word raises nothing, whatever the target and modes |
| WordSearch.BadTargetFails | main.py:161-168 | with a target not 5 long, a list holding any 5-letter word raises ValueError from comparing it |
| WordSearch.ScanErrorSticks | main.py:161-186 | once a prefix of the list raises, the whole scan raises the same error |
| WordSearch.FirstFailureNone | main.py:161-186 | the scan raises nothing exactly when no word raises |
| WordSearch.FirstFailureIs | main.py:161-186 | when the words raise at most one kind of error and some word raises it, the scan raises it |
| ModeRanking.SortModes | main.py:189-202 | the totals are the dict built entry by entry from the results' ratings, and the order is the stable descending sort of those totals |
| ModeRanking.RankingFacts | main.py:189-202 | every mode met is listed once, its total is the sum of its ratings over every picture, totals never increase along the list, and equal totals keep the order the modes were first met |
| ModeRanking.TotalsAreSums | main.py:196-199 | each mode's total is the sum of its ratings over every dict, and the keys are the modes in first-met order |
| ModeRanking.SortDescFacts | main.py:201 | the sort is a permutation, non-increasing in total, and keeps the input order within each total |
| ModeRanking.SortDescSorted | main.py:201 | the sorted totals never increase |
| ModeRanking.SortDescPermutes | main.py:201 | the sort is a permutation of its input |
| ModeRanking.SortDescStable | main.py:201 | the entries with any one total keep their input order |
| ModeRanking.InsertKeys | main.py:201 | inserting an entry with a new mode keeps modes distinct and every other mode's total |
| ModeRanking.InsertSorted | main.py:201 | inserting an entry keeps the list non-increasing |
| ModeRanking.InsertStable | main.py:201 | an inserted entry goes after every entry of equal total |
| ModeRanking.InsertMembers | main.py:201 | insertion adds exactly that entry |
| ModeRanking.SortDescKeys | main.py:201-202 | sorting totals with distinct modes keeps every mode once, with its total |
| ModeRanking.GetAddTo | main.py:199 | adding to a mode's total changes that mode's total by the amount and no other mode's |
| ModeRanking.AddRowFacts | main.py:198-199 | adding one dict raises each mode's total by that mode's ratings in it and appends the newly met modes |
| ModeRanking.GetSnoc | main.py:199 | a new mode's entry appended at the end holds its own total and leaves the others' |
| ModeRanking.RatingRows | main.py:197-199 | the rows read from the results pair each mode with its slot's ratings |
| ModeRanking.KeysAddTo | main.py:199 | a known mode keeps its place and a new mode is added last |
| ModeRanking.FirstSeenFacts | main.py:196-199 | the first-met list holds every mode met, once each |
| Text.JoinSplit | main.py:82 | joining the pieces of a split with the separator gives back the string |
| Text.Split | main.py:82 | splitting gives at least one piece |
| Text.SplitChars | main.py:82 | every character of every piece is a character of the string other than the separator |
| Text.SplitCovers | main.py:82 | every character other than the separator lands in some piece |
| Text.SplitDistinct | main.py:82 | when the non-separator characters are distinct, each sits in exactly one place of the pieces |
| Text.StripTrims | main.py:162 | the stripped word is a stretch of the entry, and everything before and after that stretch is whitespace |
| Text.StripLeftDrops | main.py:162 | every character stripped from the front is whitespace |
| Text.StripRightDrops | main.py:162 | every character stripped from the back is whitespace |
| Text.NormalizeTrims | main.py:162 | the normalised word is the lower-cased stretch of the entry left after stripping whitespace at both ends |
| Text.LowerStr | main.py:40-41 | lower-casing keeps the length and lowers each character |
| Text.IndexOf | main.py:61 | the first position holding the character |

## Left out

- Rendering and output are not modelled: `display_pattern`, `print_result`, `plot_result` (matplotlib and numpy), reading the font and word-list files, and the command line. They are I/O or foreign libraries.
- The `isinstance` check in `compare_words` cannot fail, because Dafny's types already guarantee strings.
- The default arguments `mode="x/gy"` of `pattern_match_rating` and `modes=["x/gy"]` of `find_words` are not modelled: every call takes the mode or modes explicitly, and no call inside the core relies on a default.
- `str.lower` is modelled on ASCII capitals only; Python also lower-cases other alphabets. `str.strip` uses Python's full whitespace set.
- The validating regular expression is replaced by the language it accepts. This includes `$` matching before a final newline.
- WordCompare.CompareWords: equality with the reference colouring is stated only for guesses without the character '\0'. The source uses '\0' to mark consumed target letters, and a guess containing it could match such a mark.
- WordSearch.FindWords: requires the words to contain no '\0' (for the same reason) and the modes to be distinct. With a repeated mode the source keeps one dict entry but offers each word to it twice; that duplication is not modelled.
- WordSearch.FindWords: the word list is a finite sequence; a lazily produced iterable is not modelled.
- Python dicts are association lists in insertion order; hashing is not modelled.
