# Verified model of the foresight ledger and its neighbours

Habitus keeps, for each account, an append-only log of facts about expectations, and forecasts from it. This
project models the parts of it where a mistake would go unnoticed longest, and proves what they promise.

- **The account log and its compaction.** `Ledger`, `AccountClock`, `Gaps`, `Compaction`, `Protocol`, `Absence` and
  `AbsenceRule`. A reading keeps what had been written by then, lets the last word on each expectation stand, and
  numbers the opportunities. Compaction folds an old prefix into a summary, which is written before the covered
  files are deleted one by one. `Protocol` is the state machine of that: appends anywhere in the directory, summaries,
  and deletions, interleaved in any order, with a crash possible between any two steps. A crash needs no step of its
  own, since every reading is a function of what is on disk.
- **The forgetting fold.** `Edges`: evidence decayed by rank, a bounded window, a discount when a habit broke.
- **Identities and URIs.** `Decimal`, `Timestamps`, `Names`, `Percent`, `Uris`: a canonical timestamp, a name and a
  time joined by `--`, and one printed form for each node of the behaviour tree.
- **Four algorithms.** `ConfigGraph` (recursive aliases in a configuration), `Percentiles`, `Ranking` (nDCG) and
  `Workload` (reads and writes drawn from a shared counter).
- `Orders` and `Sequences` hold orders, the stable sort, sorted listings and counters that all of these use.

Where the source changes things in place (the folding loops, the scan of a segment, the set of active containers, the
shared counter and list of events), the model is a method or a class, proved against a function; the properties are
proved of that function. Instants are integers on one time line, dates are numbered days, and the date of an instant is
a parameter. Numbers the source keeps as floats are exact reals.

Three results are of the kind "holds exactly when", because the plain statement is not true of the code:

- Where a history is cut never changes the offsets of a summary. When the compactions used the opportunity tables of their
  nights, each of which says what a later table says up to the last day it compacted, the cuts do not change the last day
  or the kinds of day either; they change the lengths of gaps exactly when a cut measured a gap with a watched day in it of
  a kind that the account met only later (`Gaps.CutsMatterOnlyThroughOverlookedDays`, and `Gaps.APlaceToCutThatMatters` for
  a family of such cuts). A compaction on a night without a table is another matter: it counts calendar days and meets the
  unknown kind of day, so that its gaps are no shorter than with a table, and as long exactly when every day passed was
  watched in full and counts (`Gaps.WithoutATableIsNoShorter`); if no night had a table, the cuts change nothing
  (`Gaps.CutsWithoutATableNeverMatter`).
- Compaction takes only facts dated before its limits, from whatever account, exactly when the date moves forward with
  time (`Compaction.OnlyOldFactsExactlyWhenDatesMoveForward`). A change of zone can make it fall from one moment to a later
  one, and then a fact of the open day can be taken.
- The order of moments does not depend on the order they came in exactly when moments of one time and signature are the
  same moment (`Edges.OrderIsTheBagsExactlyWhenTiesAgree`). Otherwise a reading can depend on it too
  (`Edges.TiesCanChangeAReading`).

The log is modelled with what can go wrong around it: a word may come late, about an expectation that is compacted already,
and a file may carry a time of writing still to come when a summary covers it. Readings never suffer from that: at any point
they return what everything ever written shows above the boundary (`Protocol.NoReadingIsChanged`), and writing a summary
only moves the boundary (`Protocol.SummaryOnlyMovesTheBoundary`). A summary goes by the words that came in time.
`Protocol.NothingIsLate` proves that these are all words when dates move forward with time, the clock of the writer runs
forward, nothing carries a time of writing later than the moment it is written, and facts are written only about days that
no earlier compaction found past its limits, which is what the limits are for.

## Model

| member | source | states |
|---|---|---|
| AccountClock.ReadCurrentFacts | habitus/foresight/clock.py:31-41 | the loop that overwrites entries of the dictionary, tied to its specification |
| AccountClock.ShowsTheLastWord | habitus/foresight/clock.py:31-41 | a fact is shown exactly when it is the last word on its expectation: latest by the moment of writing, or else of forming; then a revision over the verdict it revises; then the later in the input |
| AccountClock.LiveFactsShape | habitus/foresight/clock.py:92-111 | a reading holds one fact for each expectation, in key order, and the same facts as the deduplicated log |
| AccountClock.OrderedReadsAsItIs | habitus/foresight/clock.py:92-111 | what is deduplicated and in order reads as it is |
| AccountClock.ClocksAreAscending | habitus/foresight/clock.py:67-69 | a clock is accepted if and only if its keys are strictly ascending |
| AccountClock.AccountAlwaysReads | habitus/foresight/clock.py:67-69 | the clock's constructor check never fails on any log, at any moment, over any summary, and the clock holds the opportunities of the facts |
| AccountClock.ReadingNeverFallsBack | habitus/foresight/clock.py:92-111 | as the moment of reading moves on, no expectation disappears or shows an earlier version |
| AccountClock.OnlyLaterWritingOverrides | habitus/foresight/clock.py:92-111 | a version is replaced only by one whose moment of writing, or else of forming, lies after the earlier reading: filtering by visibility comes before deduplication |
| AccountClock.NothingUnwrittenIsShown | habitus/foresight/clock.py:100-104 | a reading shows nothing whose moment of writing, or else of forming, lies after it |
| AccountClock.LaterWritingDoesNotReachBack | habitus/foresight/clock.py:92-111 | a fact written after a moment, put anywhere in the log, changes no reading at that moment |
| AccountClock.WrittenRevisionsCover | habitus/foresight/clock.py:31-41 | a verdict is not shown once a revision of it has been written |
| AccountClock.ReadingIsInOrder | habitus/foresight/clock.py:105 | facts are read by moment and within a moment by the name of their expectation |
| AccountClock.ClockHoldsTheOpportunities | habitus/foresight/clock.py:44-54 | a fact read is on the clock if and only if it is neither void nor an expiry of strength nought, whatever else its kind |
| AccountClock.LastWordAmongFewer | habitus/foresight/clock.py:31-41 | the last word among more facts is the last word among fewer that still hold it |
| AccountClock.FilterByKey | habitus/foresight/clock.py:92-105 | reading commutes with removing whole expectations, order included |
| AccountClock.BisectCounts | habitus/foresight/clock.py:71-74 | the insertion point counts exactly the keys at or before the one looked for |
| AccountClock.RankNumbersOpportunities | habitus/foresight/clock.py:71-79 | the i-th opportunity has rank i, ranks follow key order and never pass the last one |
| Gaps.GapBetween | habitus/temporal/absence.py:65-79 | the loop over the days of a gap gives its effective length, the sum of what its days add |
| Gaps.LengthIsAdditive | habitus/temporal/absence.py:65-79 | lengths add up over any split of the days, never pass their number, and equal it when there is no table |
| Gaps.DaysCountByTheirShare | habitus/foresight/absence.py:125-139 | a day of opportunity adds one; another day adds the share of it that the table says was watched if it is of a kind that counts, and nothing if it is of another kind or unknown; without a table every day adds one |
| Gaps.EachPairMeasuredOnce | habitus/foresight/absence.py:92-110 | over any sequence of compactions the pairs handed to the gap measure are exactly the neighbouring distinct days, each once and in order; a cut inside a day adds none |
| Gaps.PairsJoin | habitus/foresight/absence.py:102-109 | continuing from the last day adds exactly the pairs that are missing |
| Gaps.FoldCutsCarries | habitus/foresight/absence.py:92-110 | a run of compactions carries the last day and exactly the kinds of day met, in order |
| Gaps.KindsAreOfTheDays | habitus/foresight/absence.py:98-109 | a kind is listed if and only if the table of some cut gave it to a day of opportunity of that cut, or gave none and it is the unknown kind |
| Gaps.KindsAreListedByName | habitus/foresight/absence.py:109 | the unknown kind comes first and the others by name |
| Gaps.FoldCutsMeasures | habitus/foresight/absence.py:98-110 | the stored distribution is exactly that of everything measured so far |
| Gaps.GapsAreMeasured | habitus/foresight/absence.py:113-139 | between neighbouring anchors only the day a gap ends on is measured as seen, whatever days come later |
| Gaps.CutsKeepDaysAndKinds | habitus/foresight/absence.py:92-110 | for cuts made with the tables of their nights, the place of the cuts changes neither the last day nor the kinds of day |
| Gaps.MoreKindsMeasureMore | habitus/foresight/absence.py:125-139 | measuring with more kinds of day never shortens a gap, and leaves it alone exactly when no day of the new kinds was watched |
| Gaps.RetablingKeeps | habitus/foresight/absence.py:92-139 | cuts made with the tables of their nights met the same kinds and measured the same lengths as with any one table that agrees with each of them up to its last day |
| Gaps.RetablingKeepsTheSummary | habitus/foresight/absence.py:92-110 | so they leave the same summary |
| Gaps.CutsWithoutATableNeverMatter | habitus/foresight/absence.py:92-110 | compactions that never had a table leave the summary of the uncut history, wherever they cut |
| Gaps.WithoutATableIsNoShorter | habitus/foresight/absence.py:125-139 | a gap measured without a table is no shorter than with one, and as long exactly when every day passed was watched in full and counts |
| Gaps.CutsMatterOnlyThroughOverlookedDays | habitus/foresight/absence.py:92-110 | for cuts made with the tables of their nights, the distribution equals that of the uncut history if and only if no cut overlooked a watched day of a kind met later |
| Gaps.APlaceToCutThatMatters | habitus/foresight/absence.py:92-110 | a family of histories, with the tables of two nights, in which the place of a cut changes the distribution |
| Compaction.Compact | habitus/foresight/compaction.py:52-71 | the counting loop, with both errors, gives the specified summary |
| Compaction.AccountsAreWellRead | habitus/foresight/clock.py:92-111 | what compaction relies on holds of every account read |
| Compaction.PlanTakesAPrefix | habitus/foresight/compaction.py:48-49 | the plan's facts come first in the account and the rest follows unchanged |
| Compaction.PlanReachesExactlyTheAllowed | habitus/foresight/compaction.py:35-49 | an opportunity is compacted if and only if it lies outside the window and is dated before both limits, so that the window always stays |
| Compaction.PlanTakesOnlyOldFacts | habitus/foresight/compaction.py:35-49 | every fact taken, opportunity or not, has a date before that of the diagnosis and, if there is one, before the open day |
| Compaction.BackwardDatesOverrunBothLimits | habitus/foresight/compaction.py:42-49 | for any two moments between which the date falls there is an account from which a fact of the open day, on the first day of the diagnosis, is taken |
| Compaction.OnlyOldFactsExactlyWhenDatesMoveForward | habitus/foresight/compaction.py:35-49 | plans take only facts dated before both limits, over all accounts read, limits and windows, if and only if the date moves forward with time |
| Compaction.SummaryOffsetsAreInOrder | habitus/foresight/compaction.py:67 | stored offsets are strictly ascending with positive counts |
| Compaction.HitOffsetsAppend | habitus/foresight/compaction.py:58-61 | the counter of two parts is the sum of their counters |
| Compaction.OffsetsListTheCounts | habitus/foresight/compaction.py:58-67 | a number of minutes is listed with a count if and only if so many facts, at least one, are good, came on time, early or late, and were off by so many minutes either way, none given counting as nought |
| Protocol.AppendKeeps | habitus/runtime/foresight_ledger.py:433-435 | a fact put anywhere in the directory, in time or late, keeps the invariant |
| Protocol.SummaryKeeps | habitus/runtime/foresight_compaction.py:65-75 | writing a summary, over leftovers of earlier deletions and files with a time of writing still to come, keeps the invariant |
| Protocol.DiscardKeeps | habitus/runtime/foresight_ledger.py:470-483 | deleting one covered file keeps the invariant and the history |
| Protocol.RunKeeps | habitus/runtime/foresight_compaction.py:47-75 | the invariant holds at every point of every run |
| Protocol.PlanFoldsTheSlice | habitus/foresight/compaction.py:52-71 | what is folded in is exactly the slice, between the old boundary and the new, of the whole history written in time |
| Protocol.LeftoversReadTheSame | habitus/foresight/clock.py:92-111 | a reading of the files that are left, late words among them, equals above the boundary that of the words that came in time |
| Protocol.LeftoversReadLikeEverything | habitus/foresight/clock.py:92-111 | it also equals that of everything ever written, late words included |
| Protocol.IgnoringLeftoversTwice | habitus/runtime/foresight_ledger.py:437-442 | the store's filter and the reading's filter together read as either alone |
| Protocol.NoReadingIsChanged | habitus/foresight/clock.py:92-111 | at every point of every run, whatever has been deleted and whatever came late, a reading at any moment returns exactly the facts and keys that everything ever written shows above the boundary, in order |
| Protocol.SummaryOnlyMovesTheBoundary | habitus/runtime/foresight_compaction.py:65-75 | what is read after a summary is written, at any moment, is what was read before it above the boundary there is now: a crash between the summary and the deletions loses and repeats nothing |
| Protocol.DeletingChangesNoReading | habitus/runtime/foresight_ledger.py:470-483 | no deletion, before or after a crash, changes any reading |
| Protocol.SummaryIsTheHistogram | habitus/foresight/compaction.py:52-71 | at every point of every run the offsets are the sorted histogram of the good natural hits, written in time, at or below the boundary |
| Protocol.SummaryListsTheCounts | habitus/foresight/compaction.py:52-71 | at every point of every run the summary lists so the facts at or below its boundary |
| Protocol.SummaryBelongsToTheAccount | habitus/foresight/compaction.py:74-77 | at every point of every run a summary is filed under the account whose facts it stands for |
| Protocol.OffsetsForgetTheCuts | habitus/foresight/compaction.py:52-71 | two runs with the same facts and boundary hold the same offsets however they were cut |
| Protocol.HitsAreConserved | habitus/foresight/compaction.py:52-71 | summary and live facts together count every good natural hit once |
| Protocol.LateWordsChangeNothing | habitus/runtime/foresight_ledger.py:433-442 | a fact written about an expectation that is compacted changes no reading and no summary |
| Protocol.AppendIsNotCovered | habitus/foresight/compaction.py:35-49 | a fact dated on or after a limit of every earlier compaction is never about something compacted: this is what the open day and the diagnosis limit secure |
| Protocol.NothingIsLate | habitus/runtime/foresight_compaction.py:47-75 | when dates and the writer's clock run forward and facts are written in good time, the history that summaries go by is everything ever written, at every point of every run |
| Protocol.NothingIsToCome | habitus/runtime/foresight_compaction.py:47-75 | under a clock that runs forward, no file carries a time of writing still to come when a summary is written |
| Absence.DaysBeforeHas | habitus/foresight/absence.py:39-62 | a day is listed exactly when a settled or waiting opportunity other than the one judged, earlier and not compacted, fell on it |
| Absence.SettlingAsAnOpportunityKeepsTheDays | habitus/foresight/absence.py:39-62 | settling as an opportunity changes no day, still listed as unsettled or not |
| Absence.SettlingAsNoOpportunityTakesOneDay | habitus/foresight/absence.py:39-62 | settling as no opportunity removes a day if and only if it is the day it formed on and nothing else counted there |
| Absence.WholeDays | habitus/foresight/absence.py:39-62 | the days of the whole history are those compacted and those since |
| Absence.EveryGapMeasuredOnce | habitus/foresight/absence.py:65-122 | over any run, compactions and the live reading together measure every neighbouring pair of days exactly once |
| Absence.OpenGapAlike | habitus/foresight/absence.py:113-122 | the gap up to today is as long seen from the leftovers as from the whole |
| Absence.JudgedAlike | habitus/foresight/absence.py:65-89 | judging the days since a summary against it is judging the whole, when nothing was overlooked, whichever nights' tables made the summary |
| Absence.CompactedJudgesLikeWhole | habitus/foresight/absence.py:65-89 | at every point of every run that compacts with the tables of its nights, a compacted account judges a return after absence as its uncompacted history would, when no cut overlooked a day |
| AbsenceRule.ItemsAreWellCounted | habitus/temporal/absence.py:113-116 | the checks of a gap summary hold of whatever counter it is written from |
| AbsenceRule.SpreadSorts | habitus/temporal/absence.py:127-142 | spread out again, a summary is the sorted list of the lengths it was made from |
| AbsenceRule.SummaryFigures | habitus/temporal/absence.py:118-142 | count, longest and typical length of a summary are the number, the greatest and the median of the lengths |
| AbsenceRule.LongExactlyWhen | habitus/temporal/absence.py:173-197 | an absence exceeds if and only if there were two gaps or more, it outlasts all of them, and it lasts the given multiple of their median |
| AbsenceRule.WholeHistoryIsJudgedByTheRule | habitus/foresight/absence.py:65-89 | the judgement on a whole history is that rule over the lengths between neighbouring days |
| AbsenceRule.ReturnsExactlyAfterALongAbsence | habitus/foresight/absence.py:65-89 | on an uncompacted account the answer is yes if and only if there is a day of opportunity before, the last one lies before the day the expectation formed, and the rule holds with the half-life given of the lengths between those days and the length up to that day |
| AbsenceRule.NoAnswerWithoutATable | habitus/foresight/absence.py:78-79 | without a table the answer is no |
| AbsenceRule.LongFollows | habitus/temporal/absence.py:173-197 | shorter gaps behind it make an absence no less long |
| AbsenceRule.NoLongAbsenceIsMissed | habitus/foresight/absence.py:65-89 | whatever the cuts overlooked, a long absence of the whole history is one against the summary |
| AbsenceRule.CompactedMissesNoLongAbsence | habitus/foresight/absence.py:65-89 | so at every point of every run that compacts with the tables of its nights |
| Edges.FoldSequence | habitus/foresight/edges.py:73-107 | the walk back over the misses and the three ways out, tied to the specification |
| Edges.TrailingRunIsFound | habitus/foresight/edges.py:87-94 | the walk finds the trailing run: nothing in it came, its strength is its raw weight, no weight lies between its start and the last hit |
| Edges.OnlineForm | habitus/foresight/edges.py:86-100 | the batch sums obey the recurrences for one more moment |
| Edges.MeanMoves | habitus/foresight/edges.py:86-100 | the mean moves towards what happened by the new weight's share |
| Edges.Concatenated | habitus/foresight/edges.py:86-100 | the sums of a history are the sums of its end and the faded sums of its start |
| Edges.WindowedSum | habitus/foresight/edges.py:84-86 | the windowed sum is the full sum less what fell out, faded by the length of the window |
| Edges.FadedIsScaled | habitus/foresight/edges.py:86 | n steps of fading multiply by the n-th power of the decay |
| Edges.EvidenceIsBounded | habitus/config/foresight.py:97-99 | however long the history, the evidence stays below 1 / (1 - d) |
| Edges.FoldParts | habitus/foresight/edges.py:95-98 | the run holds no hit, hits before it never exceed the evidence, and the parts add up |
| Edges.DiscountOnlyLowers | habitus/foresight/edges.py:99-107 | the pair handed on is legal; at a break the factor lies in [0, 1), evidence never grows and the rate is no higher; otherwise the sums are plain |
| Edges.BreakKeepsTheDiscountedPast | habitus/foresight/edges.py:105-107 | at a break exactly the discounted part of what came before the run is dropped, and what came keeps the factor |
| Edges.FoldIsOfTheLastWindow | habitus/foresight/edges.py:80-84 | what is folded is the last window of the history or the whole when shorter, and the two errors are for a window that is not positive and then for an alpha outside (0, 0.5) |
| Edges.BreaksExactlyWhenUnlikely | habitus/foresight/edges.py:99-107 | a break is declared if and only if a weighted run follows something and its chance, times the evidence before it but at least one, is below alpha; it is dated by the first weighted miss and discounts by how far below |
| Edges.ReplayIsNotAnticipating | habitus/foresight/edges.py:110-124 | a reading as of t is the same for all histories that agree before t, wherever later moments stand |
| Edges.VisibleHistory | habitus/foresight/edges.py:61-70 | filtering by time commutes with ordering the moments of a key |
| Edges.MomentsAreInOrder | habitus/foresight/edges.py:61-64 | moments are ordered by time and at one time by signature |
| Edges.OrderIsTheBagsExactlyWhenTiesAgree | habitus/foresight/edges.py:61-64 | the order of moments depends on nothing but which moments there are, if and only if moments of one time and signature are the same |
| Edges.ReadingIsTheBags | habitus/foresight/edges.py:110-124 | then no reading depends on the order the moments came in |
| Edges.TiesCanChangeAReading | habitus/foresight/edges.py:61-64 | a hit and a miss of one time, signature and weight read as less evidence of coming with the miss put in last, whatever the probability of a run of misses |
| Edges.OnlyTheWindowCounts | habitus/foresight/edges.py:84-86 | only the last visible moments that carry the key count, whether or not a moment of reading is given |
| Decimal.NumberOfDigits | habitus/behavior/model.py:198-209 | fixed-width digits read back as the number, and fill the width |
| Decimal.DigitsOfNumber | habitus/behavior/model.py:212-235 | digits of the right width are the only text of their number |
| Timestamps.ParseOfFormat | habitus/behavior/model.py:198-235 | parsing a formatted time gives it back |
| Timestamps.ParsedIsFormatted | habitus/behavior/model.py:212-235 | what is parsed formats to the same text |
| Timestamps.ParserAcceptsTheImage | habitus/behavior/model.py:212-235 | the parser accepts exactly the texts the formatter writes |
| Timestamps.RejectedAsNotCanonical | habitus/behavior/model.py:228-235 | among texts that name a time, exactly minus nought and sixty or more offset minutes are rejected |
| Timestamps.AcceptedExactlyWhen | habitus/behavior/model.py:212-235 | a text of the right shape is accepted if and only if its fields name a day of the calendar, a time of day and an offset of at most 23 hours and 59 minutes that is not minus nought |
| Timestamps.MonthsAreAsLong | habitus/behavior/model.py:218-229 | the months are as long as the count of leap days and the alternation of the other months make them |
| Names.CanonicalIsStable | habitus/behavior/model.py:103-122 | the canonical form of a name is a name and its own canonical form |
| Names.IdentityNeverTooLong | habitus/behavior/model.py:148-182 | an identity is refused only for its name, or for a time that is naive, not a whole number of minutes from UTC, or at UTC; no identity is longer than 200 bytes, and the last length check cannot fire |
| Names.NamesAreExactly | habitus/behavior/model.py:103-122 | which names are taken, spelled out for a name and its canonical form; the reserved names of the layer files need no test of their own |
| Names.FormatHasNoDoubleDash | habitus/behavior/model.py:198-209 | a timestamp never holds the separator and is ASCII of fixed length |
| Names.LastSeparatorIs | habitus/behavior/model.py:185-195 | the last separator is the one before the timestamp, whatever dashes the name holds or ends with |
| Names.SplitInvertsBuild | habitus/behavior/model.py:167-195 | splitting a built identity gives the canonical name and the time |
| Names.SplitsExactlyWhen | habitus/behavior/model.py:185-195 | a text splits into a name and a time if and only if it is an acceptable name, the separator and that time as it is written |
| Names.AddressFromItsIdentity | habitus/behavior/model.py:411-461 | an address comes back from its identity |
| Percent.DecodeSegment | habitus/behavior/uri.py:288-303 | the scan for malformed escapes and the decoding, tied to the specification |
| Percent.EncodeSegment | habitus/behavior/uri.py:306-315 | the loop over characters gives the specified text |
| Percent.UnquoteUndoes | habitus/behavior/uri.py:288-315 | unquoting undoes the printing of any text in any context of pending bytes |
| Percent.DecodeUndoesEncode | habitus/behavior/uri.py:288-315 | decoding undoes encoding on every non-empty text, with non-ASCII characters literal |
| Percent.EscapedTextDecodes | habitus/behavior/uri.py:288-303 | a text whose UTF-8 bytes are all escaped, several to a character, decodes to the text its printed form decodes to |
| Percent.EitherCaseDecodes | habitus/behavior/uri.py:288-303 | so it does with the digits of its escapes in upper case, lower case or both |
| Percent.DecodesExactlyUtf8 | habitus/behavior/uri.py:297-300 | bytes decode if and only if they are the UTF-8 form of some text: longer forms and surrogates are refused |
| Percent.PrintsUpperCase | habitus/behavior/uri.py:306-315 | a printed segment holds unreserved characters, characters beyond ASCII, and escapes in 0-9 and A-F, and nothing else |
| Percent.PlainPrintsAsItIs | habitus/behavior/uri.py:306-315 | a text prints as it is if and only if all its characters are unreserved or beyond ASCII |
| Percent.EncodedShape | habitus/behavior/uri.py:306-315 | a printed segment is not empty and holds no separator |
| Uris.FormsExcludeEachOther | habitus/behavior/uri.py:193-209 | no path is two kinds of node, and classification finds the one there is |
| Uris.SplitUndoesJoin | habitus/behavior/uri.py:48-71 | splitting a printed path on its separators gives back its segments |
| Uris.ParsingUndoesPrinting | habitus/behavior/uri.py:48-71 | parsing a printed path gives the node its segments name |
| Uris.RefusedTexts | habitus/behavior/uri.py:48-60 | which texts are refused before their segments are read, and for which fault first |
| Uris.CanonicalIsFixed | habitus/behavior/uri.py:212-227 | canonical segments name a node whose canonical segments they are |
| Uris.NormalizingIsIdempotent | habitus/behavior/uri.py:122-123 | normalising twice is normalising once |
| Uris.AddressRoundTrip | habitus/behavior/uri.py:84-85 | the URI of an address leads back to that address |
| Uris.UriIdentifiesAddress | habitus/behavior/uri.py:230-264 | two addresses share a URI if and only if they are the same |
| Uris.PathDateIsTheTimestamps | habitus/behavior/uri.py:230-238 | the date in a document's path is the date its identity ends with, and its file is not hidden |
| Uris.DocumentsLieInDirectories | habitus/behavior/uri.py:248-264 | every document lies five segments deep in a directory |
| Uris.DatedDirectories | habitus/behavior/model.py:482-512 | a dated branch is a directory if and only if some longer one is, down to the days there are |
| Uris.BytesAreOfUtf8 | habitus/behavior/model.py:112 | the budget of a name counts the bytes of its UTF-8 form |
| Uris.PrintIsInjective | habitus/behavior/uri.py:98-109 | different paths print differently |
| ConfigGraph.RejectNonFinite | habitus/config/loader.py:241-266 | the search over the shared set gives the specified verdict and leaves the set as it found it on every exit |
| ConfigGraph.Validate | habitus/config/loader.py:241-266 | a check from nothing active |
| ConfigGraph.RejectionPoints | habitus/config/loader.py:241-266 | a rejection points, by its path, at a non-finite number or at a way back to an active container, and says which |
| ConfigGraph.AcceptanceIsClean | habitus/config/loader.py:241-266 | after an acceptance no walk is bad |
| ConfigGraph.AcceptedExactlyWhenSound | habitus/config/loader.py:241-266 | a document is accepted if and only if no walk from its root meets a non-finite number or comes back to a container it has passed; shared containers are fine |
| Percentiles.PercentileForgetsOrder | habitus/benchmark/metrics.py:53-66 | a percentile, its errors included, does not depend on the order of the values |
| Percentiles.PercentileFailsExactlyWhen | habitus/benchmark/metrics.py:56-60 | which calls fail and with which error first |
| Percentiles.PercentileIsOnTheLine | habitus/benchmark/metrics.py:53-66 | the case of one value is no exception to the interpolation, at the position that is the fraction of the last index, and no read is out of range |
| Percentiles.InterpolatedIsStraight | habitus/benchmark/metrics.py:61-66 | between two neighbouring values, both included, the interpolation is straight |
| Percentiles.PercentileRisesWithFraction | habitus/benchmark/metrics.py:53-66 | a percentile never falls as the fraction grows, across cells too |
| Percentiles.PercentileSplitsTheValues | habitus/benchmark/metrics.py:53-66 | how many values lie at or below, and at or above, a percentile, with no mention of sorting |
| Percentiles.PercentileIsBounded | habitus/benchmark/metrics.py:53-66 | a percentile lies within any bounds of the values; the outermost ones are values |
| Percentiles.AverageIsBounded | habitus/benchmark/metrics.py:44 | the average lies within any bounds of the values |
| Percentiles.DistributionDescribes | habitus/benchmark/metrics.py:27-50 | for the three fractions, whatever they are, the figures of a report are those of the values as they came |
| Percentiles.ReportedFractions | habitus/benchmark/metrics.py:42-50 | the three figures of a report are the percentiles at 0.50, 0.95 and 0.99 |
| Percentiles.GreatestIsLast | habitus/benchmark/metrics.py:49 | the last of the sorted values is the greatest and the percentile at one |
| Percentiles.DistributionIsOrdered | habitus/benchmark/metrics.py:27-50 | p50, p95, p99 and maximum never cross, and the average lies below the maximum |
| Percentiles.DistributionForgetsOrder | habitus/benchmark/metrics.py:27-50 | a report does not depend on the order of the measurements |
| Ranking.GainIsBounded | habitus/benchmark/vector.py:546-551 | hits gain at most what as many first places weigh, and that much exactly when they come first |
| Ranking.ScoreIsARatio | habitus/benchmark/vector.py:546-551 | the score lies in [0, 1], is 1 exactly when hits fill the first places and 0 exactly when there are none, as long as hits are no more than the relevant identities |
| Ranking.DistinctScoreIsARatio | habitus/benchmark/vector.py:546-551 | the same for every answer that holds no identity twice, as every search returns |
| Ranking.AHitAddsItsShare | habitus/benchmark/vector.py:546-551 | one more hit adds the weight of its place over the weights of the best places |
| Ranking.ScoreIsMissingExactlyWhen | habitus/benchmark/vector.py:546-551 | there is no score if and only if nothing is relevant, and an empty answer scores nought |
| Ranking.HitsFirstScoreAtMostOne | habitus/benchmark/vector.py:546-551 | an answer with its hits first, repeats or not, scores at most one if and only if its hits are no more than the relevant identities |
| Ranking.NoOrderOvershootsExactlyWhen | habitus/benchmark/vector.py:546-551 | no order of the returned identities scores more than one if and only if the hits among them are no more than the relevant identities |
| Ranking.MovingAHitUpRaisesTheScore | habitus/benchmark/vector.py:546-551 | moving a relevant identity up into the place of another always raises the score |
| Workload.WritesInWindow | habitus/benchmark/runtime_boundary.py:452-457 | the writes among numbers in a row are the difference of the shares at both ends |
| Workload.FirstIdsHoldTheShare | habitus/benchmark/runtime_boundary.py:452-457 | the first n numbers hold exactly floor(n f) writes, none for f at most 0 and all for f at least 1 |
| Workload.AnyIdsInARowHoldTheShare | habitus/benchmark/runtime_boundary.py:452-457 | any m numbers in a row hold floor(m f) or ceil(m f) writes |
| Workload.ScheduleKeeps | habitus/benchmark/runtime_boundary.py:316-323 | whichever workers draw and finish, every number drawn is held once or finished once, and the writes add up |
| Workload.WritesFollowTheShare | habitus/benchmark/runtime_boundary.py:316-323 | at any moment the writes appended are short of the share of all numbers drawn by no more than the busy workers |
| Workload.PhaseHoldsTheShare | habitus/benchmark/runtime_boundary.py:316-352 | once all workers return, the events are those of the first numbers, each once, and exactly the share of them are writes |
| Workload.AchievedFraction | habitus/benchmark/runtime_boundary.py:403-410 | the reported quotient, over at least one, falls short of the fraction asked for by less than one operation in all, and is nought without operations |
| Workload.Phase.TakeNumber | habitus/benchmark/runtime_boundary.py:316-319 | the head of a worker's loop: nothing after the stop, otherwise the next number of the counter |
| Workload.Phase.AppendEvent | habitus/benchmark/runtime_boundary.py:253-314 | an operation ends with exactly one event, failed or not |
| Workload.Phase.SetStop | habitus/benchmark/runtime_boundary.py:344-352 | the stop touches nothing but the flag |
| Workload.RunPhase | habitus/benchmark/runtime_boundary.py:316-352 | workers that take turns over the shared objects in any order a schedule allows end where the schedule says, so that the results on schedules hold of the objects |

## Left out

- Protocol.RunKeeps: facts of one expectation share the moment it formed, as the facts of a settlement and its revisions do; this stands as a guard of the step.
- Protocol.OffsetsForgetTheCuts: covers the offsets; for gap lengths the exact condition is `Gaps.CutsMatterOnlyThroughOverlookedDays`.
- Absence.CompactedJudgesLikeWhole: for runs that had a table on every night they compacted; a night without one measures calendar days, as `Gaps.WithoutATableIsNoShorter` states.
- Gaps.CutsMatterOnlyThroughOverlookedDays: for the same runs, with tables that agree on days already compacted; a table that tells of such a day otherwise than before is not part of this model.
- Gaps.GapBetween: the flag of a censored gap, which no caller modelled here sets, and the error for a share outside [0, 1], which no table can hold (habitus/foresight/opportunities/model.py:289-292).
- Edges.DiscountOnlyLowers: the Beta posterior of a reading and the probability of a run of misses are parameters; all that is asked of the latter is that it is never negative.
- Names.SplitInvertsBuild: Unicode normalisation with case folding, reserved file names and printability are parameters; folding is asked to be idempotent and to keep a name presentable.
- Names.CanonicalIsStable: for the same parameters.
- Percent.DecodeUndoesEncode: texts are sequences of Unicode scalar values, so that lone surrogates do not arise.
- Ranking.ScoreIsARatio: the weights 1 / log2(i + 2) are any positive falling weights.
- Workload.PhaseHoldsTheShare: an operation is one step; what a search or a write does, latencies and queue samples are not part of the model.
- Workload.Phase.AppendEvent: an event is its kind, its worker and its success; latency, recall and degradations are left out.
- Rounding of floats: fractions, weights, lengths and latencies are exact.
- Prompted visits in the gap measure: the callers modelled here never set them.
- The order of a directory listing: facts may stand anywhere in it.
- `BehaviorDirectory` constructors and `lineage`, `join` and `parent` of a URI, layer and directory URIs as objects: only easy members.
- Duplicate keys and other parts of the configuration loader, `evidence_recall`, recall and precision figures: only easy members.
- Files, network, databases, model clients, the command line, report writers, and the field-by-field range checks of the configuration.
- Holiday calendars, delivery, feedback, levels and everything else in the ledger beside facts and summaries.
