# Research pipeline: models and proofs

A Dafny model of the algorithmic core of the trading-research pipeline under
`research/`: the parts that decide what a sealed report counts as a pair, a
fill, a verified payoff or an exact horizon. `dafny verify dfyconfig.toml`
checks everything.

| files | what they model |
|---|---|
| `NearestPairing` | the greedy nearest-in-time pairing of the two legs' probes |
| `EquivalenceGate`, `PairOutcomes`, `CandidateIndex`, `VerifiedOrder` | the equivalence gate, what its report counts, the event-key index that replaces its all-by-all loop, and the order of the list it returns |
| `DepthWalk`, `DepthMeaning`, `BookRecord`, `PairEconomics` | walking displayed depth by size and by dollars, the book records that feed it, and pair P&L |
| `PyText`, `Sentences`, `SentenceEnds`, `Payoff`, `PayoffMeaning` | the verbatim sentence splitter and where it cuts, the payoff-direction logic over its sentences and what it decides |
| `PriceKeys`, `BookState`, `BookReplay`, `LastWriter`, `StreamState`, `DeltaReplay`, `ReplayAgreement`, `CheckpointMeaning`, `BookHistory` | the order book updated in place, its scoring, attribution and history replays, and what every state and checkpoint shows in terms of the stream's own positions |
| `CaptureGrid`, `CaptureSubject`, `Capture`, `CaptureHistory`, `RetirementLog`, `CaptureRun` | the exact-horizon capture: slot plan, retirement rules, invariants of a run, what each market has been told, what the log alone says of retirement, and the run itself |
| `Balance`, `Cohort` | the round-robin cohort selector, its concentration gate and the largest balanced draw |
| `Rounding`, `FeeRounding` | half-even rounding (roundTiesToEven, section 4.3.1 of IEEE 754-2019) and the rebates built on it |
| `FillModels` | observation sets, touch states and the four fill models |
| `Wrappers`, `Counting`, `Arithmetic` | an optional value and joined rows; counting; facts of real products and quotients |

Decimals and floats are exact reals. Loops and objects that change state are
methods and classes, each proved against a function on values; the theorems are
about those functions. The venue is an arbitrary stream of responses with
arbitrary latencies.

## Where the code and its descriptions differ

The model follows the code. Each point below is a proved lemma.

- `classify_pairs` is described as identical in result to the all-by-all loop.
  Counts, tallies and the set of verified pairs are. The order of the verified
  list is exactly where no unkeyed Kalshi contract verified against a PMUS one
  precedes an equally titled one (`VerifiedOrder.ListsAgreeIff`). The shipped
  halves never meet that case: they publish no proposition, so both lists are
  empty (`VerifiedOrder.ShippedListsAreEmpty`).
- A side without a sibling label is verified even when no settlement sentence
  mentions it, because the empty sibling text is found in every text
  (`Payoff.VerifiedUnmentionedIff`).
- Price keys are compared as strings. Two of them order as their prices exactly
  under the condition of `PriceKeys.KeysAgreeIff`; all prices below ten meet it,
  and shipped prices are at most one.
- The retirement table says three consecutive 404s. The code counts 404s since
  the last 200 and other statuses neither count nor reset. The two differ exactly
  when an earlier 404 is still counted (`CaptureHistory.NotFoundRetirement`).
- The two maker legs are said never to earn the same rebate off a zero spread;
  they also do when bid and ask add to one (`FeeRounding.LegsEarnEqualRebateIff`).
- What `fragmentation` reports as lost to rounding can be negative: split volume
  earns more than one fill exactly under the condition of
  `FeeRounding.FragmentationSign`, and only where one piece is rounded up.
- The balance promise of the cohort selector fails for an odd cap in exactly the
  cases of `Balance.BalancedPoolsIff`. With the shipped cap of twelve the
  concentration gate fails on pools with two to five events outside the largest
  sport, and fewer than that sport holds, although a balanced cohort of four or
  more exists (`Balance.GateVerdict`).
- The queue evidence that sets F0 above F1 and F2 above F3 carries no
  information on an uncrossed book (`FillModels.ModelsCollapse`), and an
  unchanged book is not a zero markout but half the spread
  (`FillModels.UnmovedBookMarksHalfTheSpread`).

## Model

| member | source | states |
|---|---|---|
| `NearestPairing.PairNearest` | research/run84_native_pair.py:186-202 | the pairing loop returns one pair per served left probe: each within the window, no probe of either leg used twice, no two left-over probes within the window of each other, and every left probe in turn served by the nearest right probe no earlier one had taken, the first of two equally near |
| `NearestPairing.NearestProbe` | research/run84_native_pair.py:192-198 | the inner loop finds the nearest unused probe in the window, the earliest on ties, or none |
| `NearestPairing.GreedyIsMatching` | research/run84_native_pair.py:190-202 | every prefix of the loop is injective on both legs and inside the window |
| `NearestPairing.GreedyIsMaximal` | research/run84_native_pair.py:190-202 | nothing left over can still be paired |
| `NearestPairing.GreedyServes` | research/run84_native_pair.py:190-202 | every left probe of any prefix is served in turn: the nearest right probe within the window that no earlier left probe took, the earliest on ties, and none only if there is none |
| `NearestPairing.HalfOfAnyPairing` | research/run84_native_pair.py:181-203 | for every input the loop forms at least half as many pairs as any valid pairing whatever |
| `NearestPairing.HalfIsTight` | research/run84_native_pair.py:181-203 | one half cannot be improved: sorted inputs on which twice as many pairs exist |
| `NearestPairing.WiderWindowUsesMore` | research/run84_native_pair.py:183-203 | after any number of left probes a wider window has used every right probe the narrower one has |
| `NearestPairing.PairCountMonotoneInWindow` | research/run84_native_pair.py:181-203 | the number of pairs formed, of whatever price, never falls as the window widens |
| `EquivalenceGate.GateMeaning` | research/run85_phasex_economics.py:333-375 | rejected exactly when some dimension mismatches; verified exactly when both payoff directions are verified and every dimension matches |
| `EquivalenceGate.ComparisonMeaning` | research/run85_phasex_economics.py:312-330 | two present values match or mismatch: texts match exactly when their stripped forms fold alike character by character, numbers exactly when equal and not NaN, a text and a number exactly when the text parses to it, containers only with themselves |
| `EquivalenceGate.GateLists` | research/run85_phasex_economics.py:333-375 | the mismatched and the unresolved dimensions are listed completely, once each and in the order of the table; each direction blocker is there exactly when its direction is unverified |
| `PairOutcomes.NotIdentifiedMeaning` | research/run85_phasex_economics.py:350-366 | a pair is not identified exactly when no dimension mismatches and some dimension is unresolved or some direction unverified; rejected and verified likewise |
| `PairOutcomes.OutcomeMeaning` | research/run85_phasex_run.py:356-371 | what each counter of the report counts, said of a pair's dimensions and directions alone: a not-identified pair only when its participants match, under the key of its unresolved dimensions |
| `PairOutcomes.AllByAllCounts` | research/run85_phasex_run.py:300-371 | the all-by-all loop counts, for every such counter, the number of pairs (i, j) of the product that meet it |
| `EquivalenceGate.ComparisonSymmetric` | research/run85_phasex_economics.py:312-330 | the comparison of two values does not depend on their order |
| `EquivalenceGate.UnresolvedIffSilent` | research/run85_phasex_economics.py:312-330 | a dimension is unresolved exactly when one side is silent, so silence is never agreement |
| `EquivalenceGate.BlanksDoNotMatter` | research/run85_phasex_economics.py:319-324 | surrounding white space changes no comparison of texts, except that a text of nothing else counts as present |
| `EquivalenceGate.AgreesWithItselfIff` | research/run85_phasex_economics.py:312-330 | a published value agrees with itself unless it is a NaN |
| `EquivalenceGate.AgreementIsNotTransitive` | research/run85_phasex_economics.py:312-330 | a number agrees with two spellings of it that do not agree with each other |
| `CandidateIndex.EliminatesExactlyKeyedMismatches` | research/run85_phasex_run.py:262-297 | the index drops exactly the pairs of keyed titles that compare_dimension calls a mismatch; a white-space title is a mismatch the index does not drop |
| `CandidateIndex.KeyMeaning` | research/run85_phasex_run.py:262-275 | a title is keyed exactly when it is a text with a character that is no white space; two keys are equal exactly when the stripped texts fold alike |
| `CandidateIndex.EliminationMeaning` | research/run85_phasex_run.py:278-297 | the index drops a pair exactly when both titles are such texts and their stripped forms do not fold alike |
| `CandidateIndex.EliminatedIsRejected` | research/run85_phasex_run.py:278-297 | a pair the index drops is one the gate rejects |
| `CandidateIndex.CandidateMembers` | research/run85_phasex_run.py:322-345 | a contract's candidates are every contract but the eliminated ones, each once |
| `CandidateIndex.IndexedRowIsFullRow` | research/run85_phasex_run.py:322-393 | for any question about outcomes, one row through the index counts what the all-by-all row counts once eliminated pairs are added as rejections |
| `CandidateIndex.ClassifyPairs` | research/run85_phasex_run.py:300-393 | the verified list is row after row in the index's own order and holds each verified pair once; every status count is the number of pairs of the product that meet it, and every blocker's the number of not-identified pairs of matching participants whose unresolved dimensions are its key, as in the all-by-all loop; every census entry is the number of pairs not dropped by the index with that verdict; evaluated and eliminated pairs add to the product |
| `CandidateIndex.EvaluatedExactly` | research/run85_phasex_run.py:341-357 | the pairs put to the gate are exactly those index_eliminates does not drop, each once |
| `CandidateIndex.BuildIndex` | research/run85_phasex_run.py:324-327 | the index holds, for each key, the contracts of that key in order |
| `CandidateIndex.LookUp` | research/run85_phasex_run.py:341-345 | the candidates read off the index |
| `CandidateIndex.RecordPair` | research/run85_phasex_run.py:356-359 | one evaluated pair adds one verdict to each dimension's census |
| `CandidateIndex.CensusSums` | research/run85_phasex_run.py:340-371 | over any pairs a dimension's three verdict tallies add to the number of pairs |
| `CandidateIndex.CensusCounts` | research/run85_phasex_run.py:356-359 | the census over the evaluated pairs is, for each dimension and verdict, the number of pairs of the product that the index does not drop and that score it |
| `VerifiedOrder.RowOrderKeptIff` | research/run85_phasex_run.py:341-364 | a row's verified pairs come in column order exactly when no verified unkeyed column stands before a verified one of the row's own key |
| `VerifiedOrder.ListsAgreeIff` | research/run85_phasex_run.py:300-393 | the whole verified list is the all-by-all loop's, order included, exactly when no PMUS contract has such an inversion |
| `VerifiedOrder.ShippedListsAreEmpty` | research/run85_phasex_run.py:176-238 | the shipped halves publish no proposition on either side, so no pair is verified and both lists are empty |
| `VerifiedOrder.OrderCanDiffer` | research/run85_phasex_run.py:300-310 | two contract lists, with halves that do publish everything, on which the two orders differ |
| `VerifiedOrder.FiveVerifies` | research/run85_phasex_economics.py:312-330 | the contracts of that example are verified pairs: a numeric title equals a string title by value |
| `VerifiedOrder.FiveKeys` | research/run85_phasex_run.py:262-275 | of those contracts the string title is keyed and the number is not |
| `VerifiedOrder.OrderKeptWithoutNumericTitles` | research/run85_phasex_run.py:300-393 | with no numeric Kalshi title there is no inversion, so the whole list keeps the order |
| `DepthWalk.Vwap` | research/run85_phasex_economics.py:379-411 | the loop returns the walk's fill, cost, average price, depth, walked levels with their own numbers, and exhaustion flag |
| `DepthMeaning.LegMeaning` | research/run85_phasex_economics.py:379-411 | every field of the record off one allocation: as much as is shown and still wanted from each level in turn; what was taken is listed under each level's own number and price, the fill is its sum, the notional its cost, and the average times the fill is the notional |
| `DepthMeaning.OnlyWalk` | research/run85_phasex_economics.py:386-400 | only one allocation takes that from each level |
| `DepthMeaning.WalkedListsTakes` | research/run85_phasex_economics.py:391-400 | the levels walked are exactly those something was taken from, in order, with what was taken |
| `DepthMeaning.DisplayedAdds` | research/run85_phasex_economics.py:401 | what is displayed adds up along a ladder, whatever the sign of a quantity |
| `DepthWalk.FillIsMin` | research/run85_phasex_economics.py:379-411 | the fill is exactly the smaller of the requested size and the depth |
| `DepthWalk.DepthIsDisplayed` | research/run85_phasex_economics.py:379-411 | with non-negative quantities the depth is all that is displayed |
| `DepthWalk.AskForFill` | research/run85_phasex_economics.py:379-411 | asking for exactly what a walk filled repeats that walk |
| `DepthWalk.WalkIsCheapest` | research/run85_phasex_economics.py:379-411 | on an ascending ladder no feasible allocation of the same quantity costs less |
| `DepthWalk.TakesAttainTheWalk` | research/run85_phasex_economics.py:386-400 | the walk itself is such an allocation |
| `DepthWalk.OptimalIffAscending` | research/run85_phasex_economics.py:379-411 | the walk is cheapest for every size exactly on ladders whose non-empty levels ascend |
| `DepthWalk.VwapMonotone` | research/run85_phasex_economics.py:379-411 | the average price never falls as the requested size grows |
| `DepthWalk.WalkAskLadder` | research/run84_native_pair.py:78-106 | the dollar walk returns its spend, its average price and whether the ladder ran out, on every input |
| `DepthWalk.SpentIsMin` | research/run84_native_pair.py:78-106 | the dollars spent are the smaller of the budget and what the usable levels are worth |
| `DepthWalk.QuantityWalkOfNotionalWalk` | research/run84_native_pair.py:78-106 | asking the size walk for the shares a dollar walk obtained reproduces that walk |
| `DepthWalk.NotionalWalkGetsMostShares` | research/run84_native_pair.py:78-106 | on an ascending ladder no allocation of the same money obtains more shares |
| `BookRecord.KalshiBook` | research/run85_phasex_kalshi.py:506-552 | both sides are the parsed quotes in order, renumbered, the asks mirrored from the No bids; the ask ladder ascends, as the depth walk assumes |
| `BookRecord.PmusBook` | research/run85_phasex_kalshi.py:555-586 | both sides are the parsed quotes in order, renumbered; the ask ladder ascends |
| `BookRecord.KalshiAsksAscend` | research/run85_phasex_kalshi.py:532-543 | whatever the payload, the record's mirrored asks come in ascending price |
| `BookRecord.PmusAsksAscend` | research/run85_phasex_kalshi.py:573-579 | whatever the payload, the record's offers come in ascending price |
| `BookRecord.MirrorIsNearest` | research/run85_phasex_kalshi.py:536-540 | an ask is within half a millionth of one less the No bid, and exactly that for prices of six places |
| `BookRecord.MirrorTwiceIff` | research/run85_phasex_kalshi.py:536-540 | mirroring twice gives the quote back exactly for prices of six places |
| `BookRecord.Renumber` | research/run85_phasex_kalshi.py:541-543 | levels are numbered from one in order |
| `BookRecord.SecondSortIsIdentity` | research/run85_phasex_kalshi.py:532-543 | sorting the mirrored asks again moves nothing, ties included, and no quote is lost |
| `BookRecord.SortedIsSorted` | research/run85_phasex_kalshi.py:532-543 | the stable sort orders its input and keeps its elements |
| `BookRecord.SortIsStable` | research/run85_phasex_kalshi.py:532-543 | quotes of one key keep their order, for every sort key |
| `BookRecord.Levels` | research/run85_phasex_kalshi.py:495-503 | the parse loop keeps exactly the usable pairs, scaled |
| `BookRecord.ParsedReads` | research/run85_phasex_kalshi.py:495-503 | what is parsed is, in order, each usable pair's first number as the price, a hundredth of it for cents, and its second as the quantity |
| `PairEconomics.GrossIsConservative` | research/run85_phasex_economics.py:517-560 | gross P&L priced at each leg's own larger fill never exceeds the P&L of re-walking both ladders at the hedged size, and equals it when the fills agree |
| `PairEconomics.PayloadGrossIsConservative` | research/run85_phasex_economics.py:517-560 | the same from any two payloads, walked through the records built from them, with no premise on the ladders |
| `PairEconomics.NetReportedIff` | research/run85_phasex_economics.py:560-580 | a net number is reported exactly when both venues' required fee components are verified |
| `PairEconomics.SizeMeaning` | research/run85_phasex_economics.py:527-538 | the hedged size is the smaller fill, and is priced exactly when positive with both averages known |
| `PairEconomics.EconomicsMeaning` | research/run85_phasex_economics.py:541-555 | each leg's cost is the size at its own average, gross P&L and the two costs add to the settlement value, and the basis points are gross P&L per ten thousand of cost |
| `PairEconomics.NetMeaning` | research/run85_phasex_economics.py:556-599 | a net number, both costs and both fees at the hedged size add to the settlement value; otherwise exactly the unverified required components are named, venue by venue |
| `PairEconomics.FeeMeaning` | research/run85_phasex_economics.py:506-572 | the PMUS fee is 0.06 times contracts, price and its complement to the nearest cent, even on ties; the other venue's uses its own coefficient, rounded only if its schedule says so |
| `PairEconomics.NetIsConservative` | research/run85_phasex_economics.py:506-599 | a reported net P&L is at most the gross one and at most what both ladders offer |
| `PairEconomics.PayloadNetIsConservative` | research/run85_phasex_economics.py:506-599 | the same from any two payloads of prices between zero and one dollar |
| `Payoff.MatchupSpans` | research/run85_phasex_economics.py:72-88 | the nested scan returns the occurrences of every connector phrase in both orders |
| `Payoff.FindAll` | research/run85_phasex_economics.py:80-87 | the while loop collects the successive occurrences of one phrase |
| `Payoff.OccurrencesExact` | research/run85_phasex_economics.py:80-87 | the scan finds every occurrence of a phrase, overlapping ones included, and nothing else |
| `Payoff.SpansExact` | research/run85_phasex_economics.py:72-88 | the spans are exactly the occurrences of the probes |
| `Payoff.OutsideMatchup` | research/run85_phasex_economics.py:91-102 | the scan returns the first position outside every span |
| `Payoff.FirstOutsideIsLeast` | research/run85_phasex_economics.py:91-102 | that position is a true occurrence outside all spans and every earlier occurrence lies inside one |
| `Payoff.PaysOneIf` | research/run85_phasex_economics.py:112-295 | status, proof chain, missing components and blockers of every branch, in order; verified exactly when there is no blocker |
| `PayoffMeaning.SettlementMembers` | research/run85_phasex_economics.py:206-209 | a text is a settlement sentence exactly when it is a sentence of some rules field and its folded form contains a marker |
| `PayoffMeaning.SettlementSentences` | research/run85_phasex_economics.py:206-209 | the settlement sentences are those of all fields end to end, in order, that contain a marker |
| `PayoffMeaning.AffirmativeConcat` | research/run85_phasex_economics.py:206-209 | collecting over two lists of fields is collecting over the first, then over the second |
| `PayoffMeaning.JoinIsSpaced` | research/run85_phasex_economics.py:235 | the text searched is those sentences in order, one space apart, and nothing more |
| `PayoffMeaning.StatusMeaning` | research/run85_phasex_economics.py:219-275 | when each of the seven statuses is the answer, said of the bound names, of whether there are settlement sentences and an event, and of where each label first stands in them outside a contest phrase |
| `PayoffMeaning.BlockersMeaning` | research/run85_phasex_economics.py:192-275 | when each blocker is listed, in the same terms |
| `PayoffMeaning.ChainMeaning` | research/run85_phasex_economics.py:165-217 | which component each link of the proof chain is about and exactly when it holds |
| `Payoff.ResolveOrientation` | research/run85_phasex_economics.py:219-263 | orientation status and blockers of every branch |
| `Payoff.ReadText` | research/run85_phasex_economics.py:234-242 | the positions of the two labels outside contest phrases, and whether either is mentioned |
| `Payoff.MissingMembers` | research/run85_phasex_economics.py:269-272 | nothing is missing exactly when every proof component holds somewhere in the chain |
| `Payoff.WithdrawnIffUnlabelled` | research/run85_phasex_economics.py:265-295 | a verified orientation is withdrawn for an incomplete chain in one case only: neither side has a label |
| `Payoff.VerifiedIff` | research/run85_phasex_economics.py:112-295 | exactly when one orientation of a contest is verified, for any binding fields that name the side's own label |
| `Payoff.AtMostOneVerified` | research/run85_phasex_economics.py:219-263 | when either label acts as a subject at most one orientation is verified, whatever fields bind either side |
| `Payoff.BothVerifiedIffContest` | research/run85_phasex_economics.py:219-263 | with both sides bound by their own names, both are verified exactly when the sentences name the contest and neither label stands outside it |
| `Payoff.VerifiedUnmentionedIff` | research/run85_phasex_economics.py:219-263 | a side bound by its own name that the sentences never mention is verified exactly when it has no sibling label |
| `Payoff.UnmentionedSideVerified` | research/run85_phasex_economics.py:219-263 | a concrete claim of that kind is verified |
| `PyText.StripIsSlice` | research/run85_phasex_kalshi.py:105-113 | strip keeps one slice, trimmed, and drops only white space around it |
| `Sentences.Split` | research/run85_phasex_kalshi.py:83-114 | the splitter loop returns the specified pieces |
| `Sentences.SplitIsLossless` | research/run85_phasex_kalshi.py:83-114 | the pieces are ordered, disjoint, non-empty slices and everything outside them is white space |
| `SentenceEnds.WhereItCuts` | research/run85_phasex_kalshi.py:83-114 | where the splitter cuts: no piece followed by another ends in an abbreviation or a bare initial and the next one opens a sentence; and inside a piece every stop before white space is followed by a non-opener or ends such a word |
| `SentenceEnds.AbbreviatesMeans` | research/run85_phasex_kalshi.py:101-106 | the abbreviation test, said of the maximal run of letters, digits and dots before the stop: its folded form without trailing dots is listed or a single letter |
| `Sentences.PieceIsStrip` | research/run85_phasex_kalshi.py:105-113 | each piece is the stripped text between two cuts, empty ones dropped |
| `Sentences.ResplitIsIdentity` | research/run85_phasex_kalshi.py:83-114 | splitting a piece again yields that piece alone |
| `Sentences.SplitJoinRoundTrip` | research/run85_phasex_kalshi.py:83-114 | splitting the space-joined pieces yields the same pieces |
| `PriceKeys.DigitOrderIsNumeric` | research/run836a_clob_reconstruct.py:39-45 | lexicographic order is numeric order on digit sequences without trailing zeros |
| `PriceKeys.NormalizeKeepsValue` | research/run836a_clob_reconstruct.py:43-45 | normalisation keeps the value and leaves no trailing zero |
| `PriceKeys.KeyText` | research/run836a_clob_reconstruct.py:43-45 | a key is the price written out: its whole digits without a leading zero and, only for a fraction, a point and the fraction's digits without a trailing zero |
| `PriceKeys.KeysAreInjective` | research/run836a_clob_reconstruct.py:43-45 | two prices of any size share a key exactly when they are equal |
| `PriceKeys.SameWidthKeys` | research/run836a_clob_reconstruct.py:102-106 | keys of prices with equally many whole digits order as the prices do |
| `PriceKeys.KeysAgreeIff` | research/run836a_clob_reconstruct.py:102-106 | the exact pairwise condition: two keys order as their prices exactly when the prices have equally many whole digits, or the whole digits of the narrower one come no later than the leading ones of the other |
| `PriceKeys.KeyOrderIsPriceOrder` | research/run836a_clob_reconstruct.py:43-45 | so below ten key order is price order |
| `PriceKeys.KeyOrderFailsAtTen` | research/run836a_clob_reconstruct.py:102-106 | ten is the first price that disagrees with a smaller one: its key sorts before the key of nine |
| `BookState.Book.FromSnapshot` | research/run836a_clob_reconstruct.py:84-94 | a new book; each side holds a key exactly when some level of the snapshot's same side has that price and a size, and then the last such size |
| `BookState.Book.Copy` | research/run836a_clob_reconstruct.py:96-97 | a new book with the same levels |
| `BookState.Book.ApplyAbsolute` | research/run836a_clob_reconstruct.py:109-116 | one level set to the new size, removed at zero, nothing else changed |
| `BookState.Book.ApplyDelta` | research/run836a_clob_reconstruct.py:119-127 | one level moved by the size, removed when it comes to zero or less, nothing else changed |
| `BookState.Book.Update` | research/run836a_clob_reconstruct.py:130-131 | the update rule chosen by name |
| `BookState.Book.BestBid` | research/run836a_clob_reconstruct.py:102-103 | the greatest bid key, none on an empty side |
| `BookState.Book.BestAsk` | research/run836a_clob_reconstruct.py:105-106 | the least ask key, none on an empty side |
| `BookState.UpdateKeepsRange` | research/run836a_clob_reconstruct.py:109-127 | both update rules keep a book's keys canonical keys of prices below ten |
| `BookState.BestKeyIsBestPrice` | research/run836a_clob_reconstruct.py:102-106 | on such a book the greatest and least keys are the greatest and least prices |
| `BookReplay.CompareBooks` | research/run836a_clob_reconstruct.py:133-147 | a comparison counts the differing levels of both sides, adds up how far their sizes are off, and tells whether the best bids and the best asks agree |
| `CheckpointMeaning.ScoreIs` | research/run836a_clob_reconstruct.py:133-147 | every field of a comparison: the number of keys on each side whose sizes differ, the sum of the size distances over all keys of both books in any order, and for each side whether both are empty or one key is best of both |
| `CheckpointMeaning.ScoredExactly` | research/run836a_clob_reconstruct.py:425-451 | exactly the books after the first are scored: the state before them against their own snapshot |
| `CheckpointMeaning.UpdatesAre` | research/run836a_clob_reconstruct.py:437-457 | the update count is the number of changes for the token since the last book, by position in the stream |
| `CheckpointMeaning.AttributedExactly` | research/run836a_clob_reconstruct.py:491-514 | exactly the same books are attributed; each of the six tallies is the number of levels, or outstanding zeros, of that kind |
| `CheckpointMeaning.AttributionCounts` | research/run836a_clob_reconstruct.py:496-512 | the six tallies of one checkpoint as set sizes over the two sides |
| `BookReplay.FullIffNoError` | research/run836a_clob_reconstruct.py:133-147 | a checkpoint is equal in full exactly when its absolute size error is zero |
| `BookReplay.ScoreReplay` | research/run836a_clob_reconstruct.py:418-457 | the scoring loop, one book changed in place, yields the checkpoints of the replay on values under either rule, each with its frame and update count, and the first that diverges |
| `BookReplay.ScoreItem` | research/run836a_clob_reconstruct.py:425-457 | one item is scored before it is adopted, and moves the book and the update count |
| `BookReplay.ScoreModel` | research/run836a_clob_reconstruct.py:411-457 | the loops over sessions and tokens put those checkpoints end to end and keep the very first divergence |
| `BookReplay.AttributionReplay` | research/run836a_clob_reconstruct.py:482-525 | the attribution loop yields the tallies of the windowed replay on values |
| `BookReplay.AttributeSide` | research/run836a_clob_reconstruct.py:496-512 | the loop over one side's levels tallies each level by touched and agreeing |
| `BookReplay.AttributeZeros` | research/run836a_clob_reconstruct.py:509-512 | the loop over outstanding zero levels tallies them as absent or present again |
| `BookReplay.FollowChanges` | research/run836a_clob_reconstruct.py:515-525 | a price change moves the book, the touched levels and the zeroed levels together |
| `BookReplay.WindowFollowsReplay` | research/run836a_clob_reconstruct.py:482-525 | the attribution replay is in the scoring replay's state after every event |
| `ReplayAgreement.WrongIsTotalDiff` | research/run836a_clob_reconstruct.py:416-525 | updated plus not-updated wrong levels equal the bid and ask differences over the ABSOLUTE checkpoints |
| `ReplayAgreement.ReplaysAgree` | research/run836a_clob_reconstruct.py:411-525 | the same over all sessions and tokens, against the checkpoints the scoring loops list |
| `ReplayAgreement.NotUpdatedWrongMeaning` | research/run836a_clob_reconstruct.py:496-512 | not-updated wrong is exactly: no change touched the level since the last book and the two snapshots differ there |
| `ReplayAgreement.ZeroedMeansUpdatedWrong` | research/run836a_clob_reconstruct.py:509-525 | a zeroed level that is present again is an updated wrong one; one that is absent is in neither book |
| `ReplayAgreement.PresentAgainAtMostWrong` | research/run836a_clob_reconstruct.py:482-525 | over a whole replay present_again never exceeds updated wrong |
| `LastWriter.ReplayIsSince` | research/run836a_clob_reconstruct.py:411-457 | under either rule the replayed state is the last book with every change since applied in order, however they were spread over events |
| `LastWriter.LastWriterWins` | research/run836a_clob_reconstruct.py:109-116 | in every reachable state of a stream a level holds the size last written to it since the last book, by whichever event, is absent when that was zero, and otherwise is as in that book |
| `LastWriter.LastWrittenIs` | research/run836a_clob_reconstruct.py:109-116 | the size last written is that of the write no later change overwrites |
| `StreamState.StateShows` | research/run836a_clob_reconstruct.py:84-116 | by positions of the stream alone: in every reachable state a level shows the size of the last change to its side and price since the last book, and what that book's snapshot last says of it when there is no such change |
| `StreamState.NoStateYet` | research/run836a_clob_reconstruct.py:418-430 | before the first book there is no state |
| `StreamState.WindowShows` | research/run836a_clob_reconstruct.py:482-525 | a level is touched exactly when a change since the last book writes to it, and an outstanding zero exactly when the last such change has size zero |
| `DeltaReplay.DeltaReplayAdds` | research/run836a_clob_reconstruct.py:119-127 | in every state the delta rule reaches a level's size in closed form: the largest of the last book's size plus all sizes written since and of the sums of the latest runs of them, nothing at the least; shown exactly when positive |
| `LastWriter.WindowSince` | research/run836a_clob_reconstruct.py:482-525 | the touched set is exactly the levels written since the last book, over all its events |
| `LastWriter.NoUpdatesNoChange` | research/run836a_clob_reconstruct.py:411-457 | a checkpoint after no updates compares the last book itself with the next one |
| `LastWriter.BootstrapDoesNotMatter` | research/run836a_clob_reconstruct.py:411-525 | two streams that differ only in what their books show touch the same levels, and at every moment agree at a level exactly where it was touched since the last book or the last books agree |
| `ReplayAgreement.ReplayStoresNoZero` | research/run836a_clob_reconstruct.py:84-127 | no reachable book stores a zero |
| `ReplayAgreement.ReplayInRange` | research/run836a_clob_reconstruct.py:84-127 | on prices below ten every reachable book has canonical keys only |
| `ReplayAgreement.ReachableBestIsBestPrice` | research/run836a_clob_reconstruct.py:102-106 | what best_bid and best_ask return of any reachable book of prices below ten is the key of its best price, and None exactly for an empty side |
| `ReplayAgreement.FullyEqualIsBestEqual` | research/run836a_clob_reconstruct.py:133-147 | a checkpoint counted as equal in full is counted as equal at both touches |
| `BookHistory.BuildHistory` | research/run836a_clob_reconstruct.py:585-602 | the history holds the time, the kind and a copy of each successive state; later in-place updates reach none of them |
| `BookHistory.TimelineMeaning` | research/run836a_clob_reconstruct.py:585-602 | the entries are, in order, those of exactly the books of the token and the events with a change to it after some book, each with its own time and kind and the state once it is applied |
| `BookHistory.ApplyAndNote` | research/run836a_clob_reconstruct.py:594-602 | a change event moves the book and says whether it touched the token |
| `BookHistory.LookUp` | research/run836a_clob_reconstruct.py:631-637 | the last entry at or before the instant, none when there is none |
| `BookHistory.LastAtOrBeforeIs` | research/run836a_clob_reconstruct.py:631-637 | what is found is the entry that is not after the instant while every later one is; nothing exactly when all are after it |
| `BookHistory.LookupIsReplay` | research/run836a_clob_reconstruct.py:585-637 | that entry is the replay from scratch of what was delivered by the instant |
| `CaptureGrid.CollideIff` | research/run85_phase2_capture.py:154-163 | the distances at which two observation sets want a common slot |
| `CaptureGrid.PlanGrid` | research/run85_phase2_capture.py:187-206 | for any number of sets and any period the plan succeeds exactly when no two legs share a slot, and then holds ten slots per set; otherwise it names a slot, two sets that want it, and the first set that clashes |
| `CaptureGrid.PeriodFourteenIsFree` | research/run85_phase2_capture.py:161-162 | the frozen period never collides |
| `CaptureGrid.ShorterPeriodsCollide` | research/run85_phase2_capture.py:42-47 | every shorter period collides as soon as there are two sets (three for a period of six) |
| `CaptureGrid.NoDenserSchedule` | research/run85_phase2_capture.py:42-47 | no schedule of starts, even or uneven, packs sets more densely than one per fourteen slots |
| `CaptureGrid.HorizonsOnGrid` | research/run85_phase2_capture.py:154-160 | each book leg's offset on the grid is its horizon |
| `CaptureGrid.WindowIsMaximal` | research/run85_phase2_capture.py:209-214 | the planned number of sets is the largest that fits the window |
| `CaptureGrid.DeadlineUnreachable` | research/run85_phase2_capture.py:481-484 | no planned slot is past the deadline |
| `CaptureSubject.NonOpenRunMeaning` | research/run85_phase2_capture.py:436-441 | the non-open count reaches k exactly when the last k sets were all not open |
| `CaptureSubject.NoBookRunMeaning` | research/run85_phase2_capture.py:442-447 | the no-book count reaches k exactly when the last k sets all lacked a two-sided book |
| `CaptureSubject.NotingGoesOn` | research/run85_phase2_capture.py:430-448 | a market goes on being noted exactly while no note retires it |
| `CaptureSubject.Subject.NoteSet` | research/run85_phase2_capture.py:430-448 | the streak fields follow the notes and the verdict is the frozen rule's |
| `CaptureSubject.Subject.SeeStatus` | research/run85_phase2_capture.py:519-526 | the count follows the statuses and retires at three |
| `CaptureSubject.SilentWhileUnretired` | research/run85_phase2_capture.py:430-448 | until the rule has retired a market no event has said it should be |
| `CaptureSubject.RuleIsFirstSaying` | research/run85_phase2_capture.py:519-542 | the rule retires a market at the first event that says so and for that event's reason |
| `CaptureSubject.StreaksFireExactly` | research/run85_phase2_capture.py:430-448 | the event that retires a market finds the 404 count at three, or the run of sets at forty, or a terminal state |
| `CaptureSubject.CountIsRunIff` | research/run85_phase2_capture.py:519-526 | the 404 count equals the run of 404s exactly when every earlier 404 has been followed by a 200 before that run |
| `CaptureSubject.RetiredOnStaleIff` | research/run85_phase2_capture.py:519-526 | a market retired as not found was not retired on three 404s in a row exactly when an earlier 404 was still counted |
| `CaptureSubject.NotFoundNeedNotBeConsecutive` | research/run85_phase2_capture.py:100 | three 404s, no two in a row, count as three |
| `Capture.ShootKeeps` | research/run85_phase2_capture.py:486-508 | a request keeps every invariant of the run |
| `Capture.CloseKeeps` | research/run85_phase2_capture.py:528-538 | closing a set keeps them |
| `Capture.RetireKeeps` | research/run85_phase2_capture.py:521-542 | retiring a market keeps them |
| `Capture.LastLegMeansAll` | research/run85_phase2_capture.py:528-530 | when a set's last leg is observed all ten legs have been |
| `Capture.StartsSpaced` | research/run85_phase2_capture.py:486-497 | no request precedes its grid time and any two starts are a spacing apart per request between them |
| `Capture.LatenessRecursion` | research/run85_phase2_capture.py:486-497 | lateness is what is left of the last lateness and occupation after the slots between |
| `Capture.IdleSlotsAbsorb` | research/run85_phase2_capture.py:486-497 | after an unthrottled answer within a slot, each idle slot wins back one spacing |
| `Capture.OnGridIff` | research/run85_phase2_capture.py:486-497 | every request is exactly on its grid time precisely when each is over by the next one's slot |
| `Capture.ExactHorizons` | research/run85_phase2_capture.py:499-504 | in such a run every book is read exactly 0, 5, 10, 30 or 60 s after its set's first |
| `Capture.StartedIsRequested` | research/run85_phase2_capture.py:547-549 | sets_started is the number of sets with any request |
| `Capture.ShootAnswers` | research/run85_phase2_capture.py:497-506 | open and completed sets hold exactly the answers their requests came back with, and a planned leg goes unrequested only if an earlier request retired its market |
| `CaptureHistory.OnlyLiveMarketsRequested` | research/run85_phase2_capture.py:478-479 | no market is requested once the answers so far have retired it |
| `CaptureHistory.OnlyDeadMarketsSkipped` | research/run85_phase2_capture.py:478-479 | a planned leg that was not requested belongs to a market the answers before its slot had retired |
| `CaptureHistory.RuleAfterSticks` | research/run85_phase2_capture.py:541-542 | once retired, a market stays so for the same reason |
| `CaptureHistory.RetirementIsExact` | research/run85_phase2_capture.py:430-448 | in every run the request that retires a market finds its streak at exactly the stated limit |
| `CaptureHistory.NotFoundRetirement` | research/run85_phase2_capture.py:519-526 | in every run, exactly when a not-found retirement is not on three 404s in a row |
| `RetirementLog.SetNoteIs` | research/run85_phase2_capture.py:312-360 | the note a closing set adds has the state and the two-sidedness of the answer to the request for its first book |
| `RetirementLog.FirstBookWasRead` | research/run85_phase2_capture.py:528-530 | in every run a set that closes has had its first book read |
| `RetirementLog.HistoryGrows` | research/run85_phase2_capture.py:508-542 | what each request adds to each market's history, off the log: its status unless the identity failed or it was for another market, then the note of the set it closes unless it is the fifth 429 |
| `RetirementLog.RuleGives` | research/run85_phase2_capture.py:430-448 | a market still read is retired by a request exactly when, and for the reason that, the log gives: three 404s with no 200 after them, a terminal first book, forty closed sets in a row not open, or forty not two-sided |
| `RetirementLog.RetiredAtFirstReason` | research/run85_phase2_capture.py:519-542 | in every run a market is retired exactly when some request gives a reason, at the first that does and for that reason |
| `CaptureRun.Request` | research/run85_phase2_capture.py:486-516 | waiting, reading, recording and sitting out a 429 is one step of the run |
| `CaptureRun.TellStatus` | research/run85_phase2_capture.py:519-526 | the status branch retires the market exactly at the 404 count |
| `CaptureRun.CloseSet` | research/run85_phase2_capture.py:528-542 | the closing branch notes the set by its first book and retires an unretired market exactly where the rule says |
| `CaptureRun.Serve` | research/run85_phase2_capture.py:471-545 | one planned slot: what the run becomes, which stop it causes, and what every market then knows |
| `CaptureRun.ServedKeeps` | research/run85_phase2_capture.py:471-545 | every way a served slot can go keeps the invariants of the run |
| `CaptureRun.AllStillKnow` | research/run85_phase2_capture.py:471-545 | serving one market changes nothing another market knows |
| `CaptureRun.Hear` | research/run85_phase2_capture.py:508-542 | an answer reaches its market: its status, then the set it completes, unless it stops the run |
| `CaptureRun.KnownIsTold` | research/run85_phase2_capture.py:451-554 | every market is retired exactly as its own answers have it, at the request that first says so |
| `CaptureRun.Plan` | research/run85_phase2_capture.py:452-471 | the slots visited end at the plan's last |
| `CaptureRun.RunSegment` | research/run85_phase2_capture.py:451-554 | for every stream of answers: spacing and plan order kept, completed sets carry ten legs and close once in order, each market is requested until, and retired at, the first answer whose streak demands it, five 429s stop the run, it ends with all markets retired exactly when they are, and the deadline stop never happens |
| `RetirementLog.RunRetires` | research/run85_phase2_capture.py:451-554 | which markets any run has retired, at which request and why, off its log alone |
| `RetirementLog.RunStops` | research/run85_phase2_capture.py:506-518 | a run stops for identity exactly on a failed identity and for the rate limit exactly when five answers were 429s |
| `Balance.BalancedDrawAttains` | research/run85_phase2gr.py:78-84 | max_balanced_size is attained by a draw with no sport above half |
| `Balance.NoLargerBalancedDraw` | research/run85_phase2gr.py:78-84 | no larger draw within the counts is balanced |
| `Balance.TrailingIsDrained` | research/run85_phase2gr.py:105-122 | a sport two or more behind another has nothing left |
| `Balance.TopAboveHalfIff` | research/run85_phase2gr.py:105-122 | exactly when the top sport ends above half, for all pools and caps |
| `Balance.TopLeads` | research/run85_phase2gr.py:103-122 | drawn largest pool first, only the first sport can be above half |
| `Balance.BalancedPoolsIff` | research/run85_phase2gr.py:90-123 | from pools of which none exceeds half, the cohort is balanced unless an odd cap cuts it short at one event or over just two sports; an even cap never unbalances it |
| `Balance.ShareAboveHalf` | research/run85_phase2gr.py:125-128 | at cohort size the share test with its tolerance is the exact above-half test |
| `Balance.GateVerdict` | research/run85_phase2gr.py:130-159 | the sport-concentration verdict of any round-robin cohort, read off the pools |
| `Balance.ConcentrationMeaning` | research/run85_phase2gr.py:130-159 | for any cohort of at most twelve: it passes exactly with four events or more and no sport above half, and is waived exactly when it is above half and no draw of four or more from the universe avoids that |
| `Cohort.LongestFirstIsOrder` | research/run85_phase2gr.py:103-112 | the sort key orders by falling length, then position, each index once |
| `Cohort.TakeOne` | research/run85_phase2gr.py:109-122 | a turn takes an unused event of the pool whenever there is one, from the first longest stratum when none of the pool is used, and loses no other |
| `Cohort.Round` | research/run85_phase2gr.py:107-122 | one round gives each sport in order its turn until the cap, and reports no progress only when all pools are drained |
| `Cohort.SelectCohort` | research/run85_phase2gr.py:90-123 | min(cap, eligible) picks, all distinct events of their sports, spread by whole rounds over the sports largest pool first, and so is every prefix of them: the picks come in the order of the turns; each stratum is picked from its front and none picked from ends two or more shorter than another |
| `Rounding.RoundedIff` | research/run85_trackb_fees.py:79-81 | half-even rounding is characterised as the nearest integer, even on ties |
| `FeeRounding.RebateMeaning` | research/run85_trackb_fees.py:79-104 | a rebate is the nearest number of cents, even on ties, to 0.0125 dollars times contracts, price and its complement |
| `Rounding.RoundMonotone` | research/run85_trackb_fees.py:79-81 | rounding keeps order |
| `FeeRounding.LeastFill` | research/run85_trackb_fees.py:119-125 | the search loop returns the least earning size, or the sentinel after ten million |
| `FeeRounding.MinContractsForACent` | research/run85_trackb_fees.py:111-125 | the least size whose rounded rebate is at least a cent: every smaller size earns nothing, every larger one a cent or more; the sentinels exactly where there is none |
| `FeeRounding.PairBudget` | research/run85_trackb_fees.py:128-175 | a maker pair costs one less the spread and rounding moves its budget by at most a cent |
| `FeeRounding.MakerPairMeaning` | research/run85_trackb_fees.py:128-175 | the fields of a maker pair: the short leg rests at one less the ask, and both budgets are the spread times contracts plus both legs' rebates, exact or in whole cents |
| `FeeRounding.RebateSymmetric` | research/run85_trackb_fees.py:28-50 | a rebate may be taken at either spelling of the price |
| `FeeRounding.LegsEarnEqualRebateIff` | research/run85_trackb_fees.py:28-50 | the legs earn the same exact rebate exactly on zero size, zero spread or a book centred on one half |
| `FeeRounding.FragmentationBounded` | research/run85_trackb_fees.py:178-193 | the rounding loss is at most (fills + 1) half-cents in magnitude, for every size, price and split |
| `FeeRounding.FragmentedEarnsNothingIff` | research/run85_trackb_fees.py:178-193 | fragmented volume earns nothing exactly when one piece is worth at most half a cent |
| `FeeRounding.FragmentationSign` | research/run85_trackb_fees.py:178-193 | exactly when splitting gains and exactly when it loses, for every size, price and split: the number of pieces times the rounding error of one, against half a cent; into a positive number of fills it gains only if a piece is rounded up and loses only if one is rounded down |
| `FeeRounding.LostMeaning` | research/run85_trackb_fees.py:178-193 | what is reported lost and what the pieces earn add to what one fill earns |
| `FeeRounding.FragmentationCanGain` | research/run85_trackb_fees.py:178-193 | a size and price at which splitting in two gains |
| `FillModels.BestIsExtreme` | research/run85_trackb_primary.py:121-127 | the touch is the extreme price shown, absent on an empty side |
| `FillModels.QuoteMeaning` | research/run85_trackb_primary.py:214-233 | the two orders rest at the highest bid and the lowest ask of the first book, with all that is shown there, and there is no quote exactly when a side is empty |
| `FillModels.BuildSets` | research/run85_trackb_primary.py:192-211 | one market's rows are cut into sets at exactly the gaps over 90 s, in order and without loss |
| `FillModels.GroupingIsLossless` | research/run85_trackb_primary.py:192-211 | the sets put end to end are the rows |
| `FillModels.GroupingUnique` | research/run85_trackb_primary.py:192-211 | there is only one such cutting |
| `FillModels.AnalyseSet` | research/run85_trackb_primary.py:214-265 | postable exactly with two reads and a two-sided first book; each horizon holds the latest read that rounds to it |
| `FillModels.ElapsedMeaning` | research/run85_trackb_primary.py:236 | a read's horizon is the nearest whole second since the first, the even one on ties |
| `FillModels.ObserveMeaning` | research/run85_trackb_primary.py:240-265 | every field recorded at a horizon, off the two ladders and the quote: touches, markouts against the mid, and what is still shown at our prices |
| `FillModels.QtyAtAdds` | research/run85_trackb_primary.py:130-133 | what is shown at a price adds up over the levels of that price |
| `FillModels.StateMeaning` | research/run85_trackb_primary.py:293-300 | each of the four pair states is exactly its combination of filled legs |
| `FillModels.FillsMeaning` | research/run85_trackb_primary.py:240-282 | F0 to F3 read off the ladders: which far-side level must have come to, or gone beyond, our price, and what must have gone from our own |
| `FillModels.GoneIsReduced` | research/run85_trackb_primary.py:252-282 | with positive quantities gone is a case of reduced and F2 is touched with less shown at our price than at first |
| `FillModels.ModelsOrdered` | research/run85_trackb_primary.py:268-282 | leg by leg F0 implies every model and every model implies F3 |
| `FillModels.UncrossedModelsOrdered` | research/run85_trackb_primary.py:214-282 | unless the horizon book is crossed F1 implies F2 |
| `FillModels.CrossedNotReducedIff` | research/run85_trackb_primary.py:214-282 | exactly when F1 fills a leg that F2 does not |
| `FillModels.CrossedAndReducedDiffer` | research/run85_trackb_primary.py:268-282 | from one and the same first book, one real horizon book fills a leg under F1 alone and another under F2 alone |
| `FillModels.ModelsCollapse` | research/run85_trackb_primary.py:214-282 | unless the horizon book is crossed F0 is F1; unless it is locked either, F2 is F3 |
| `FillModels.LockedBookSeparates` | research/run85_trackb_primary.py:214-282 | on a locked book F2 and F3 differ |
| `FillModels.CompletedIff` | research/run85_trackb_primary.py:293-300 | F3 completes a pair exactly when some ask has come down to our bid and some bid up to our ask |
| `FillModels.CompletionNeedsACrossedBook` | research/run85_trackb_primary.py:214-300 | from an uncrossed first book no model completes a pair unless that horizon's book is crossed by at least the first spread |
| `FillModels.MarkoutsAddToSpread` | research/run85_trackb_primary.py:30-46 | the two markouts add to the spread wherever the book went |
| `FillModels.FilledLegLoses` | research/run85_trackb_primary.py:30-46 | a leg any model fills shows a loss at that horizon unless the book is locked or crossed |
| `FillModels.UnmovedBookMarksHalfTheSpread` | research/run85_trackb_primary.py:30-46 | an unmoved book marks each leg half the spread, zero only where bid equals ask |

## Left out

- CandidateIndex.ClassifyPairs: the full blocker tally is modelled; the report's cut to the twenty most common combinations, whose ties depend on dictionary order, is not.
- CandidateIndex: `float` parsing is a parameter, infinities and NaN included; the overflow error of converting a huge integer and identity-based equality of lists inside values are not modelled.
- CandidateIndex: building each venue's half of the dimensions from its records; the halves are arbitrary.
- Payoff: binding values are texts; how `str` renders any other value is not modelled.
- EquivalenceGate, Payoff: `str.lower` is an arbitrary character map, idempotent where a lemma needs it; Unicode rules that change a string's length are not modelled.
- NearestPairing: instants are integers and each leg's probes are already in the order the sort leaves them; the `TypeError` Python raises when two probes of one leg tie in time and their dictionaries are compared is not modelled.
- DepthWalk, BookRecord, PairEconomics, FeeRounding: Decimal context precision and binary floating-point error.
- PairEconomics: the net basis points, which have the form of the gross ones over a total that includes the fees.
- PriceKeys: prices are non-negative decimals as digits and an exponent; signs, NaN and infinities are not modelled.
- BookState: a change's side is one of the two the venue sends; any other text, which the source treats as a sell, is not modelled.
- BookReplay: the checkpoint columns that only repeat others or the input (wall times, session names, side flags), the totals printed from the checkpoints, and the legacy hash variants.
- BookHistory: the choice of the session open at the instant of a REST read.
- Capture: `derive_set` beyond the state and two-sidedness of the first book it passes to the retirement rules; its markouts are those of `FillModels` in another notation.
- Capture: the pacer that counts 429s beside the run contributes only its Retry-After wait; its own spacing is never read by the run.
- Capture: the order of the responses' receipt is the order of the requests, as the source's single thread has it.
- Cohort: reading a frame into pools of strata (by sport, state, price band and spread bucket) and sorting event ids; a pool's size is its number of distinct events, a frame holding each event once.
- Cohort: the other entries of the gate (league, price band, tick, spread, live state, size), which are table lookups.
- FillModels: reading ladders out of payloads, and grouping rows by market and sorting them by time.
- FillModels: the medians printed by the report.
- HTTP, files, archives, git and printing; sealing and checksums; request budgets; the bootstrap resampling; the fee registry's provenance texts.
- The earlier cohort selectors and phases that the modelled ones replaced.
