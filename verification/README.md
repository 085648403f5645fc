# soltrade core in Dafny

soltrade is a Solana trading bot. This project models the pure part of
its core in Dafny and proves properties of that model. The core has two
groups.

**Positions and exit rules (`soltrade/datastructures.py`).** A
`MarketPosition` is one held token. It records:
- its entries;
- its confirmed exits;
- five lists of exit rules: take-profit, trailing take-profit, true
  trailing take-profit, stop-loss and trailing stop-loss.

`update` refreshes the price, ratchets the trailing stop-losses and
scans the lists for exits to advise. `confirm` records the exits a
caller has carried out, shrinks the position and rescales the rules that
remain. The `add_*` methods keep each list sorted by its own key.
`PositionContainer` holds one position per token. `Stream` answers
window and crossover queries over a price series. `StreamContainer`
maps aliases to series.

**Universe selection (`soltrade/universe.py`).** This group covers:
- the derived fields of a fetched token and its eligibility test;
- the market-cap binning;
- the age-and-security filter;
- the volume-and-liquidity filter with its quintile cut-offs.

## Modules

| module | file | what it holds |
|---|---|---|
| `Python` | python.dfy | `None`, exceptions as a `Result`, Python index and slice resolution |
| `Seqs` | seqs.dfy | sums, quotient bounds, order-preserving filtering |
| `Sorting` | sorting.dfy | Python's stable sort as a stable insertion sort by a total preorder |
| `OrderedMap` | ordered_map.dfy | `OrderedDict`: a map plus its key order |
| `ExitRules` | exit_rules.dfy | rule kinds and shapes, trigger test, sort keys, removal and rescaling of one list |
| `MarketPosition` | market_position.dfy | the position record, its invariant `Valid`, `add_*`, `remove`/`get_exit_condition`, `add_entry` |
| `Advice` | advice.dfy | `update`: price refresh, trailing-stop ratchet, exit scan |
| `Confirmation` | confirmation.dfy | `confirm` and `_adjust_exit_sizes` |
| `PositionContainer` | position_container.dfy | `PositionContainer` |
| `Stream` | stream.dfy | `Stream` window queries and crossovers |
| `StreamContainer` | stream_container.dfy | `StreamContainer` |
| `Universe` | universe.dfy | `fill_entry`, binning, the two filters |

The model works on immutable values. Each Python method that mutates
`self` becomes a function from the old state to the new one. A raised
exception becomes `Failure(error)`. Each Python tuple shape of an exit
rule becomes a constructor of `ExitRules.Rule`.

## Behaviour kept as written

- **The scan sum (datastructures.py:83-85).** `_check_exits` adds every
  visited rule's fraction to the running sum, whether or not the rule
  triggered (line 83). It stops once that sum reaches 1 (lines 84-85).
  `Advice.Advise` keeps both.
- **The early return from `confirm` (datastructures.py:44-45).** Once
  the confirmed fractions reach 1, `confirm` returns 0 before line 46
  runs, so `position_size` keeps its old value and no list is rescaled.
  The rules already popped stay popped, and the exits already recorded
  stay recorded. `Confirmation.Confirm` states the returned 0 and the
  unchanged size for every input whose first halting exit saturates.
- **Stale advice indices (datastructures.py:39, 81).** `_advise`
  records each triggered rule's index into its list as the list stood
  during the scan (line 81). `confirm` pops those indices one after
  another (line 39), so once a rule has left a list, a later index into
  the same list names a different rule or runs past the end.
  `Confirmation.StaleIndexRaises` shows an advice whose confirmation
  raises `IndexError`. `Confirmation.StaleIndexPopsOther` shows one that
  pops an untriggered rule and keeps a triggered one. The model pops
  sequentially as Python does (`Confirmation.Pops`).
- **A repeated transaction id (datastructures.py:41, 115).** A repeated
  txid in `confirm` or `add_entry` replaces the earlier record in place,
  as `OrderedDict` assignment does.
- **The mean window with `lag = 0` (datastructures.py:209).** The slice
  `data[-1 - length:]` holds `length + 1` samples.
  `Stream.MeanWithoutLagReadsOneMore` shows this on `1 .. 10`.

## Model

| member | source | states |
|---|---|---|
| Python.Index | soltrade/datastructures.py:124-136 | a subscript resolves exactly when it lies in `[-n, n)`, to the position congruent to it modulo `n` |
| OrderedMap.Put | soltrade/datastructures.py:41 | assignment keeps the map well formed; an existing key keeps its place, a new key goes last |
| OrderedMap.PutValues | soltrade/datastructures.py:114-120 | after an assignment, `values()` is the old values with the new one appended, or with the replaced key's value changed in place |
| Sorting.Sort | soltrade/datastructures.py:142 | sorting returns a permutation of its input |
| Sorting.SortSorted | soltrade/datastructures.py:142 | under a total preorder the sorted list is ordered |
| Sorting.InsertIsSplice | soltrade/datastructures.py:141-142 | a stable insertion splices the new element in after every element that sorts no later than it |
| Sorting.SortAppended | soltrade/datastructures.py:141-142 | appending to a sorted list and re-sorting is a stable insertion of the new element |
| Sorting.SortOfSorted | soltrade/datastructures.py:142 | re-sorting an already sorted list leaves it unchanged |
| ExitRules.Triggered | soltrade/datastructures.py:88-93 | stop-loss, trailing stop-loss and trailing take-profit fire when the price is at or below the rule's price, the other two at or above it; a rule always fires at its own price; an unarmed trailing take-profit never fires |
| ExitRules.KindNamed | soltrade/datastructures.py:8 | a name resolves to a list exactly when it is one of the five `exit_types` names, and then to the list of that name |
| ExitRules.NameRoundTrip | soltrade/datastructures.py:8 | every list's name resolves back to that list |
| ExitRules.TriggerDirection | soltrade/datastructures.py:88-93 | stop-style rules stay triggered as the price falls and take-profit-style rules as it rises; a rule triggers at its own level; an unarmed trailing take-profit never triggers |
| ExitRules.BelowMonotone | soltrade/datastructures.py:98 | a stop placed below a higher price is no lower |
| ExitRules.Le | soltrade/datastructures.py:142-167 | the sort key of each list: take-profit ascending by price, stop-loss descending by price, the trailing lists ascending by trail, the trailing take-profit armed-first then ascending by price; every rule sorts no later than itself |
| ExitRules.OrderIsTotalPreorder | soltrade/datastructures.py:142-167 | every list's sort key is a total preorder, so every list has a well-defined sorted order |
| ExitRules.ScaleSum | soltrade/datastructures.py:60-62 | multiplying every fraction by a factor multiplies their sum by it |
| ExitRules.ScaleKeepsOrder | soltrade/datastructures.py:62 | rescaling fractions keeps a list sorted and well shaped |
| ExitRules.RemoveAt | soltrade/datastructures.py:39 | removing one rule keeps every rule before it and shifts every rule after it down by one, and subtracts its fraction from the list's total |
| ExitRules.RemoveKeepsOrder | soltrade/datastructures.py:127 | removing a rule keeps the list sorted and well shaped |
| ExitRules.Rescale | soltrade/datastructures.py:53-62 | an empty or zero-sum list is untouched; otherwise every fraction is multiplied by `(sum + exited) / sum`, so the fractions total the old sum plus the exited fraction, with prices and trails unchanged |
| MarketPosition.SetKeepsValid | soltrade/datastructures.py:7-24 | replacing one list by a sorted, well-shaped list keeps every list sorted and well shaped |
| MarketPosition.NewPosition | soltrade/datastructures.py:11-24 | a fresh position has average, current, last and highest price equal to the entry price, one entry, no exits, empty rule lists, and satisfies the position invariant |
| MarketPosition.AddRule | soltrade/datastructures.py:141-142 | only the chosen list changes; it grows by exactly the new rule, stays sorted, and on a sorted list the rule lands after every rule it ties with; the invariant is kept |
| MarketPosition.AddStopLoss | soltrade/datastructures.py:138-142 | adds a stop-loss at `cp·(1 − sl)` to the stop-loss list, kept descending by price; nothing else changes |
| MarketPosition.AddTakeProfit | soltrade/datastructures.py:144-148 | adds a take-profit at `cp·(1 + tp)`, kept ascending by price; nothing else changes |
| MarketPosition.AddTrailingStopLoss | soltrade/datastructures.py:150-154 | adds a trailing stop-loss at `cp·(1 − trail)`, kept ascending by trail; nothing else changes |
| MarketPosition.AddTrailingTakeProfit | soltrade/datastructures.py:156-161 | adds an unarmed trailing take-profit with trigger `cp·(1 + target)`; the list is ordered armed-first and ascending by price, so on a well-formed position the new rule goes last |
| MarketPosition.AddTrueTrailingTakeProfit | soltrade/datastructures.py:163-167 | adds a true trailing take-profit at `cp·(1 + trail)`, kept ascending by trail; nothing else changes |
| MarketPosition.RemoveExitCondition | soltrade/datastructures.py:124-129 | an out-of-range index changes nothing; otherwise exactly the resolved rule leaves that list and the other lists are unchanged |
| MarketPosition.GetExitCondition | soltrade/datastructures.py:131-136 | returns the rule at the Python index, with negative indices counting from the end, and `None` exactly when the index is out of range |
| MarketPosition.GetThenRemove | soltrade/datastructures.py:124-136 | the rule `get` returns is exactly the one `remove` takes out at the same index; a bad index leaves the position as it was |
| MarketPosition.AddEntry | soltrade/datastructures.py:114-122 | the entry is stored under its txid; the average price times the total size equals the total value; the size plus the exited fractions equals the total size; a zero total raises `ZeroDivisionError` |
| MarketPosition.WeightedMeanBounds | soltrade/datastructures.py:119-120 | with positive sizes, the total value lies between the lowest and highest price times the total size |
| MarketPosition.AverageWithinEntryPrices | soltrade/datastructures.py:114-122 | after `add_entry` with positive sizes, the average price lies between the lowest and highest entry price |
| MarketPosition.WeightedAverageBetween | soltrade/datastructures.py:119-121 | the size-weighted mean of positive-size entries lies between their extreme prices |
| MarketPosition.TotalSizePositive | soltrade/datastructures.py:120 | entries of positive size have a positive total, so the division at line 121 is safe |
| Advice.Ratchet | soltrade/datastructures.py:97-99 | re-anchors every trailing stop-loss to `price·(1 − trail)`, position by position |
| Advice.RatchetKeepsOrder | soltrade/datastructures.py:96-99 | re-anchoring keeps the trailing stop-loss list sorted by trail and well shaped |
| Advice.Refresh | soltrade/datastructures.py:26-30 | the old current price becomes the last price; the highest price never decreases and is the larger of old and new; trailing stops are re-anchored exactly when the new price is the high; no other list changes; the invariant is kept |
| Advice.RatchetNeverLowers | soltrade/datastructures.py:95-99 | a refresh never lowers a trailing stop and keeps every stop within its trail of the running high |
| Advice.RatchetStepUp | soltrade/datastructures.py:98-99 | one stop re-anchored at a new high is no lower than before |
| Advice.VisitsAfterAreIndexed | soltrade/datastructures.py:67-79 | every visited rule is the rule at its recorded index in its list |
| Advice.FlatScanSpec | soltrade/datastructures.py:67-86 | the scan advises nothing exactly when no prefix of visits brings the sum to 1; otherwise it returns the triggered rules up to and including the first visit that does |
| Advice.FlatScanNone | soltrade/datastructures.py:67-86 | the scan answers `None` exactly when every prefix sum of visited fractions stays below 1 |
| Advice.FlatScanStops | soltrade/datastructures.py:79-85 | when the sum first reaches 1 at visit `j`, the scan returns the triggered rules among the first `j` visits |
| Advice.StopsAtTail | soltrade/datastructures.py:83-84 | a scan that continues past its first visit stops one visit later on the rest |
| Advice.FiredAreTriggered | soltrade/datastructures.py:80-82 | every advised exit comes from a visited rule that triggered, with that rule's fraction and index |
| Advice.Advise | soltrade/datastructures.py:65-86 | the nested loop over `exit_types` answers exactly as the flat reference scan does: `None` when no prefix reaches 1; otherwise the triggered rules of the shortest prefix that does; every advised exit names a triggered rule of its list |
| Advice.CheckExits | soltrade/datastructures.py:77-86 | one list's loop either stops with the collected exits or continues with the state that the flat scan carries into the next list |
| Advice.ScanFacts | soltrade/datastructures.py:65-93 | the flat reference scan satisfies the advice contract |
| Advice.FirstStop | soltrade/datastructures.py:84 | if some prefix reaches 1 there is a first such prefix |
| Advice.Update | soltrade/datastructures.py:26-31 | `update` is a refresh followed by the scan of the refreshed position, and keeps the invariant |
| Advice.ScanIsFlatScan | soltrade/datastructures.py:65-86 | any answer meeting the advice contract is the flat scan's answer, so the contract determines the result |
| Confirmation.Accept | soltrade/datastructures.py:38 | an exit names a list exactly when its type is one of the `exit_types` names |
| Confirmation.KnownPctByKind | soltrade/datastructures.py:42-43 | the confirmed total is the sum of what each list received |
| Confirmation.PopExit | soltrade/datastructures.py:39-41 | the named list becomes that list with the rule at the resolved Python index removed, and no other list changes; `(type, pct)` is recorded under the txid; `IndexError` exactly when the index is out of range |
| Confirmation.ProcessExits | soltrade/datastructures.py:37-44 | the loop skips unknown types; if it runs to the end, the total and each list's share are the accepted sums, each list has shrunk by its count, and the total is below 1 |
| Confirmation.ProcessExitsFate | soltrade/datastructures.py:37-45 | in terms of the input: the loop runs to the end exactly when no known exit halts it, an exit halting it when its index does not resolve against its list as already popped or when the running total reaches 1; the first halting exit gives `IndexError` if its index does not resolve and an early stop otherwise |
| Confirmation.RecordedExits | soltrade/datastructures.py:40-41 | recording a list of exits keeps the old txids and adds exactly the txids of the known exits; each txid holds the `(type, pct)` of its last known exit; other txids keep their records; the map stays well formed |
| Confirmation.ExhaustedRecords | soltrade/datastructures.py:37-41 | when the loop runs to the end, the recorded exits are exactly the old ones with every known exit recorded in order |
| Confirmation.Pops | soltrade/datastructures.py:37-39 | popping a list's exits one after another, each index taken against the list as the earlier pops left it, removes one rule per exit and takes out exactly the popped rules' fractions |
| Confirmation.MatchedPops | soltrade/datastructures.py:37-43 | when every exit carries the fraction of the rule its `pop` takes out, the popped fractions add up to the share confirmed against that list |
| Confirmation.ExhaustedLists | soltrade/datastructures.py:37-44 | when the loop runs to the end, every list is exactly what its sequential `pop`s leave |
| Confirmation.AbsorbedTotal | soltrade/datastructures.py:51-62 | absorbing a share into a list with a non-zero total raises its total by exactly that share; a zero share leaves it alone |
| Confirmation.ConfirmRestoresTotals | soltrade/datastructures.py:33-62 | for any number of exits, when the loop runs to the end and every exit carries the fraction of the rule it pops, `confirm` returns `1 − Σpct` and each list's fractions sum afterwards to what they summed to before |
| Confirmation.StaleIndexRaises | soltrade/datastructures.py:33-87 | take-profits 110/0.5 and 120/0.5 at price 125 are advised as indices 0 and 1 of the same list; confirming them raises `IndexError`, because the second index is taken against the list after the first pop |
| Confirmation.StaleIndexPopsOther | soltrade/datastructures.py:33-87 | take-profits 110, 120 and 130 (0.3, 0.3, 0.4) at price 125 are advised as indices 0 and 1; confirming them pops 110 and 130, returns 0.4, and leaves the triggered 120 as the only rule, rescaled to 0.9 |
| Confirmation.AdjustExitSizes | soltrade/datastructures.py:46-62 | lists with a zero share are untouched; the others are rescaled to absorb their share; every list stays sorted and well shaped |
| Confirmation.RescaleKeepsOrder | soltrade/datastructures.py:51-62 | rescaling keeps every list sorted and well shaped |
| Confirmation.Confirm | soltrade/datastructures.py:33-62 | in terms of the input: when no known exit halts the loop, the result is `1 − Σpct` (never 0), the size becomes `size·(1 − Σpct)`, every known exit is recorded under its txid, and each list is what its `pop`s leave, one after another (`Pops`), rescaled to absorb that list's confirmed share when the share is non-zero; when the first halting exit resolves, the result is 0 and the size is unchanged; when it does not, `IndexError`; entries and the invariant are kept |
| Confirmation.Settle | soltrade/datastructures.py:46-48 | the size shrinks by the confirmed fraction, touched lists are rescaled and no list changes length |
| Confirmation.UnknownExitsIgnored | soltrade/datastructures.py:38 | exits naming no list leave the loop's state unchanged |
| Confirmation.ConfirmUnknown | soltrade/datastructures.py:33-49 | confirming only unknown exit types returns the position unchanged with 1 still held |
| Confirmation.ConfirmOneRestoresTotal | soltrade/datastructures.py:33-62 | confirming one advised exit removes its rule, records it, and leaves that list's fractions summing to what the whole list summed to before |
| Confirmation.ConfirmOne | soltrade/datastructures.py:33-49 | a single valid exit below 1 gives the popped position settled by that fraction against its own list |
| Confirmation.ProcessOne | soltrade/datastructures.py:37-44 | one valid exit below 1 pops its rule and adds its fraction to the total and to its list's share |
| Confirmation.SettledTotal | soltrade/datastructures.py:56-62 | a rescaled list's total is its old total plus the exited fraction |
| PositionContainer.NewContainer | soltrade/datastructures.py:172-174 | a new container holds no positions |
| PositionContainer.AddPosition | soltrade/datastructures.py:176-186 | any missing field raises `ValueError` (and only then); otherwise the token holds a fresh position and every other holding is unchanged |
| PositionContainer.AddPositionOrder | soltrade/datastructures.py:186 | a token already held keeps its place in the holdings order; a new one goes last |
| Stream.Window | soltrade/datastructures.py:206-209 | with `lag = 0` the window is the newest `length + 1` samples; with `lag > 0` it is the `length` samples before the newest `lag + 1` |
| Stream.WindowIgnoresClamp | soltrade/datastructures.py:207-209 | cutting back `length` at lines 207-208 never changes the slice |
| Stream.Mean | soltrade/datastructures.py:206-210 | the mean exists exactly when the window is non-empty, and then times the window size is the window's sum |
| Stream.MeanWithoutLagReadsOneMore | soltrade/datastructures.py:206-210 | the mean of `1 .. 10` with `length = 3` and no lag is 8.5, over the last four samples |
| Stream.Max | soltrade/datastructures.py:212-216 | on a non-empty window: an element no smaller than any other; on an empty one: `ValueError` |
| Stream.Min | soltrade/datastructures.py:218-222 | on a non-empty window: an element no larger than any other; on an empty one: `ValueError` |
| Stream.MinMeanMax | soltrade/datastructures.py:206-222 | mean, max and min exist together, and the mean lies between min and max |
| Stream.PctChanges | soltrade/datastructures.py:286-291 | one change per step, except steps from a zero sample |
| Stream.Gains | soltrade/datastructures.py:292 | one gain per change: the change itself when positive, else 0 |
| Stream.Losses | soltrade/datastructures.py:305 | one loss per change: its magnitude when negative, else 0 |
| Stream.AverageGain | soltrade/datastructures.py:282-293 | the average gain is never negative |
| Stream.AverageLoss | soltrade/datastructures.py:295-306 | the average loss is never negative |
| Stream.GainsMinusLosses | soltrade/datastructures.py:292-305 | total gains minus total losses is the total change |
| Stream.GainLossBalance | soltrade/datastructures.py:282-306 | average gain minus average loss is the mean percentage change, and both are 0 when there is no change |
| Stream.RisingHasNoLoss | soltrade/datastructures.py:286-305 | a positive non-decreasing window has no negative change |
| Stream.CrossedAbove | soltrade/datastructures.py:240-247 | above the other series or number at `lag` and at or below it one sample earlier; false when `lag + 1` reaches past the oldest sample of either series, and false against anything else |
| Stream.CrossedBelow | soltrade/datastructures.py:249-256 | below the other at `lag` and at or above it one sample earlier; false past the oldest sample and against anything else |
| Stream.IsAbove | soltrade/datastructures.py:270-271 | the sample `lag` back is above the value; false once `lag` reaches past the oldest sample |
| Stream.IsBelow | soltrade/datastructures.py:273-274 | the sample `lag` back is below the value; false once `lag` reaches past the oldest sample |
| Stream.CrossingsExclusive | soltrade/datastructures.py:240-274 | no lag crosses both above and below, nothing is both above and below a value, and none look past the oldest sample |
| Stream.CrossingIsChangeOfSide | soltrade/datastructures.py:244-274 | crossing a level is being on its side now and not one sample earlier |
| Stream.Spread | soltrade/datastructures.py:241-243 | the two series aligned at their newest samples, differenced |
| Stream.CrossingIsSpreadCrossingZero | soltrade/datastructures.py:240-256 | one series crosses another exactly when their spread crosses zero |
| Stream.HasCrossedAbove | soltrade/datastructures.py:258-262 | true exactly when some lag up to `lookback` crosses above; a negative `lookback` gives an empty range and false |
| Stream.HasCrossedBelow | soltrade/datastructures.py:264-268 | true exactly when some lag up to `lookback` crosses below; a negative `lookback` gives an empty range and false |
| Stream.LookbackSaturates | soltrade/datastructures.py:258-262 | looking back beyond the series' length finds no further crossing |
| StreamContainer.Assign | soltrade/datastructures.py:351-352 | every alias maps to the column at its last occurrence |
| StreamContainer.New | soltrade/datastructures.py:338-352 | `ValueError` exactly when the alias count differs from the column count or a label is repeated; otherwise the aliases are the keys and each maps to its last column |
| StreamContainer.LabelsAreAliases | soltrade/datastructures.py:345-352 | without an alias list every column is found under its own label |
| StreamContainer.GetAttr | soltrade/datastructures.py:354-358 | found exactly when the alias exists, else `AttributeError` |
| StreamContainer.GetItem | soltrade/datastructures.py:360-361 | found exactly when the alias exists, else `KeyError` |
| StreamContainer.LookupsAgree | soltrade/datastructures.py:354-361 | both lookups find the same series and differ only in the exception |
| Universe.ContainsIffOccurs | soltrade/universe.py:158 | the substring test holds exactly when the needle occurs at some offset |
| Universe.FillEntry | soltrade/universe.py:150-161 | the fields are copied; the volume share times the market cap is the volume (0 when the cap is 0); eligible exactly when volume, cap and liquidity are non-zero, no field is `'_'` and `Wormhole` does not occur in the name |
| Universe.FirstBin | soltrade/universe.py:178-181 | the first bin from `start` holding the cap, and no earlier one does |
| Universe.BinOf | soltrade/universe.py:177-181 | placed exactly when eligible, within `(min_mc, max_mc]` and held by some bin; then in the first such bin |
| Universe.LastUpperBoundInNoBin | soltrade/universe.py:177-181 | a cap equal to the last upper bound lands in no bin |
| Universe.Members | soltrade/universe.py:177-180 | every member of bin `k` is an input entry placed in bin `k` |
| Universe.PlacedAreMembers | soltrade/universe.py:177-180 | every input entry placed in bin `k` is a member of it, so with `Universe.Members` membership is exactly placement |
| Universe.BinEntries | soltrade/universe.py:165-181 | one list per bin, each holding exactly that bin's members in input order; `IndexError` exactly when there are no bins |
| Universe.TotalCount | soltrade/universe.py:190 | the count is zero exactly when every bin is empty |
| Universe.FilterByAgeAndSecurity | soltrade/universe.py:186-204 | each bin keeps exactly its assets held by the top ten to at most the maximum and created at least the given hours ago, each as many times as it occurs in the bin; `ZeroDivisionError` exactly when the universe is empty |
| Universe.AgeFilterKeepsOrder | soltrade/universe.py:194-198 | survivors keep their original order |
| Universe.QuintileIndices | soltrade/universe.py:207-208 | one cut-off per bin plus one, starting at 0, non-decreasing, the floor of `length·i/5`, and within `length` for `i ≤ 5` |
| Universe.CutFacts | soltrade/universe.py:208 | the cut-off function is the floor, starts at 0, is monotone and is bounded by the length up to the fifth quintile |
| Universe.AscendingIsTotalPreorder | soltrade/universe.py:216 | ordering by a key is a total preorder |
| Universe.FirstMax | soltrade/universe.py:214 | an element with the largest key, and the first one that has it |
| Universe.FirstMaxAt | soltrade/universe.py:214 | the index of the first element with the largest key |
| Universe.FilterByQuintile | soltrade/universe.py:210-219 | nothing from nothing; the first maximum from one to four items; otherwise the sorted tail from the cut-off, sorted and drawn from the input, with every kept key at least every dropped key; `IndexError` exactly for a bad quintile index |
| Universe.TailFacts | soltrade/universe.py:216-219 | a tail of a sorted list is sorted, drawn from it and ranks no lower than what was cut |
| Universe.QuintileCut | soltrade/universe.py:207-219 | on at least five assets, for a quintile `q` with `1 ≤ q ≤ 6` and `q ≤ nbins + 1` (one more than the number of bins), the result is the sorted input without its first `floor(len·(q − 1)/5)` items |
| Universe.FilterBins | soltrade/universe.py:225-229 | every kept asset is liquid and comes from some bin, and there are no more of them than the input holds |
| Universe.QuintileKeeps | soltrade/universe.py:210-219 | the quintile filter's output is drawn from its input and is no longer |
| Universe.FilterByVolumeAndLiquidity | soltrade/universe.py:206-235 | only liquid input assets, no more than the input; `ZeroDivisionError` exactly when the universe is empty |
| Universe.SmallBinsNeverFail | soltrade/universe.py:213-214 | bins of at most four assets never fail, whatever the quintile settings |
| Seqs.Filter | soltrade/universe.py:194-198 | keeps exactly the elements satisfying the test, with their multiplicities |
| Seqs.FilterIsSubseq | soltrade/universe.py:194-198 | the filtered list is a subsequence of the input |

## Left out

- `Stream.slope`, `predict`, `_fit_model`, `is_rising` and `is_falling`
  (datastructures.py:276-333): these rest on a least-squares fit from a
  foreign library.
- `Stream.std_dev` and `covariance` (datastructures.py:224-238): these
  need a square root and library sample statistics.
- `Stream.arrange`, `__iter__` and `__getitem__`, and the type checks of
  `StreamContainer.__init__` and of the crossovers. The model's types
  fix the argument kinds. A value that is neither a series nor a number
  is `Other.Incomparable`.
- `__repr__` methods: display only.
- Logging: side effects only.
- `convert_or_default`, the HTTP fetches and their paging, the database
  reads and writes, and `database_init.py`: the model starts from
  already converted values (`Universe.Coin`). The `utils`, `log` and
  `database` modules are not part of this model.
- The clock: `time.time()` becomes the parameter `now`.
- Floating point: prices, fractions and sizes are `real`. NumPy's `NaN`
  for the mean of an empty window becomes `None` in `Stream.Mean`.
- `lag` and `length` are taken as non-negative (`nat`).
- The default arguments of the `add_*` methods (datastructures.py:138-167),
  such as `sl_pct=0.05` and `pct_exit=1`: the model's operations take
  every argument explicitly.
- `Advice.Refresh`: does not model the trailing-take-profit arming and
  ratchet or the true-trailing-take-profit ratchet (lines 101-111). Those
  lists are left unchanged. Line 105 overwrites list slot 0 with a
  number, line 109 writes to the trailing stop-loss list, and line 111 is
  an incomplete statement that stops the file from parsing, so there is
  no defined behaviour to follow.
- `Confirmation.Confirm`: when `pop` raises `IndexError` partway
  through, Python keeps the pops and records made before the failure.
  The model returns only the failure. On an early stop (line 45) the
  contract states the result and the size, not the rules popped and
  exits recorded before the stop.
- `MarketPosition.AddEntry`: Python stores the entry (line 115) before
  `_recalculate_position` divides by the total size (line 121), so a
  zero total raises `ZeroDivisionError` with the entry already stored.
  The model returns only the failure.
- `MarketPosition.AddEntry`: requires the entry and exit maps to be well
  formed. That is a representation invariant of the `OrderedDict`
  model, not a demand of the source.
- `Stream.AverageGain` and `Stream.AverageLoss`: their own contracts
  state only that the result is non-negative.
  `Stream.GainLossBalance` relates the two to the mean change.
- `Stream.PctChanges`: its contract states the number of changes, not
  each value.
- `Universe.FilterByVolumeAndLiquidity` and `Universe.FilterBins`: their
  contracts state liquidity, provenance and the count bound. They do not
  state the exact bin-by-bin concatenation. `Universe.FilterByQuintile`
  states what each bin contributes.
- Exit types arrive as strings. `Confirmation.Accept` resolves them once
  through `ExitRules.KindNamed`, and the operations take `ExitRules.Kind`.
- Universe bins are 0-based positions. The source keys them `1 .. n`.
- Statements that would raise in Python are modelled as their evident
  intent, each noted at its definition:
  - slots missing for `last_price` and `highest_price` (lines 9, 18-19);
  - `exit_list` and `exit_pct_sum` read before assignment (line 68);
  - tuples assigned in place (lines 62, 99);
  - three-field entries unpacked as pairs (line 119);
  - an unarmed trailing take-profit compared with `None` (line 91),
    which the model treats as not triggered.
