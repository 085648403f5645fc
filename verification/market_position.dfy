/** `MarketPosition` (soltrade/datastructures.py:7-167): the record of one
    held token, its entries, its recorded exits and its five exit-rule
    lists, with the operations that add and remove rules and that record
    a further entry. Price refresh and the trigger scan live in module
    `Advice`, confirmation of exits in module `Confirmation`. */
module MarketPosition {
  import opened Python
  import Seqs
  import opened OrderedMap
  import opened ExitRules
  import Sorting

  /** An entry `(entry_price, position_size, unixtime)`. */
  datatype Entry = Entry(price: real, size: real, time: int)

  /** A recorded exit `(exit_type, exit_pct)`. */
  datatype ExitRecord = ExitRecord(kind: Kind, pct: real)

  /** The five rule lists. Selecting a list by kind replaces Python's
      `getattr(self, exit_type)`. */
  datatype Book = Book(
    takeProfit: seq<Rule>,
    trailingTakeProfit: seq<Rule>,
    trueTrailingTakeProfit: seq<Rule>,
    stopLoss: seq<Rule>,
    trailingStopLoss: seq<Rule>)
  {
    function Get(k: Kind): seq<Rule> {
      match k
      case TakeProfit => takeProfit
      case TrailingTakeProfit => trailingTakeProfit
      case TrueTrailingTakeProfit => trueTrailingTakeProfit
      case StopLoss => stopLoss
      case TrailingStopLoss => trailingStopLoss
    }

    function Set(k: Kind, l: seq<Rule>): (b: Book)
      ensures b.Get(k) == l
      ensures forall k' :: k' != k ==> b.Get(k') == Get(k')
    {
      match k
      case TakeProfit => this.(takeProfit := l)
      case TrailingTakeProfit => this.(trailingTakeProfit := l)
      case TrueTrailingTakeProfit => this.(trueTrailingTakeProfit := l)
      case StopLoss => this.(stopLoss := l)
      case TrailingStopLoss => this.(trailingStopLoss := l)
    }
  }

  const EmptyBook := Book([], [], [], [], [])

  /** A well-formed rule list: sorted by its kind's key and holding only
      tuples of its kind's shape. */
  ghost predicate ListValid(k: Kind, l: seq<Rule>) {
    Sorted(k, l) && forall r :: r in l ==> Shape(k, r)
  }

  ghost predicate BookValid(b: Book) {
    forall k :: ListValid(k, b.Get(k))
  }

  /** Replacing one list by a well-formed list keeps the book well formed. */
  lemma SetKeepsValid(b: Book, k: Kind, l: seq<Rule>)
    ensures BookValid(b) && ListValid(k, l) ==> BookValid(b.Set(k, l))
  {
    if BookValid(b) && ListValid(k, l) {
      forall k' ensures ListValid(k', b.Set(k, l).Get(k')) {
        if k' != k {
          assert ListValid(k', b.Get(k'));
        }
      }
    }
  }

  /** The slots of `MarketPosition`. The source's `__slots__` (line 9)
      omits `last_price` and `highest_price`, so the assignments at lines
      18-19 would raise `AttributeError`; the model has both fields, as
      the rest of the class evidently intends. */
  datatype Position = Position(
    token: string,
    avgPrice: real,
    currentPrice: real,
    lastPrice: real,
    highestPrice: real,
    size: real,
    entries: OMap<string, Entry>,
    exits: OMap<string, ExitRecord>,
    book: Book)

  /** What every operation preserves: the ordered maps are well formed,
      every rule list is sorted and well shaped, and the current price
      never exceeds the running highest price. */
  ghost predicate Valid(p: Position) {
    && OrderedMap.Valid(p.entries)
    && OrderedMap.Valid(p.exits)
    && BookValid(p.book)
    && p.currentPrice <= p.highestPrice
  }

  /** `MarketPosition.__init__` (lines 11-24). */
  function NewPosition(txid: string, token: string, entryPrice: real, size: real, time: int): (p: Position)
    ensures Valid(p)
    ensures p.token == token && p.size == size
    ensures p.avgPrice == entryPrice && p.currentPrice == entryPrice
    ensures p.lastPrice == entryPrice && p.highestPrice == entryPrice
    ensures p.entries.keys == [txid] && p.entries.values == map[txid := Entry(entryPrice, size, time)]
    ensures p.exits.keys == [] && p.exits.values == map[]
    ensures forall k :: p.book.Get(k) == []
  {
    Position(token, entryPrice, entryPrice, entryPrice, entryPrice, size,
             OMap([txid], map[txid := Entry(entryPrice, size, time)]), Empty(), EmptyBook)
  }

  /** `r` is `p` with `rule` added to list `k` as `add_*` adds it: only
      list `k` changes; it grows by exactly that rule, ends up sorted, and
      if it was sorted the rule is inserted after every rule it does not
      sort before (Python's sort is stable). */
  ghost predicate Added(p: Position, r: Position, k: Kind, rule: Rule) {
    var before := p.book.Get(k);
    var after := r.book.Get(k);
    && r == p.(book := r.book)
    && (forall k' :: k' != k ==> r.book.Get(k') == p.book.Get(k'))
    && |after| == |before| + 1
    && multiset(after) == multiset(before) + multiset{rule}
    && Sorted(k, after)
    && (Sorted(k, before) ==> after == Sorting.Insert(Order(k), before, rule))
  }

  /** `getattr(self, k).append(rule); getattr(self, k).sort(key=...)`. */
  function AddRule(p: Position, k: Kind, rule: Rule): (r: Position)
    ensures Added(p, r, k, rule)
    ensures Valid(p) && Shape(k, rule) ==> Valid(r)
  {
    var before := p.book.Get(k);
    var after := Sorting.Sort(Order(k), before + [rule]);
    OrderIsTotalPreorder(k);
    Sorting.SortSorted(Order(k), before + [rule]);
    SortAppendedWhenSorted(k, before, rule);
    assert forall x :: x in after ==> x in multiset(before + [rule]);
    assert BookValid(p.book) && Shape(k, rule) ==> ListValid(k, after) by {
      if BookValid(p.book) && Shape(k, rule) {
        assert ListValid(k, before);
      }
    }
    SetKeepsValid(p.book, k, after);
    p.(book := p.book.Set(k, after))
  }

  lemma SortAppendedWhenSorted(k: Kind, l: seq<Rule>, rule: Rule)
    ensures Sorted(k, l) ==> Sorting.Sort(Order(k), l + [rule]) == Sorting.Insert(Order(k), l, rule)
  {
    if Sorted(k, l) {
      Sorting.SortAppended(Order(k), l, rule);
    }
  }

  /** `add_stop_loss` (lines 138-142): a rule `slPct` below the current price, stop-loss
      list kept descending by price. */
  function AddStopLoss(p: Position, slPct: real, pctExit: real): (r: Position)
    ensures Added(p, r, StopLoss, Fixed(Below(p.currentPrice, slPct), pctExit))
    ensures Valid(p) ==> Valid(r)
  {
    AddRule(p, StopLoss, Fixed(Below(p.currentPrice, slPct), pctExit))
  }

  /** `add_take_profit` (lines 144-148): a rule `tpPct` above the current price,
      take-profit list kept ascending by price. */
  function AddTakeProfit(p: Position, pctExit: real, tpPct: real): (r: Position)
    ensures Added(p, r, TakeProfit, Fixed(Above(p.currentPrice, tpPct), pctExit))
    ensures Valid(p) ==> Valid(r)
  {
    AddRule(p, TakeProfit, Fixed(Above(p.currentPrice, tpPct), pctExit))
  }

  /** `add_trailing_stop_loss` (lines 150-154): a rule `pctTrail` below the current price,
      list kept ascending by trail. */
  function AddTrailingStopLoss(p: Position, pctTrail: real, pctExit: real): (r: Position)
    ensures Added(p, r, TrailingStopLoss, Trailing(Below(p.currentPrice, pctTrail), pctTrail, pctExit))
    ensures Valid(p) ==> Valid(r)
  {
    AddRule(p, TrailingStopLoss, Trailing(Below(p.currentPrice, pctTrail), pctTrail, pctExit))
  }

  /** `add_trailing_take_profit` (lines 156-161): an unarmed rule whose
      trigger is `profitTargetPct` above the current price. Unarmed rules sort after every
      other rule, so on a well-formed position the new rule goes last. */
  function AddTrailingTakeProfit(p: Position, profitTargetPct: real, pctTrail: real, pctExit: real): (r: Position)
    ensures Added(p, r, TrailingTakeProfit, Arming(None, pctTrail, Above(p.currentPrice, profitTargetPct), pctExit))
    ensures Valid(p) ==> Valid(r)
    ensures Valid(p) ==>
      (r.book.trailingTakeProfit ==
       p.book.trailingTakeProfit + [Arming(None, pctTrail, Above(p.currentPrice, profitTargetPct), pctExit)])
  {
    var rule := Arming(None, pctTrail, Above(p.currentPrice, profitTargetPct), pctExit);
    var r := AddRule(p, TrailingTakeProfit, rule);
    var before := p.book.trailingTakeProfit;
    assert forall i :: 0 <= i < |before| ==> Le(TrailingTakeProfit, before[i], rule);
    Sorting.InsertAtEnd(Order(TrailingTakeProfit), before, rule);
    r
  }

  /** `add_true_trailing_take_profit` (lines 163-167): a rule
      `pctTrail` above the current price, list kept ascending by trail. */
  function AddTrueTrailingTakeProfit(p: Position, pctTrail: real, pctExit: real): (r: Position)
    ensures Added(p, r, TrueTrailingTakeProfit, Trailing(Above(p.currentPrice, pctTrail), pctTrail, pctExit))
    ensures Valid(p) ==> Valid(r)
  {
    AddRule(p, TrueTrailingTakeProfit, Trailing(Above(p.currentPrice, pctTrail), pctTrail, pctExit))
  }

  /** `remove_exit_condition` (lines 124-129): `del l[idx]` with Python's
      indexing (a negative index counts from the end); an index outside
      `[-n, n)` is logged and nothing changes. */
  function RemoveExitCondition(p: Position, k: Kind, idx: int): (r: Position)
    ensures Index(idx, |p.book.Get(k)|).None? ==> r == p
    ensures Index(idx, |p.book.Get(k)|).Some? ==>
      var l := p.book.Get(k);
      var i := Index(idx, |l|).value;
      && r == p.(book := r.book)
      && (forall k' :: k' != k ==> r.book.Get(k') == p.book.Get(k'))
      && |r.book.Get(k)| == |l| - 1
      && r.book.Get(k)[..i] == l[..i]
      && r.book.Get(k)[i..] == l[i + 1..]
    ensures Valid(p) ==> Valid(r)
  {
    var l := p.book.Get(k);
    match Index(idx, |l|)
    case None => p
    case Some(i) =>
      RemoveKeepsOrder(k, l, i);
      p.(book := p.book.Set(k, RemoveAt(l, i)))
  }

  /** `get_exit_condition` (lines 131-136): `l[idx]` with Python's
      indexing, or `None` (after a logged warning) when out of range. */
  function GetExitCondition(p: Position, k: Kind, idx: int): (r: Option<Rule>)
    ensures r.Some? <==> -|p.book.Get(k)| <= idx < |p.book.Get(k)|
    ensures r.Some? && idx >= 0 ==> r.value == p.book.Get(k)[idx]
    ensures r.Some? && idx < 0 ==> r.value == p.book.Get(k)[|p.book.Get(k)| + idx]
  {
    var l := p.book.Get(k);
    match Index(idx, |l|)
    case None => None
    case Some(i) => Some(l[i])
  }

  /** What `get_exit_condition` returns is exactly what
      `remove_exit_condition` at the same index takes out of the list. */
  lemma GetThenRemove(p: Position, k: Kind, idx: int)
    ensures GetExitCondition(p, k, idx).Some? ==>
      multiset(RemoveExitCondition(p, k, idx).book.Get(k)) + multiset{GetExitCondition(p, k, idx).value}
        == multiset(p.book.Get(k))
    ensures GetExitCondition(p, k, idx).None? ==> RemoveExitCondition(p, k, idx) == p
  {
  }

  function TotalSize(es: seq<Entry>): real {
    if |es| == 0 then 0.0 else es[0].size + TotalSize(es[1..])
  }

  function TotalValue(es: seq<Entry>): real {
    if |es| == 0 then 0.0 else es[0].price * es[0].size + TotalValue(es[1..])
  }

  function TotalExited(xs: seq<ExitRecord>): real {
    if |xs| == 0 then 0.0 else xs[0].pct + TotalExited(xs[1..])
  }

  /** `add_entry` with `_recalculate_position` (lines 114-122). The entry
      is stored under `txid` (replacing an entry with the same id in
      place); the average price becomes the size-weighted mean of all
      entries and the size becomes the entered total minus the sum of the
      recorded exit fractions. Line 119 unpacks the three-field entries
      as pairs, which would raise `ValueError`; the model reads their
      price and size as evidently intended. A zero total size raises
      `ZeroDivisionError`. */
  function AddEntry(p: Position, txid: string, entryPrice: real, size: real, time: int): (r: Result<Position>)
    requires OrderedMap.Valid(p.entries) && OrderedMap.Valid(p.exits)
    ensures var entries := Put(p.entries, txid, Entry(entryPrice, size, time));
      r.Failure? <==> TotalSize(Values(entries)) == 0.0
    ensures r.Failure? ==> r.error == ZeroDivisionError
    ensures r.Success? ==>
      var q := r.value;
      var entries := Put(p.entries, txid, Entry(entryPrice, size, time));
      var es := Values(entries);
      && q == p.(avgPrice := q.avgPrice, size := q.size, entries := entries)
      && q.avgPrice * TotalSize(es) == TotalValue(es)
      && q.size + TotalExited(Values(p.exits)) == TotalSize(es)
    ensures r.Success? && Valid(p) ==> Valid(r.value)
  {
    var entries := Put(p.entries, txid, Entry(entryPrice, size, time));
    var es := Values(entries);
    var totalSize := TotalSize(es);
    if totalSize == 0.0 then Failure(ZeroDivisionError)
    else
      var avg := TotalValue(es) / totalSize;
      Success(p.(avgPrice := avg, size := totalSize - TotalExited(Values(p.exits)), entries := entries))
  }

  /** With positive sizes the size-weighted average entry price lies
      between the lowest and the highest entry price. */
  lemma {:induction false} WeightedMeanBounds(es: seq<Entry>, lo: real, hi: real)
    requires forall i :: 0 <= i < |es| ==> es[i].size > 0.0 && lo <= es[i].price <= hi
    ensures lo * TotalSize(es) <= TotalValue(es) <= hi * TotalSize(es)
  {
    if |es| > 0 {
      var e, rest := es[0], es[1..];
      WeightedMeanBounds(rest, lo, hi);
      BoundsStep(lo, hi, e.price, e.size, TotalSize(rest), TotalValue(rest), TotalSize(es), TotalValue(es));
    }
  }

  /** Adding one entry of positive size with a price in `[lo, hi]` keeps
      the totals' bound. */
  lemma BoundsStep(lo: real, hi: real, price: real, size: real, s: real, v: real, s': real, v': real)
    requires size > 0.0 && lo <= price <= hi
    requires lo * s <= v <= hi * s
    requires s' == size + s && v' == price * size + v
    ensures lo * s' <= v' <= hi * s'
  {
    assert (price - lo) * size >= 0.0;
    assert (hi - price) * size >= 0.0;
  }

  /** After `add_entry`, if every entry has positive size, the average
      price lies between the lowest and highest entry price. */
  lemma AverageWithinEntryPrices(p: Position, txid: string, entryPrice: real, size: real, time: int, lo: real, hi: real)
    requires OrderedMap.Valid(p.entries) && OrderedMap.Valid(p.exits)
    requires var es := Values(Put(p.entries, txid, Entry(entryPrice, size, time)));
      forall i :: 0 <= i < |es| ==> es[i].size > 0.0 && lo <= es[i].price <= hi
    ensures AddEntry(p, txid, entryPrice, size, time).Success?
    ensures lo <= AddEntry(p, txid, entryPrice, size, time).value.avgPrice <= hi
  {
    var m := Put(p.entries, txid, Entry(entryPrice, size, time));
    assert txid in m.keys;
    var es := Values(m);
    WeightedAverageBetween(es, lo, hi);
  }

  /** The size-weighted mean of entries with positive sizes lies between
      their lowest and highest price. */
  lemma WeightedAverageBetween(es: seq<Entry>, lo: real, hi: real)
    requires |es| > 0
    requires forall i :: 0 <= i < |es| ==> es[i].size > 0.0 && lo <= es[i].price <= hi
    ensures TotalSize(es) > 0.0
    ensures lo <= TotalValue(es) / TotalSize(es) <= hi
  {
    TotalSizePositive(es);
    WeightedMeanBounds(es, lo, hi);
    TotalsQuotient(es, lo, hi);
  }

  lemma TotalsQuotient(es: seq<Entry>, lo: real, hi: real)
    requires TotalSize(es) > 0.0
    requires lo * TotalSize(es) <= TotalValue(es) <= hi * TotalSize(es)
    ensures lo <= TotalValue(es) / TotalSize(es) <= hi
  {
    Seqs.QuotientWithin(TotalValue(es), TotalSize(es), lo, hi);
  }

  lemma {:induction false} TotalSizePositive(es: seq<Entry>)
    requires |es| > 0
    requires forall i :: 0 <= i < |es| ==> es[i].size > 0.0
    ensures TotalSize(es) > 0.0
  {
    if |es| > 1 {
      TotalSizePositive(es[1..]);
    }
  }
}
