/** The exit rules a market position carries (soltrade/datastructures.py,
    `MarketPosition`): five kinds of rule, each kind kept in its own list
    sorted by its own key. Python stores a rule as a tuple whose last
    field is the fraction of the position it liquidates; here each shape
    is a constructor with named fields. */
module ExitRules {
  import opened Python
  import Sorting

  /** The five rule lists of a position. */
  datatype Kind = TakeProfit | TrailingTakeProfit | TrueTrailingTakeProfit | StopLoss | TrailingStopLoss

  /** `MarketPosition.exit_types`: the order in which the lists are scanned. */
  const ScanOrder: seq<Kind> := [TakeProfit, TrailingTakeProfit, TrueTrailingTakeProfit, StopLoss, TrailingStopLoss]

  /** The attribute name of each list, as it appears in `exit_types`. */
  function Name(k: Kind): string {
    match k
    case TakeProfit => "take_profit"
    case TrailingTakeProfit => "trailing_take_profit"
    case TrueTrailingTakeProfit => "true_trailing_take_profit"
    case StopLoss => "stop_loss"
    case TrailingStopLoss => "trailing_stop_loss"
  }

  /** `name in exit_types`, answering which list the name denotes. */
  function KindNamed(name: string): (r: Option<Kind>)
    ensures r.Some? ==> Name(r.value) == name
    ensures r.None? ==> forall k: Kind :: Name(k) != name
  {
    if name == "take_profit" then Some(TakeProfit)
    else if name == "trailing_take_profit" then Some(TrailingTakeProfit)
    else if name == "true_trailing_take_profit" then Some(TrueTrailingTakeProfit)
    else if name == "stop_loss" then Some(StopLoss)
    else if name == "trailing_stop_loss" then Some(TrailingStopLoss)
    else None
  }

  /** Every list's name denotes that list. */
  lemma NameRoundTrip(k: Kind)
    ensures KindNamed(Name(k)) == Some(k)
  {
    match k
    case TakeProfit =>
    case TrailingTakeProfit =>
    case TrueTrailingTakeProfit =>
    case StopLoss =>
    case TrailingStopLoss =>
  }

  /** One exit rule.
      - `Fixed(price, pct)`: a take-profit or stop-loss tuple `(price, pct)`;
      - `Trailing(price, trail, pct)`: a trailing-stop-loss or
        true-trailing-take-profit tuple `(price, trail, pct)`;
      - `Arming(exitPrice, trail, trigger, pct)`: a trailing-take-profit
        tuple `(price|None, trail, trigger, pct)`, unarmed while its exit
        price is `None`. */
  datatype Rule =
    | Fixed(price: real, pct: real)
    | Trailing(price: real, trail: real, pct: real)
    | Arming(exitPrice: Option<real>, trail: real, trigger: real, pct: real)

  /** The price a fraction `pct` below `price`, as the stop-loss and
      trailing stop-loss levels are computed (datastructures.py:139,151,98). */
  function Below(price: real, pct: real): real {
    price - price * pct
  }

  /** The price a fraction `pct` above `price`, as the take-profit levels
      are computed (datastructures.py:145,157,164). */
  function Above(price: real, pct: real): real {
    price + price * pct
  }

  /** A higher reference price gives a higher level below it. */
  lemma BelowMonotone(x: real, y: real, pct: real)
    requires x <= y && pct <= 1.0
    ensures Below(x, pct) <= Below(y, pct)
  {
    assert Below(y, pct) - Below(x, pct) == (y - x) * (1.0 - pct);
  }

  /** The tuple shape each list holds. */
  predicate Shape(k: Kind, r: Rule) {
    match k
    case TakeProfit | StopLoss => r.Fixed?
    case TrailingStopLoss | TrueTrailingTakeProfit => r.Trailing?
    case TrailingTakeProfit => r.Arming?
  }

  /** The price the rule is compared against (`exit[0]`); `None` for an
      unarmed trailing take-profit. */
  function ExitLevel(r: Rule): Option<real> {
    match r
    case Fixed(p, _) => Some(p)
    case Trailing(p, _, _) => Some(p)
    case Arming(e, _, _, _) => e
  }

  /** `_is_exit_triggered` (datastructures.py:88-93): stop-loss, trailing
      stop-loss and trailing take-profit fire when the price falls to the
      rule's price, take-profit and true trailing take-profit when it
      rises to it. Python would raise `TypeError` comparing a price with
      the `None` of an unarmed trailing take-profit; the model treats
      such a rule as not triggered. */
  predicate Triggered(k: Kind, r: Rule, currentPrice: real): (b: bool)
    ensures ExitLevel(r).None? ==> !b
    ensures ExitLevel(r) == Some(currentPrice) ==> b
  {
    match ExitLevel(r)
    case None => false
    case Some(level) =>
      match k
      case StopLoss | TrailingStopLoss | TrailingTakeProfit => currentPrice <= level
      case TakeProfit | TrueTrailingTakeProfit => currentPrice >= level
  }

  /** A falling price keeps the stop-style rules (stop-loss, trailing
      stop-loss, armed trailing take-profit) triggered and a rising price
      keeps the take-profit-style rules triggered; every rule with a level
      triggers at that level, and an unarmed trailing take-profit never
      triggers. */
  lemma TriggerDirection(k: Kind, r: Rule, x: real, y: real)
    requires x <= y
    ensures (k == StopLoss || k == TrailingStopLoss || k == TrailingTakeProfit) && Triggered(k, r, y) ==>
      Triggered(k, r, x)
    ensures (k == TakeProfit || k == TrueTrailingTakeProfit) && Triggered(k, r, x) ==> Triggered(k, r, y)
    ensures ExitLevel(r).Some? ==> Triggered(k, r, ExitLevel(r).value)
    ensures ExitLevel(r).None? ==> !Triggered(k, r, x)
  {
  }

  function PriceKey(r: Rule): real {
    ExitLevel(r).GetOr(0.0)
  }

  function TrailKey(r: Rule): real {
    if r.Fixed? then 0.0 else r.trail
  }

  /** "`a` sorts no later than `b`" in list `k`, i.e. the `sort` key of
      each `add_*` (datastructures.py:142,148,154,161,167): take-profit by
      price ascending; stop-loss by price descending; trailing stop-loss
      and true trailing take-profit by trail ascending; trailing
      take-profit by `(price is None, price)`, armed rules first and
      ascending by price. */
  predicate Le(k: Kind, a: Rule, b: Rule): (r: bool)
    ensures a == b ==> r
  {
    match k
    case TakeProfit => PriceKey(a) <= PriceKey(b)
    case StopLoss => PriceKey(a) >= PriceKey(b)
    case TrailingStopLoss | TrueTrailingTakeProfit => TrailKey(a) <= TrailKey(b)
    case TrailingTakeProfit =>
      match (ExitLevel(a), ExitLevel(b))
      case (Some(x), Some(y)) => x <= y
      case (_, None) => true
      case (None, Some(_)) => false
  }

  function Order(k: Kind): (Rule, Rule) -> bool {
    (a: Rule, b: Rule) => Le(k, a, b)
  }

  lemma OrderIsTotalPreorder(k: Kind)
    ensures Sorting.TotalPreorder(Order(k))
  {
  }

  predicate Sorted(k: Kind, l: seq<Rule>) {
    Sorting.SortedBy(Order(k), l)
  }

  /** Sum of the liquidation fractions (`sum(item[-1] for item in l)`). */
  function SumPct(l: seq<Rule>): real {
    if |l| == 0 then 0.0 else l[0].pct + SumPct(l[1..])
  }

  lemma {:induction false} SumPctAppend(a: seq<Rule>, b: seq<Rule>)
    ensures SumPct(a + b) == SumPct(a) + SumPct(b)
  {
    if |a| == 0 {
      assert a + b == b;
    } else {
      assert (a + b)[1..] == a[1..] + b;
      SumPctAppend(a[1..], b);
    }
  }

  /** The same rule with a different liquidation fraction. */
  function WithPct(r: Rule, pct: real): (r': Rule)
    ensures r'.pct == pct
    ensures ExitLevel(r') == ExitLevel(r) && TrailKey(r') == TrailKey(r) && r'.Fixed? == r.Fixed?
    ensures forall k :: Shape(k, r') == Shape(k, r)
  {
    r.(pct := pct)
  }

  /** Multiplies every rule's fraction by `factor`; keeps prices, trails
      and the order of the list. */
  function Scale(l: seq<Rule>, factor: real): (r: seq<Rule>)
    ensures |r| == |l|
    ensures forall i :: 0 <= i < |l| ==> r[i] == WithPct(l[i], l[i].pct * factor)
  {
    if |l| == 0 then []
    else [WithPct(l[0], l[0].pct * factor)] + Scale(l[1..], factor)
  }

  /** Scaling every fraction by `factor` scales their sum by `factor`. */
  lemma {:induction false} ScaleSum(l: seq<Rule>, factor: real)
    ensures SumPct(Scale(l, factor)) == factor * SumPct(l)
  {
    if |l| > 0 {
      ScaleSum(l[1..], factor);
    }
  }

  /** Scaling does not disturb the sort order or the tuple shapes. */
  lemma ScaleKeepsOrder(k: Kind, l: seq<Rule>, factor: real)
    ensures Sorted(k, l) ==> Sorted(k, Scale(l, factor))
    ensures (forall r :: r in l ==> Shape(k, r)) ==> forall r :: r in Scale(l, factor) ==> Shape(k, r)
  {
    var s := Scale(l, factor);
    assert forall i, j :: 0 <= i < |l| && 0 <= j < |l| ==> (Le(k, s[i], s[j]) <==> Le(k, l[i], l[j]));
  }

  /** `del l[i]` / `l.pop(i)` for an index already resolved into range. */
  function RemoveAt(l: seq<Rule>, i: nat): (r: seq<Rule>)
    requires i < |l|
    ensures |r| == |l| - 1
    ensures r[..i] == l[..i] && r[i..] == l[i + 1..]
    ensures multiset(r) + multiset{l[i]} == multiset(l)
    ensures SumPct(r) + l[i].pct == SumPct(l)
  {
    assert l == l[..i] + [l[i]] + l[i + 1..];
    SumPctAppend(l[..i] + [l[i]], l[i + 1..]);
    SumPctAppend(l[..i], [l[i]]);
    SumPctAppend(l[..i], l[i + 1..]);
    l[..i] + l[i + 1..]
  }

  /** Removing a rule keeps the list sorted and well shaped. */
  lemma RemoveKeepsOrder(k: Kind, l: seq<Rule>, i: nat)
    requires i < |l|
    ensures Sorted(k, l) ==> Sorted(k, RemoveAt(l, i))
    ensures (forall r :: r in l ==> Shape(k, r)) ==> forall r :: r in RemoveAt(l, i) ==> Shape(k, r)
  {
    var r := RemoveAt(l, i);
    assert forall j :: 0 <= j < |r| ==> r[j] == if j < i then l[j] else l[j + 1];
  }

  /** One impacted list of `_adjust_exit_sizes` (datastructures.py:53-62):
      an empty list or one whose fractions sum to zero is left alone;
      otherwise every fraction is multiplied by
      `(current_sum + pctExited) / current_sum`. Python multiplies the
      tuples in place, which would raise `TypeError`; the model builds
      the replacement list instead. */
  function Rescale(l: seq<Rule>, pctExited: real): (r: seq<Rule>)
    ensures |l| == 0 || SumPct(l) == 0.0 ==> r == l
    ensures |l| > 0 && SumPct(l) != 0.0 ==> SumPct(r) == SumPct(l) + pctExited
    ensures |r| == |l|
    ensures |l| > 0 && SumPct(l) != 0.0 ==> r == Scale(l, (SumPct(l) + pctExited) / SumPct(l))
    ensures forall i :: 0 <= i < |l| ==> ExitLevel(r[i]) == ExitLevel(l[i]) && TrailKey(r[i]) == TrailKey(l[i])
  {
    if |l| == 0 then l
    else
      var current := SumPct(l);
      if current == 0.0 then l
      else
        var factor := (current + pctExited) / current;
        ScaleSum(l, factor);
        Scale(l, factor)
  }
}
