/** `MarketPosition.update` and `_advise` (soltrade/datastructures.py:26-99):
    refresh the prices, ratchet the trailing stop-losses, then scan the
    five rule lists for exits to advise. */
module Advice {
  import opened Python
  import opened ExitRules
  import opened MarketPosition

  /** One trailing stop-loss re-anchored to `price` (lines 98-99). Python
      assigns into the tuple, which would raise `TypeError`; the model
      builds the replacement rule. */
  function RatchetRule(r: Rule, price: real): Rule {
    match r
    case Trailing(_, trail, pct) => Trailing(Below(price, trail), trail, pct)
    case _ => r
  }

  function Ratchet(l: seq<Rule>, price: real): (r: seq<Rule>)
    ensures |r| == |l|
    ensures forall i :: 0 <= i < |l| ==> r[i] == RatchetRule(l[i], price)
  {
    if |l| == 0 then [] else [RatchetRule(l[0], price)] + Ratchet(l[1..], price)
  }

  /** Re-anchoring keeps trails, fractions, shapes and hence the order. */
  lemma RatchetKeepsOrder(l: seq<Rule>, price: real)
    ensures ListValid(TrailingStopLoss, l) ==> ListValid(TrailingStopLoss, Ratchet(l, price))
  {
    var r := Ratchet(l, price);
    assert forall i :: 0 <= i < |l| ==> TrailKey(r[i]) == TrailKey(l[i]) && Shape(TrailingStopLoss, r[i]) == Shape(TrailingStopLoss, l[i]);
    if ListValid(TrailingStopLoss, l) {
      forall x | x in r ensures Shape(TrailingStopLoss, x) {
        var i :| 0 <= i < |r| && r[i] == x;
        assert l[i] in l;
      }
    }
  }

  /** `update` (lines 26-30) followed by `_update_trailing_exits`
      (lines 95-99): the old current price becomes the last price, the
      running high never decreases, and whenever the new price is the
      running high every trailing stop-loss is re-anchored to
      `price·(1 − trail)`. The trailing-take-profit and
      true-trailing-take-profit branches (lines 101-111) are not part of
      this model; those lists are left as they are. */
  function Refresh(p: Position, price: real): (q: Position)
    ensures q.lastPrice == p.currentPrice && q.currentPrice == price
    ensures q.highestPrice >= p.highestPrice && q.highestPrice >= price
    ensures q.highestPrice == p.highestPrice || q.highestPrice == price
    ensures q == p.(lastPrice := q.lastPrice, currentPrice := q.currentPrice,
                    highestPrice := q.highestPrice, book := q.book)
    ensures forall k :: k != TrailingStopLoss ==> q.book.Get(k) == p.book.Get(k)
    ensures |q.book.trailingStopLoss| == |p.book.trailingStopLoss|
    ensures price == q.highestPrice ==>
      forall i :: 0 <= i < |p.book.trailingStopLoss| && p.book.trailingStopLoss[i].Trailing? ==>
        var r := p.book.trailingStopLoss[i];
        q.book.trailingStopLoss[i] == Trailing(Below(price, r.trail), r.trail, r.pct)
    ensures price < q.highestPrice ==> q.book.trailingStopLoss == p.book.trailingStopLoss
    ensures Valid(p) ==> Valid(q)
  {
    var high := if price > p.highestPrice then price else p.highestPrice;
    var tsl := p.book.trailingStopLoss;
    var tsl' := if |tsl| > 0 && price == high then Ratchet(tsl, price) else tsl;
    RatchetKeepsOrder(tsl, price);
    assert BookValid(p.book) ==> ListValid(TrailingStopLoss, p.book.Get(TrailingStopLoss));
    assert BookValid(p.book) ==> ListValid(TrailingStopLoss, tsl');
    SetKeepsValid(p.book, TrailingStopLoss, tsl');
    p.(lastPrice := p.currentPrice, currentPrice := price, highestPrice := high,
       book := p.book.Set(TrailingStopLoss, tsl'))
  }

  /** A trailing stop-loss only ever moves up: if every stop sits at most
      `trail` below the running high (with `0 <= trail <= 1`), a refresh
      never lowers any stop and keeps every stop within `trail` of the
      new running high. */
  lemma RatchetNeverLowers(p: Position, price: real)
    requires forall r :: r in p.book.trailingStopLoss ==>
      r.Trailing? && 0.0 <= r.trail <= 1.0 && r.price <= Below(p.highestPrice, r.trail)
    ensures var l := p.book.trailingStopLoss;
      var l' := Refresh(p, price).book.trailingStopLoss;
      forall i :: 0 <= i < |l| ==> l'[i].price >= l[i].price
    ensures var l' := Refresh(p, price).book.trailingStopLoss;
      var high := Refresh(p, price).highestPrice;
      forall i :: 0 <= i < |l'| ==>
        l'[i].Trailing? && 0.0 <= l'[i].trail <= 1.0 && l'[i].price <= Below(high, l'[i].trail)
  {
    var l := p.book.trailingStopLoss;
    var q := Refresh(p, price);
    if price < p.highestPrice {
      assert q.book.trailingStopLoss == l && q.highestPrice == p.highestPrice;
      forall i | 0 <= i < |l| ensures l[i].price <= Below(q.highestPrice, l[i].trail) {
        assert l[i] in l;
      }
    } else if |l| > 0 {
      assert q.book.trailingStopLoss == Ratchet(l, price) && q.highestPrice == price;
      RatchetListUp(l, p.highestPrice, price);
    }
  }

  lemma RatchetListUp(l: seq<Rule>, high: real, price: real)
    requires forall r :: r in l ==> r.Trailing? && 0.0 <= r.trail <= 1.0 && r.price <= Below(high, r.trail)
    requires price >= high
    ensures forall i :: 0 <= i < |l| ==> Ratchet(l, price)[i].price >= l[i].price
    ensures var l' := Ratchet(l, price);
      forall i :: 0 <= i < |l'| ==>
        l'[i].Trailing? && 0.0 <= l'[i].trail <= 1.0 && l'[i].price <= Below(price, l'[i].trail)
  {
    var l' := Ratchet(l, price);
    forall i | 0 <= i < |l|
      ensures l'[i].price >= l[i].price
      ensures l'[i].Trailing? && 0.0 <= l'[i].trail <= 1.0 && l'[i].price <= Below(price, l'[i].trail)
    {
      assert l[i] in l;
      RatchetStepUp(l[i], high, price);
    }
  }

  lemma RatchetStepUp(r: Rule, high: real, price: real)
    requires r.Trailing? && 0.0 <= r.trail <= 1.0 && r.price <= Below(high, r.trail)
    requires price >= high
    ensures RatchetRule(r, price) == Trailing(Below(price, r.trail), r.trail, r.pct)
    ensures RatchetRule(r, price).price >= r.price
  {
    BelowMonotone(high, price, r.trail);
  }

  /** A rule reached by the scan: its list, the rule and its index there. */
  datatype Visit = Visit(kind: Kind, rule: Rule, idx: nat)

  /** An advised exit `(exit_type, exit_pct, exit_condition_index)`. */
  datatype Signal = Signal(kind: Kind, pct: real, idx: nat)

  function VisitsOf(k: Kind, l: seq<Rule>): (v: seq<Visit>)
    ensures |v| == |l|
    ensures forall i :: 0 <= i < |l| ==> v[i] == Visit(k, l[i], i)
  {
    seq(|l|, i requires 0 <= i < |l| => Visit(k, l[i], i))
  }

  /** The visits of the lists `ScanOrder[t..]`, each list in stored order. */
  function VisitsAfter(b: Book, t: nat): seq<Visit>
    requires t <= |ScanOrder|
    decreases |ScanOrder| - t
  {
    if t == |ScanOrder| then []
    else VisitsOf(ScanOrder[t], b.Get(ScanOrder[t])) + VisitsAfter(b, t + 1)
  }

  /** Every rule of every list, in the order `_advise` visits them. */
  function ScanVisits(b: Book): seq<Visit> {
    VisitsAfter(b, 0)
  }

  /** Every visit names its own rule at its own index. */
  lemma {:induction false} VisitsAfterAreIndexed(b: Book, t: nat)
    requires t <= |ScanOrder|
    ensures forall x :: x in VisitsAfter(b, t) ==> x.idx < |b.Get(x.kind)| && b.Get(x.kind)[x.idx] == x.rule
    decreases |ScanOrder| - t
  {
    if t < |ScanOrder| {
      VisitsAfterAreIndexed(b, t + 1);
    }
  }

  function Fire(x: Visit): Signal {
    Signal(x.kind, x.rule.pct, x.idx)
  }

  /** The advised exits among `v`: the triggered ones, in order. */
  function Fired(v: seq<Visit>, currentPrice: real): seq<Signal> {
    if |v| == 0 then []
    else (if Triggered(v[0].kind, v[0].rule, currentPrice) then [Fire(v[0])] else []) + Fired(v[1..], currentPrice)
  }

  /** Sum of the fractions of the visited rules. */
  function VisitedPct(v: seq<Visit>): real {
    if |v| == 0 then 0.0 else v[0].rule.pct + VisitedPct(v[1..])
  }

  /** The scan over one flat sequence of visits (lines 79-86 run across all
      lists at once): a triggered rule is collected, and, as line 83
      does, EVERY visited rule's fraction is added to the running sum,
      triggered or not. The collected exits are returned as soon as that
      sum reaches 1; `None` if it never does. */
  function FlatScan(v: seq<Visit>, currentPrice: real, fired: seq<Signal>, sum: real): Option<seq<Signal>> {
    if |v| == 0 then None
    else
      var x := v[0];
      var fired' := fired + (if Triggered(x.kind, x.rule, currentPrice) then [Fire(x)] else []);
      var sum' := sum + x.rule.pct;
      if sum' >= 1.0 then Some(fired') else FlatScan(v[1..], currentPrice, fired', sum')
  }

  /** One step of the flat scan: the first visit is collected if it
      fires, its fraction is added, and the scan stops or carries on. */
  lemma FlatScanStep(v: seq<Visit>, currentPrice: real, fired: seq<Signal>, sum: real)
    requires |v| > 0
    ensures var head := if Triggered(v[0].kind, v[0].rule, currentPrice) then [Fire(v[0])] else [];
      FlatScan(v, currentPrice, fired, sum) ==
        if sum + v[0].rule.pct >= 1.0 then Some(fired + head)
        else FlatScan(v[1..], currentPrice, fired + head, sum + v[0].rule.pct)
  {
  }

  /** `j` is the first prefix length at which the running sum, started at
      `sum`, reaches 1. */
  ghost predicate StopsAt(v: seq<Visit>, sum: real, j: int) {
    && 0 < j <= |v|
    && sum + VisitedPct(v[..j]) >= 1.0
    && forall i :: 0 < i < j ==> sum + VisitedPct(v[..i]) < 1.0
  }

  lemma PrefixUnfold(v: seq<Visit>, j: nat, currentPrice: real)
    requires 0 < j <= |v|
    ensures VisitedPct(v[..j]) == v[0].rule.pct + VisitedPct(v[1..][..j - 1])
    ensures Fired(v[..j], currentPrice) ==
      (if Triggered(v[0].kind, v[0].rule, currentPrice) then [Fire(v[0])] else []) + Fired(v[1..][..j - 1], currentPrice)
  {
    assert v[..j][1..] == v[1..][..j - 1];
  }

  /** The flat scan answers `None` exactly when no prefix of visits brings
      the running sum to 1, and otherwise returns the triggered rules
      among the visits up to and including the first one that does. */
  lemma FlatScanSpec(v: seq<Visit>, currentPrice: real, fired: seq<Signal>, sum: real)
    ensures FlatScan(v, currentPrice, fired, sum).None? <==>
      forall j :: 0 < j <= |v| ==> sum + VisitedPct(v[..j]) < 1.0
    ensures forall j :: StopsAt(v, sum, j) ==>
      FlatScan(v, currentPrice, fired, sum) == Some(fired + Fired(v[..j], currentPrice))
  {
    FlatScanNone(v, currentPrice, fired, sum);
    FlatScanStops(v, currentPrice, fired, sum);
  }

  lemma {:induction false} FlatScanNone(v: seq<Visit>, currentPrice: real, fired: seq<Signal>, sum: real)
    ensures FlatScan(v, currentPrice, fired, sum).None? <==>
      forall j :: 0 < j <= |v| ==> sum + VisitedPct(v[..j]) < 1.0
  {
    if |v| > 0 {
      var head := if Triggered(v[0].kind, v[0].rule, currentPrice) then [Fire(v[0])] else [];
      var sum' := sum + v[0].rule.pct;
      FlatScanStep(v, currentPrice, fired, sum);
      forall j | 0 < j <= |v| ensures sum + VisitedPct(v[..j]) == sum' + VisitedPct(v[1..][..j - 1]) {
        PrefixUnfold(v, j, currentPrice);
      }
      assert v[1..][..0] == [];
      assert sum + VisitedPct(v[..1]) == sum';
      if sum' < 1.0 {
        FlatScanNone(v[1..], currentPrice, fired + head, sum');
        assert (forall j :: 0 < j <= |v| ==> sum + VisitedPct(v[..j]) < 1.0) <==>
               (forall j :: 0 < j <= |v[1..]| ==> sum' + VisitedPct(v[1..][..j]) < 1.0) by {
          forall j | 0 < j <= |v[1..]| ensures sum + VisitedPct(v[..j + 1]) == sum' + VisitedPct(v[1..][..j]) {
          }
        }
      }
    }
  }

  lemma {:induction false} FlatScanStops(v: seq<Visit>, currentPrice: real, fired: seq<Signal>, sum: real)
    ensures forall j :: StopsAt(v, sum, j) ==>
      FlatScan(v, currentPrice, fired, sum) == Some(fired + Fired(v[..j], currentPrice))
  {
    if |v| > 0 {
      var head := if Triggered(v[0].kind, v[0].rule, currentPrice) then [Fire(v[0])] else [];
      var sum' := sum + v[0].rule.pct;
      FlatScanStep(v, currentPrice, fired, sum);
      if sum' >= 1.0 {
        forall j | StopsAt(v, sum, j)
          ensures FlatScan(v, currentPrice, fired, sum) == Some(fired + Fired(v[..j], currentPrice))
        {
          PrefixUnfold(v, 1, currentPrice);
          assert v[1..][..0] == [];
          assert j == 1;
          assert Fired(v[..1], currentPrice) == head + [];
          assert FlatScan(v, currentPrice, fired, sum) == Some(fired + head);
          assert fired + Fired(v[..j], currentPrice) == fired + head;
        }
      } else {
        FlatScanStops(v[1..], currentPrice, fired + head, sum');
        forall j | StopsAt(v, sum, j)
          ensures FlatScan(v, currentPrice, fired, sum) == Some(fired + Fired(v[..j], currentPrice))
        {
          StopsAtTail(v, sum, j);
          PrefixUnfold(v, j, currentPrice);
          assert fired + Fired(v[..j], currentPrice) == fired + head + Fired(v[1..][..j - 1], currentPrice);
        }
      }
    }
  }

  /** A scan that carries on past the first visit stops one visit later
      on the rest. */
  lemma StopsAtTail(v: seq<Visit>, sum: real, j: int)
    requires StopsAt(v, sum, j) && sum + v[0].rule.pct < 1.0
    ensures j > 1 && StopsAt(v[1..], sum + v[0].rule.pct, j - 1)
  {
    forall i | 0 < i <= j ensures sum + VisitedPct(v[..i]) == sum + v[0].rule.pct + VisitedPct(v[1..][..i - 1]) {
      PrefixUnfold(v, i, 0.0);
    }
    assert v[1..][..0] == [];
    assert j != 1;
    forall i | 0 < i < j - 1 ensures sum + v[0].rule.pct + VisitedPct(v[1..][..i]) < 1.0 {
      assert sum + VisitedPct(v[..i + 1]) < 1.0;
    }
  }

  /** Every advised exit among `v` is a triggered visit of `v`. */
  lemma {:induction false} FiredAreTriggered(v: seq<Visit>, currentPrice: real)
    ensures forall s :: s in Fired(v, currentPrice) ==>
      exists x :: x in v && Triggered(x.kind, x.rule, currentPrice) && s == Fire(x)
  {
    if |v| > 0 {
      FiredAreTriggered(v[1..], currentPrice);
    }
  }

  /** `_advise` with `_check_exits` (lines 65-86), structured as the source
      is: an outer loop over `ScanOrder`, an inner loop over each list.
      Line 68 reads `exit_list` and `exit_pct_sum` before assigning them
      (`UnboundLocalError`); the model starts them at `[]` and 0 as
      evidently intended. The check at line 69 fires exactly when the
      inner loop returned early at line 85; `if sum >= 1.0` below is its
      counterpart. */
  method Advise(p: Position) returns (r: Option<seq<Signal>>)
    ensures var v := ScanVisits(p.book);
      r.None? <==> forall j :: 0 < j <= |v| ==> VisitedPct(v[..j]) < 1.0
    ensures var v := ScanVisits(p.book);
      r.Some? ==> exists j :: StopsAt(v, 0.0, j) && r.value == Fired(v[..j], p.currentPrice)
    ensures r.Some? ==> forall s :: s in r.value ==>
      && s.idx < |p.book.Get(s.kind)|
      && Triggered(s.kind, p.book.Get(s.kind)[s.idx], p.currentPrice)
      && s.pct == p.book.Get(s.kind)[s.idx].pct
  {
    var cp := p.currentPrice;
    var all := ScanVisits(p.book);
    var fired: seq<Signal> := [];
    var sum := 0.0;
    var t := 0;
    while t < |ScanOrder|
      invariant 0 <= t <= |ScanOrder|
      invariant sum < 1.0
      invariant FlatScan(all, cp, [], 0.0) == FlatScan(VisitsAfter(p.book, t), cp, fired, sum)
    {
      var k := ScanOrder[t];
      fired, sum := CheckExits(k, p.book.Get(k), cp, fired, sum, VisitsAfter(p.book, t + 1));
      if sum >= 1.0 {
        r := Some(fired);
        ScanFacts(p, r);
        return;
      }
      t := t + 1;
    }
    r := None;
    ScanFacts(p, r);
  }

  /** `_check_exits` (lines 76-86): walk one list in stored order,
      collecting each triggered rule and adding every rule's fraction to
      the running sum, and hand back as soon as the sum reaches 1. Seen
      from the flat scan, with `rest` the visits of the lists after this
      one: the scan of this list followed by `rest` stops here with the
      collected exits, or carries on into `rest` from the returned state. */
  method CheckExits(k: Kind, l: seq<Rule>, cp: real, fired: seq<Signal>, sum: real, ghost rest: seq<Visit>)
    returns (fired': seq<Signal>, sum': real)
    ensures sum < 1.0 ==>
      FlatScan(VisitsOf(k, l) + rest, cp, fired, sum) ==
        if sum' >= 1.0 then Some(fired') else FlatScan(rest, cp, fired', sum')
  {
    fired', sum' := fired, sum;
    var i := 0;
    while i < |l|
      invariant 0 <= i <= |l|
      invariant sum < 1.0 ==> sum' < 1.0
      invariant sum < 1.0 ==>
        FlatScan(VisitsOf(k, l) + rest, cp, fired, sum) == FlatScan(VisitsOf(k, l)[i..] + rest, cp, fired', sum')
    {
      ghost var v := VisitsOf(k, l)[i..] + rest;
      assert v[0] == Visit(k, l[i], i) && Fire(v[0]) == Signal(k, l[i].pct, i);
      assert v[1..] == VisitsOf(k, l)[i + 1..] + rest;
      FlatScanStep(v, cp, fired', sum');
      var head := if Triggered(k, l[i], cp) then [Signal(k, l[i].pct, i)] else [];
      fired' := fired' + head;
      sum' := sum' + l[i].pct;
      if sum' >= 1.0 {
        return;
      }
      i := i + 1;
    }
    assert VisitsOf(k, l)[|l|..] + rest == rest;
  }

  /** What `Advise` promises, derived from its agreement with `FlatScan`. */
  lemma ScanFacts(p: Position, r: Option<seq<Signal>>)
    requires r == FlatScan(ScanVisits(p.book), p.currentPrice, [], 0.0)
    ensures var v := ScanVisits(p.book);
      r.None? <==> forall j :: 0 < j <= |v| ==> VisitedPct(v[..j]) < 1.0
    ensures var v := ScanVisits(p.book);
      r.Some? ==> exists j :: StopsAt(v, 0.0, j) && r.value == Fired(v[..j], p.currentPrice)
    ensures r.Some? ==> forall s :: s in r.value ==>
      && s.idx < |p.book.Get(s.kind)|
      && Triggered(s.kind, p.book.Get(s.kind)[s.idx], p.currentPrice)
      && s.pct == p.book.Get(s.kind)[s.idx].pct
  {
    var v := ScanVisits(p.book);
    FlatScanSpec(v, p.currentPrice, [], 0.0);
    if r.Some? {
      var j := FirstStop(v, 0.0);
      assert [] + Fired(v[..j], p.currentPrice) == Fired(v[..j], p.currentPrice);
      FiredAreTriggered(v[..j], p.currentPrice);
      VisitsAfterAreIndexed(p.book, 0);
    }
  }

  /** When some prefix brings the running sum to 1 there is a first one. */
  lemma FirstStop(v: seq<Visit>, sum: real) returns (j: nat)
    requires exists j :: 0 < j <= |v| && sum + VisitedPct(v[..j]) >= 1.0
    ensures StopsAt(v, sum, j)
  {
    j := 1;
    while sum + VisitedPct(v[..j]) < 1.0
      invariant 0 < j <= |v|
      invariant forall i :: 0 < i < j ==> sum + VisitedPct(v[..i]) < 1.0
      decreases |v| - j
    {
      j := j + 1;
    }
  }

  /** `update` (lines 26-31): refresh the prices and ratchet the stops,
      then scan the refreshed position. */
  method Update(p: Position, price: real) returns (q: Position, r: Option<seq<Signal>>)
    ensures q == Refresh(p, price)
    ensures r == FlatScan(ScanVisits(q.book), price, [], 0.0)
    ensures Valid(p) ==> Valid(q)
  {
    q := Refresh(p, price);
    r := Advise(q);
    ScanIsFlatScan(q, r);
  }

  lemma ScanIsFlatScan(p: Position, r: Option<seq<Signal>>)
    requires var v := ScanVisits(p.book);
      r.None? <==> forall j :: 0 < j <= |v| ==> VisitedPct(v[..j]) < 1.0
    requires var v := ScanVisits(p.book);
      r.Some? ==> exists j :: StopsAt(v, 0.0, j) && r.value == Fired(v[..j], p.currentPrice)
    ensures r == FlatScan(ScanVisits(p.book), p.currentPrice, [], 0.0)
  {
    var v := ScanVisits(p.book);
    FlatScanSpec(v, p.currentPrice, [], 0.0);
    if r.Some? {
      var j :| StopsAt(v, 0.0, j) && r.value == Fired(v[..j], p.currentPrice);
      assert [] + Fired(v[..j], p.currentPrice) == Fired(v[..j], p.currentPrice);
    }
  }
}
