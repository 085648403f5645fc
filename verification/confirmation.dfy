/** `MarketPosition.confirm` and `_adjust_exit_sizes`
    (soltrade/datastructures.py:33-62): record the exits a caller has
    carried out, take their rules out of the lists, shrink the position
    and let the remaining rules of each touched list absorb the confirmed
    fraction. */
module Confirmation {
  import opened Python
  import OrderedMap
  import opened ExitRules
  import opened MarketPosition
  import Advice

  /** An accepted exit `(exit_type, exit_pct, exit_condition_index)` as
      the caller reports it, with the `exit_type` string already looked
      up among `exit_types` (line 38): `list` is the list it names, `None`
      when it names none. `Accept` builds one from the caller's string. */
  datatype Accepted = Accepted(list: Option<Kind>, pct: real, idx: int)

  function Accept(exitType: string, pct: real, idx: int): (a: Accepted)
    ensures a.list.Some? <==> exists k :: Name(k) == exitType
    ensures a.list.Some? ==> Name(a.list.value) == exitType
  {
    Accepted(KindNamed(exitType), pct, idx)
  }

  /** The fraction confirmed so far against each list (`impacted`); a
      kind that is not a key has seen nothing. */
  function ImpactOf(impacted: map<Kind, real>, k: Kind): real {
    if k in impacted then impacted[k] else 0.0
  }

  /** The state of the loop at lines 36-44 when it stops: either every
      exit has been processed (`Exhausted`) or the running total reached 1
      and `confirm` returned early (`Saturated`). */
  datatype Outcome =
    | Exhausted(p: Position, amt: real, impacted: map<Kind, real>)
    | Saturated(p: Position)

  /** The accepted exits whose name is one of the five lists. */
  function Known(xs: seq<(string, Accepted)>): seq<(string, Accepted)> {
    if |xs| == 0 then []
    else (if xs[0].1.list.Some? then [xs[0]] else []) + Known(xs[1..])
  }

  /** Total fraction of the accepted exits against list `k`. */
  function KindPct(xs: seq<(string, Accepted)>, k: Kind): real {
    if |xs| == 0 then 0.0
    else (if xs[0].1.list == Some(k) then xs[0].1.pct else 0.0) + KindPct(xs[1..], k)
  }

  /** Number of accepted exits against list `k`. */
  function KindCount(xs: seq<(string, Accepted)>, k: Kind): nat {
    if |xs| == 0 then 0
    else (if xs[0].1.list == Some(k) then 1 else 0) + KindCount(xs[1..], k)
  }

  /** Total fraction of the accepted exits against any list. */
  function KnownPct(xs: seq<(string, Accepted)>): real {
    if |xs| == 0 then 0.0
    else (if xs[0].1.list.Some? then xs[0].1.pct else 0.0) + KnownPct(xs[1..])
  }

  /** The fraction confirmed overall is the sum of what each list saw. */
  lemma {:induction false} KnownPctByKind(xs: seq<(string, Accepted)>)
    ensures KnownPct(xs) == KindPct(xs, TakeProfit) + KindPct(xs, TrailingTakeProfit)
      + KindPct(xs, TrueTrailingTakeProfit) + KindPct(xs, StopLoss) + KindPct(xs, TrailingStopLoss)
  {
    if |xs| > 0 {
      KnownPctByKind(xs[1..]);
      match xs[0].1.list
      case None =>
      case Some(TakeProfit) =>
      case Some(TrailingTakeProfit) =>
      case Some(TrueTrailingTakeProfit) =>
      case Some(StopLoss) =>
      case Some(TrailingStopLoss) =>
    }
  }

  /** One accepted exit against list `k`: pop its rule (line 39, with
      Python's indexing) and record `(exit_type, exit_pct)` under its
      transaction id (lines 40-41). */
  function PopExit(p: Position, txid: string, k: Kind, a: Accepted): (r: Result<Position>)
    ensures r.Failure? <==> Index(a.idx, |p.book.Get(k)|).None?
    ensures r.Failure? ==> r.error == IndexError
    ensures r.Success? ==>
      var q := r.value;
      var i := Index(a.idx, |p.book.Get(k)|).value;
      && q == p.(book := q.book, exits := q.exits)
      && q.exits == OrderedMap.Put(p.exits, txid, ExitRecord(k, a.pct))
      && (forall k' :: k' != k ==> q.book.Get(k') == p.book.Get(k'))
      && q.book.Get(k) == RemoveAt(p.book.Get(k), i)
      && |q.book.Get(k)| == |p.book.Get(k)| - 1
      && SumPct(q.book.Get(k)) + p.book.Get(k)[i].pct == SumPct(p.book.Get(k))
    ensures r.Success? && Valid(p) ==> Valid(r.value)
  {
    var l := p.book.Get(k);
    match Index(a.idx, |l|)
    case None => Failure(IndexError)
    case Some(i) =>
      RemoveKeepsOrder(k, l, i);
      Success(p.(book := p.book.Set(k, RemoveAt(l, i)), exits := OrderedMap.Put(p.exits, txid, ExitRecord(k, a.pct))))
  }

  /** List `k` after the `pop`s (line 39) of the exits naming it, one
      after another, each index resolved against the list as the earlier
      `pop`s left it; `None` when one of them does not resolve. */
  function Pops(l: seq<Rule>, k: Kind, xs: seq<(string, Accepted)>): (r: Option<seq<Rule>>)
    ensures r.Some? ==> |r.value| + KindCount(xs, k) == |l|
    ensures r.Some? ==> SumPct(r.value) + PoppedPct(l, k, xs) == SumPct(l)
    decreases |xs|
  {
    if |xs| == 0 then Some(l)
    else if xs[0].1.list != Some(k) then Pops(l, k, xs[1..])
    else
      match Index(xs[0].1.idx, |l|)
      case None => None
      case Some(i) => Pops(RemoveAt(l, i), k, xs[1..])
  }

  /** The total fraction of the rules those `pop`s take out of list `k`
      (as far as their indices resolve). */
  function PoppedPct(l: seq<Rule>, k: Kind, xs: seq<(string, Accepted)>): real
    decreases |xs|
  {
    if |xs| == 0 then 0.0
    else if xs[0].1.list != Some(k) then PoppedPct(l, k, xs[1..])
    else
      match Index(xs[0].1.idx, |l|)
      case None => 0.0
      case Some(i) => l[i].pct + PoppedPct(RemoveAt(l, i), k, xs[1..])
  }

  /** Every exit naming list `k` carries the fraction of the rule its
      `pop` actually takes out. */
  predicate PctsMatch(l: seq<Rule>, k: Kind, xs: seq<(string, Accepted)>)
    decreases |xs|
  {
    if |xs| == 0 then true
    else if xs[0].1.list != Some(k) then PctsMatch(l, k, xs[1..])
    else
      match Index(xs[0].1.idx, |l|)
      case None => true
      case Some(i) => xs[0].1.pct == l[i].pct && PctsMatch(RemoveAt(l, i), k, xs[1..])
  }

  /** When every exit carries the fraction of the rule it pops, the popped
      rules' total is the total confirmed against the list. */
  lemma {:induction false} MatchedPops(l: seq<Rule>, k: Kind, xs: seq<(string, Accepted)>)
    requires PctsMatch(l, k, xs) && Pops(l, k, xs).Some?
    ensures PoppedPct(l, k, xs) == KindPct(xs, k)
    decreases |xs|
  {
    if |xs| > 0 {
      if xs[0].1.list != Some(k) {
        MatchedPops(l, k, xs[1..]);
      } else {
        var i := Index(xs[0].1.idx, |l|).value;
        MatchedPops(RemoveAt(l, i), k, xs[1..]);
      }
    }
  }

  /** An exit naming no list pops nothing. */
  lemma PopsSkip(b: Book, xs: seq<(string, Accepted)>)
    requires |xs| > 0 && xs[0].1.list.None?
    ensures forall k :: Pops(b.Get(k), k, xs) == Pops(b.Get(k), k, xs[1..])
  {
  }

  /** Once the first exit has popped its rule, every list's remaining
      `pop`s are those of the rest of the exits. */
  lemma PopsFirst(p: Position, xs: seq<(string, Accepted)>, p': Position)
    requires |xs| > 0 && xs[0].1.list.Some?
    requires PopExit(p, xs[0].0, xs[0].1.list.value, xs[0].1) == Success(p')
    ensures forall k :: Pops(p.book.Get(k), k, xs) == Pops(p'.book.Get(k), k, xs[1..])
  {
  }

  /** The loop of `confirm` (lines 37-44) from a running total `amt` and
      per-list totals `impacted`. Exits naming no list are skipped; an
      index out of range raises `IndexError`. */
  function ProcessExits(p: Position, xs: seq<(string, Accepted)>, amt: real, impacted: map<Kind, real>): (r: Result<Outcome>)
    ensures r.Failure? ==> r.error == IndexError
    ensures r.Success? && Valid(p) ==> Valid(r.value.p)
    ensures r.Success? ==> r.value.p == p.(book := r.value.p.book, exits := r.value.p.exits)
    ensures r.Success? && r.value.Exhausted? ==>
      var o := r.value;
      && o.amt == amt + KnownPct(xs)
      && (forall k :: ImpactOf(o.impacted, k) == ImpactOf(impacted, k) + KindPct(xs, k))
      && (forall k :: |o.p.book.Get(k)| + KindCount(xs, k) == |p.book.Get(k)|)
      && (amt < 1.0 || |Known(xs)| > 0 ==> o.amt < 1.0)
    decreases |xs|
  {
    if |xs| == 0 then Success(Exhausted(p, amt, impacted))
    else
      var txid := xs[0].0;
      var a := xs[0].1;
      match a.list
      case None => ProcessExits(p, xs[1..], amt, impacted)
      case Some(k) =>
        match PopExit(p, txid, k, a)
        case Failure(e) => Failure(e)
        case Success(p') =>
          var amt' := amt + a.pct;
          var impacted' := impacted[k := ImpactOf(impacted, k) + a.pct];
          if amt' >= 1.0 then Success(Saturated(p'))
          else ProcessExits(p', xs[1..], amt', impacted')
  }

  /** `self.exits` once the loop has recorded every named exit in turn
      (lines 40-41): a later exit with the same transaction id overwrites
      the earlier record in place. */
  function Record(m: OrderedMap.OMap<string, ExitRecord>, xs: seq<(string, Accepted)>): OrderedMap.OMap<string, ExitRecord>
    decreases |xs|
  {
    if |xs| == 0 then m
    else
      Record(RecordStep(m, xs[0]), xs[1..])
  }

  /** Exit `i` names a list and no later exit naming a list has its
      transaction id: its record is the one that stays. */
  predicate LastFor(xs: seq<(string, Accepted)>, i: int) {
    && 0 <= i < |xs| && xs[i].1.list.Some?
    && forall i' :: i < i' < |xs| && xs[i'].1.list.Some? ==> xs[i'].0 != xs[i].0
  }

  /** What `Record` leaves in `self.exits`: the old ids and the ids of the
      named exits; for each id its last named exit's list and fraction;
      and every other id's record untouched. */
  lemma RecordedExits(m: OrderedMap.OMap<string, ExitRecord>, xs: seq<(string, Accepted)>)
    ensures forall t :: t in Record(m, xs).values <==>
      t in m.values || exists i :: 0 <= i < |xs| && xs[i].1.list.Some? && xs[i].0 == t
    ensures forall i :: LastFor(xs, i) ==>
      xs[i].0 in Record(m, xs).values && Record(m, xs).values[xs[i].0] == ExitRecord(xs[i].1.list.value, xs[i].1.pct)
    ensures forall t :: t in m.values && (forall i :: 0 <= i < |xs| && xs[i].1.list.Some? ==> xs[i].0 != t) ==>
      t in Record(m, xs).values && Record(m, xs).values[t] == m.values[t]
    ensures OrderedMap.Valid(m) ==> OrderedMap.Valid(Record(m, xs))
  {
    RecordKeys(m, xs);
    RecordLast(m, xs);
    RecordKeeps(m, xs);
    RecordValid(m, xs);
  }

  /** `Record` after its first step. */
  function RecordStep(m: OrderedMap.OMap<string, ExitRecord>, x: (string, Accepted)): OrderedMap.OMap<string, ExitRecord> {
    if x.1.list.Some? then OrderedMap.Put(m, x.0, ExitRecord(x.1.list.value, x.1.pct)) else m
  }

  lemma {:induction false} RecordKeys(m: OrderedMap.OMap<string, ExitRecord>, xs: seq<(string, Accepted)>)
    ensures forall t :: t in Record(m, xs).values <==>
      t in m.values || exists i :: 0 <= i < |xs| && xs[i].1.list.Some? && xs[i].0 == t
    decreases |xs|
  {
    if |xs| > 0 {
      var m' := RecordStep(m, xs[0]);
      RecordKeys(m', xs[1..]);
      forall t ensures t in Record(m, xs).values <==>
        t in m.values || exists i :: 0 <= i < |xs| && xs[i].1.list.Some? && xs[i].0 == t
      {
        if exists i :: 0 <= i < |xs| && xs[i].1.list.Some? && xs[i].0 == t {
          var i :| 0 <= i < |xs| && xs[i].1.list.Some? && xs[i].0 == t;
          if i > 0 { assert xs[1..][i - 1] == xs[i]; }
        }
        if exists i :: 0 <= i < |xs| - 1 && xs[1..][i].1.list.Some? && xs[1..][i].0 == t {
          var i :| 0 <= i < |xs| - 1 && xs[1..][i].1.list.Some? && xs[1..][i].0 == t;
          assert xs[i + 1] == xs[1..][i];
        }
      }
    }
  }

  lemma {:induction false} RecordLast(m: OrderedMap.OMap<string, ExitRecord>, xs: seq<(string, Accepted)>)
    ensures forall i :: LastFor(xs, i) ==>
      xs[i].0 in Record(m, xs).values && Record(m, xs).values[xs[i].0] == ExitRecord(xs[i].1.list.value, xs[i].1.pct)
    decreases |xs|
  {
    if |xs| > 0 {
      var m' := RecordStep(m, xs[0]);
      RecordLast(m', xs[1..]);
      RecordKeeps(m', xs[1..]);
      forall i | LastFor(xs, i)
        ensures xs[i].0 in Record(m, xs).values && Record(m, xs).values[xs[i].0] == ExitRecord(xs[i].1.list.value, xs[i].1.pct)
      {
        if i > 0 {
          assert LastFor(xs[1..], i - 1);
        } else {
          assert forall i' :: 0 <= i' < |xs| - 1 && xs[1..][i'].1.list.Some? ==> xs[1..][i'].0 != xs[0].0;
        }
      }
    }
  }

  lemma {:induction false} RecordKeeps(m: OrderedMap.OMap<string, ExitRecord>, xs: seq<(string, Accepted)>)
    ensures forall t :: t in m.values && (forall i :: 0 <= i < |xs| && xs[i].1.list.Some? ==> xs[i].0 != t) ==>
      t in Record(m, xs).values && Record(m, xs).values[t] == m.values[t]
    decreases |xs|
  {
    if |xs| > 0 {
      RecordKeeps(RecordStep(m, xs[0]), xs[1..]);
      forall t | t in m.values && (forall i :: 0 <= i < |xs| && xs[i].1.list.Some? ==> xs[i].0 != t)
        ensures t in Record(m, xs).values && Record(m, xs).values[t] == m.values[t]
      {
        assert forall i :: 0 <= i < |xs| - 1 && xs[1..][i].1.list.Some? ==> xs[1..][i].0 != t;
      }
    }
  }

  lemma {:induction false} RecordValid(m: OrderedMap.OMap<string, ExitRecord>, xs: seq<(string, Accepted)>)
    ensures OrderedMap.Valid(m) ==> OrderedMap.Valid(Record(m, xs))
    decreases |xs|
  {
    if |xs| > 0 {
      RecordValid(RecordStep(m, xs[0]), xs[1..]);
    }
  }

  /** A loop that runs to the end has recorded every named exit. */
  lemma {:induction false} ExhaustedRecords(p: Position, xs: seq<(string, Accepted)>, amt: real, impacted: map<Kind, real>)
    ensures var r := ProcessExits(p, xs, amt, impacted);
      r.Success? && r.value.Exhausted? ==> r.value.p.exits == Record(p.exits, xs)
    decreases |xs|, 1
  {
    if |xs| > 0 {
      if xs[0].1.list.None? {
        ExhaustedRecords(p, xs[1..], amt, impacted);
      } else {
        ExhaustedRecordsPop(p, xs, amt, impacted);
      }
    }
  }

  lemma {:induction false} ExhaustedRecordsPop(p: Position, xs: seq<(string, Accepted)>, amt: real, impacted: map<Kind, real>)
    requires |xs| > 0 && xs[0].1.list.Some?
    ensures var r := ProcessExits(p, xs, amt, impacted);
      r.Success? && r.value.Exhausted? ==> r.value.p.exits == Record(p.exits, xs)
    decreases |xs|, 0
  {
    var k, pct := xs[0].1.list.value, xs[0].1.pct;
    var q := PopExit(p, xs[0].0, k, xs[0].1);
    if q.Success? && amt + pct < 1.0 {
      var impacted' := impacted[k := ImpactOf(impacted, k) + pct];
      RecordsStep(p, xs, amt, impacted, q.value, impacted');
      ExhaustedRecords(q.value, xs[1..], amt + pct, impacted');
    } else {
      ExitsStep(p, xs, amt, impacted);
    }
  }

  /** A loop that runs to the end leaves every list as the `pop`s of its
      exits, one after another, leave it. */
  lemma {:induction false} ExhaustedLists(p: Position, xs: seq<(string, Accepted)>, amt: real, impacted: map<Kind, real>)
    ensures var r := ProcessExits(p, xs, amt, impacted);
      r.Success? && r.value.Exhausted? ==> forall k :: Pops(p.book.Get(k), k, xs) == Some(r.value.p.book.Get(k))
    decreases |xs|, 1
  {
    if |xs| > 0 {
      if xs[0].1.list.None? {
        PopsSkip(p.book, xs);
        ExhaustedLists(p, xs[1..], amt, impacted);
      } else {
        ExhaustedListsPop(p, xs, amt, impacted);
      }
    }
  }

  lemma {:induction false} ExhaustedListsPop(p: Position, xs: seq<(string, Accepted)>, amt: real, impacted: map<Kind, real>)
    requires |xs| > 0 && xs[0].1.list.Some?
    ensures var r := ProcessExits(p, xs, amt, impacted);
      r.Success? && r.value.Exhausted? ==> forall k :: Pops(p.book.Get(k), k, xs) == Some(r.value.p.book.Get(k))
    decreases |xs|, 0
  {
    var k, pct := xs[0].1.list.value, xs[0].1.pct;
    var q := PopExit(p, xs[0].0, k, xs[0].1);
    if q.Success? && amt + pct < 1.0 {
      var impacted' := impacted[k := ImpactOf(impacted, k) + pct];
      RecordsStep(p, xs, amt, impacted, q.value, impacted');
      PopsFirst(p, xs, q.value);
      ExhaustedLists(q.value, xs[1..], amt + pct, impacted');
    } else {
      ExitsStep(p, xs, amt, impacted);
    }
  }

  /** A step of the loop that pops the first exit and carries on records
      that exit and hands the rest of the records on. */
  lemma RecordsStep(p: Position, xs: seq<(string, Accepted)>, amt: real, impacted: map<Kind, real>, p': Position, impacted': map<Kind, real>)
    requires |xs| > 0 && xs[0].1.list.Some? && amt + xs[0].1.pct < 1.0
    requires PopExit(p, xs[0].0, xs[0].1.list.value, xs[0].1) == Success(p')
    requires impacted' == impacted[xs[0].1.list.value := ImpactOf(impacted, xs[0].1.list.value) + xs[0].1.pct]
    ensures ProcessExits(p, xs, amt, impacted) == ProcessExits(p', xs[1..], amt + xs[0].1.pct, impacted')
    ensures Record(p.exits, xs) == Record(p'.exits, xs[1..])
  {
  }

  /** How many of the exits before exit `j` named list `k`. */
  function PoppedBefore(xs: seq<(string, Accepted)>, j: int, k: Kind): nat
    requires 0 <= j <= |xs|
  {
    KindCount(xs[..j], k)
  }

  /** The total of the named exits up to and including exit `j`. */
  function TotalThrough(xs: seq<(string, Accepted)>, j: int): real
    requires 0 <= j < |xs|
  {
    KnownPct(xs[..j + 1])
  }

  /** Exit `j` names a list and its index resolves against that list as
      the exits before it have left it, so its `pop` (line 39) succeeds. */
  predicate Resolves(p: Position, xs: seq<(string, Accepted)>, j: int) {
    && 0 <= j < |xs| && xs[j].1.list.Some?
    && (var k := xs[j].1.list.value;
        var n := |p.book.Get(k)| - PoppedBefore(xs, j, k);
        n >= 0 && Index(xs[j].1.idx, n).Some?)
  }

  /** The loop of `confirm`, started from total `amt`, leaves at exit `j`
      if it gets that far: `j` names a list and either its `pop` raises or
      the total of the named exits up to it reaches 1 (line 44). */
  predicate Halts(p: Position, xs: seq<(string, Accepted)>, amt: real, j: int) {
    && 0 <= j < |xs| && xs[j].1.list.Some?
    && (!Resolves(p, xs, j) || amt + TotalThrough(xs, j) >= 1.0)
  }

  /** `j` is the first exit at which the loop leaves. */
  predicate FirstHalt(p: Position, xs: seq<(string, Accepted)>, amt: real, j: int) {
    Halts(p, xs, amt, j) && forall i :: 0 <= i < j ==> !Halts(p, xs, amt, i)
  }

  /** How the loop of `confirm` ends: it runs out of exits, it returns
      early once the named exits sum to 1 (line 44), or a `pop` raises. */
  datatype Fate = Runs | Saturates | Raises

  function FateOf(r: Result<Outcome>): Fate {
    match r
    case Success(Exhausted(_, _, _)) => Runs
    case Success(Saturated(_)) => Saturates
    case Failure(_) => Raises
  }

  /** The fate the input decides, looking at the exits from `j` on: the
      first exit that halts the loop settles it; if none does, the loop
      runs to the end. */
  function FateFrom(p: Position, xs: seq<(string, Accepted)>, amt: real, j: int): Fate
    requires 0 <= j <= |xs|
    decreases |xs| - j
  {
    if j == |xs| then Runs
    else if Halts(p, xs, amt, j) then (if Resolves(p, xs, j) then Saturates else Raises)
    else FateFrom(p, xs, amt, j + 1)
  }

  /** The loop of `confirm` meets the fate its input decides: it returns
      `Exhausted` exactly when no exit halts it, and at the first exit
      that does it returns `Saturated` if that exit's index resolves and
      fails with `IndexError` if it does not. */
  lemma ProcessExitsFate(p: Position, xs: seq<(string, Accepted)>, amt: real, impacted: map<Kind, real>)
    ensures var r := ProcessExits(p, xs, amt, impacted);
      (forall j :: 0 <= j < |xs| ==> !Halts(p, xs, amt, j)) <==> r.Success? && r.value.Exhausted?
    ensures var r := ProcessExits(p, xs, amt, impacted);
      forall j :: FirstHalt(p, xs, amt, j) && Resolves(p, xs, j) ==> r.Success? && r.value.Saturated?
    ensures var r := ProcessExits(p, xs, amt, impacted);
      forall j :: FirstHalt(p, xs, amt, j) && !Resolves(p, xs, j) ==> r == Failure(IndexError)
  {
    MeetsFate(p, xs, amt, impacted);
    FateFromHalts(p, xs, amt, 0);
  }

  /** What `FateFrom` decides, for a start `j` that no earlier exit halts. */
  lemma {:induction false} FateFromHalts(p: Position, xs: seq<(string, Accepted)>, amt: real, j: int)
    requires 0 <= j <= |xs|
    requires forall i :: 0 <= i < j ==> !Halts(p, xs, amt, i)
    ensures FateFrom(p, xs, amt, j) == Runs <==> forall i :: j <= i < |xs| ==> !Halts(p, xs, amt, i)
    ensures forall i :: FirstHalt(p, xs, amt, i) ==>
      FateFrom(p, xs, amt, j) == if Resolves(p, xs, i) then Saturates else Raises
    decreases |xs| - j
  {
    if j < |xs| {
      if Halts(p, xs, amt, j) {
        assert FirstHalt(p, xs, amt, j);
        forall i | FirstHalt(p, xs, amt, i) ensures i == j {
          assert Halts(p, xs, amt, i);
        }
      } else {
        FateFromHalts(p, xs, amt, j + 1);
      }
    }
  }

  /** The loop of `confirm` meets `FateFrom` from its first exit. */
  lemma {:induction false} MeetsFate(p: Position, xs: seq<(string, Accepted)>, amt: real, impacted: map<Kind, real>)
    ensures FateOf(ProcessExits(p, xs, amt, impacted)) == FateFrom(p, xs, amt, 0)
    decreases |xs|, 2
  {
    if |xs| > 0 {
      FirstStep(p, xs, amt);
      if xs[0].1.list.None? {
        ExitsStep(p, xs, amt, impacted);
        MeetsFate(p, xs[1..], amt, impacted);
        FateFromShift(p, xs, amt, p, amt, 0);
      } else {
        MeetsFatePop(p, xs, amt, impacted);
      }
    }
  }

  lemma {:induction false} MeetsFatePop(p: Position, xs: seq<(string, Accepted)>, amt: real, impacted: map<Kind, real>)
    requires |xs| > 0 && xs[0].1.list.Some?
    ensures FateOf(ProcessExits(p, xs, amt, impacted)) == FateFrom(p, xs, amt, 0)
    decreases |xs|, 1
  {
    var k, pct := xs[0].1.list.value, xs[0].1.pct;
    var q := PopExit(p, xs[0].0, k, xs[0].1);
    if q.Success? && amt + pct < 1.0 {
      var impacted' := impacted[k := ImpactOf(impacted, k) + pct];
      StepFate(p, xs, amt, impacted, q.value, impacted');
      MeetsFateStep(p, xs, amt, impacted, q.value, amt + pct, impacted');
    } else {
      FirstStep(p, xs, amt);
      ExitsStep(p, xs, amt, impacted);
    }
  }

  lemma {:induction false} MeetsFateStep(p: Position, xs: seq<(string, Accepted)>, amt: real, impacted: map<Kind, real>,
                                         p': Position, amt': real, impacted': map<Kind, real>)
    requires |xs| > 0
    requires FateOf(ProcessExits(p, xs, amt, impacted)) == FateOf(ProcessExits(p', xs[1..], amt', impacted'))
    requires FateFrom(p, xs, amt, 0) == FateFrom(p', xs[1..], amt', 0)
    ensures FateOf(ProcessExits(p, xs, amt, impacted)) == FateFrom(p, xs, amt, 0)
    decreases |xs|, 0
  {
    MeetsFate(p', xs[1..], amt', impacted');
  }

  /** A step of the loop that pops the first exit and carries on hands
      both the loop's fate and the decided fate on to the rest. */
  lemma StepFate(p: Position, xs: seq<(string, Accepted)>, amt: real, impacted: map<Kind, real>, p': Position, impacted': map<Kind, real>)
    requires |xs| > 0 && xs[0].1.list.Some? && amt + xs[0].1.pct < 1.0
    requires PopExit(p, xs[0].0, xs[0].1.list.value, xs[0].1) == Success(p')
    requires impacted' == impacted[xs[0].1.list.value := ImpactOf(impacted, xs[0].1.list.value) + xs[0].1.pct]
    ensures FateOf(ProcessExits(p, xs, amt, impacted)) == FateOf(ProcessExits(p', xs[1..], amt + xs[0].1.pct, impacted'))
    ensures FateFrom(p, xs, amt, 0) == FateFrom(p', xs[1..], amt + xs[0].1.pct, 0)
  {
    PassesFirst(p, xs, amt, p');
    PoppedStep(p, xs, amt, impacted, p', amt + xs[0].1.pct, impacted');
    FateFromShift(p, xs, amt, p', amt + xs[0].1.pct, 0);
  }

  /** The fate from exit `j + 1` of the loop is the fate from exit `j` of
      the loop one step on. */
  lemma {:induction false} FateFromShift(p: Position, xs: seq<(string, Accepted)>, amt: real, p': Position, amt': real, j: nat)
    requires j < |xs| && Stepped(p, xs, amt, p', amt')
    ensures FateFrom(p, xs, amt, j + 1) == FateFrom(p', xs[1..], amt', j)
    decreases |xs| - j
  {
    if j + 1 < |xs| {
      HaltsShift(p, xs, amt, p', amt', j);
      FateFromShift(p, xs, amt, p', amt', j + 1);
    }
  }

  /** One step of the loop, as far as its fate goes. */
  lemma ExitsStep(p: Position, xs: seq<(string, Accepted)>, amt: real, impacted: map<Kind, real>)
    requires |xs| > 0
    ensures xs[0].1.list.None? ==>
      FateOf(ProcessExits(p, xs, amt, impacted)) == FateOf(ProcessExits(p, xs[1..], amt, impacted))
    ensures xs[0].1.list.Some? ==>
      var q := PopExit(p, xs[0].0, xs[0].1.list.value, xs[0].1);
      && (q.Failure? ==> FateOf(ProcessExits(p, xs, amt, impacted)) == Raises)
      && (q.Success? && amt + xs[0].1.pct >= 1.0 ==> FateOf(ProcessExits(p, xs, amt, impacted)) == Saturates)
  {
  }

  /** A step of the loop that pops the first exit and carries on. */
  lemma PoppedStep(p: Position, xs: seq<(string, Accepted)>, amt: real, impacted: map<Kind, real>, p': Position, amt': real, impacted': map<Kind, real>)
    requires |xs| > 0 && xs[0].1.list.Some? && amt' == amt + xs[0].1.pct && amt' < 1.0
    requires PopExit(p, xs[0].0, xs[0].1.list.value, xs[0].1) == Success(p')
    requires impacted' == impacted[xs[0].1.list.value := ImpactOf(impacted, xs[0].1.list.value) + xs[0].1.pct]
    ensures FateOf(ProcessExits(p, xs, amt, impacted)) == FateOf(ProcessExits(p', xs[1..], amt', impacted'))
    ensures Stepped(p, xs, amt, p', amt')
  {
  }

  /** A first exit that pops and leaves the total below 1 passes the fate
      on to the next exit. */
  lemma PassesFirst(p: Position, xs: seq<(string, Accepted)>, amt: real, p': Position)
    requires |xs| > 0 && xs[0].1.list.Some? && amt + xs[0].1.pct < 1.0
    requires PopExit(p, xs[0].0, xs[0].1.list.value, xs[0].1) == Success(p')
    ensures FateFrom(p, xs, amt, 0) == FateFrom(p, xs, amt, 1)
  {
    FirstStep(p, xs, amt);
  }

  /** Whether the first exit halts the loop, read off its own step. */
  lemma FirstStep(p: Position, xs: seq<(string, Accepted)>, amt: real)
    requires |xs| > 0
    ensures xs[0].1.list.None? ==> !Halts(p, xs, amt, 0) && Stepped(p, xs, amt, p, amt)
    ensures xs[0].1.list.Some? ==>
      var r := PopExit(p, xs[0].0, xs[0].1.list.value, xs[0].1);
      && (Resolves(p, xs, 0) <==> r.Success?)
      && (Halts(p, xs, amt, 0) <==> r.Failure? || amt + xs[0].1.pct >= 1.0)
  {
    assert xs[..0] == [];
    assert xs[..1] == [xs[0]];
    assert KnownPct(xs[..1]) == (if xs[0].1.list.Some? then xs[0].1.pct else 0.0) + KnownPct([]);
  }

  /** `p'` and `amt'` are where the loop stands after the first exit: the
      list it names is one rule shorter, and the total has grown by its
      fraction. */
  predicate Stepped(p: Position, xs: seq<(string, Accepted)>, amt: real, p': Position, amt': real)
    requires |xs| > 0
  {
    && (forall k :: |p'.book.Get(k)| == |p.book.Get(k)| - (if xs[0].1.list == Some(k) then 1 else 0))
    && amt' == amt + (if xs[0].1.list.Some? then xs[0].1.pct else 0.0)
  }

  lemma HaltsShift(p: Position, xs: seq<(string, Accepted)>, amt: real, p': Position, amt': real, j: nat)
    requires j + 1 < |xs| && Stepped(p, xs, amt, p', amt')
    ensures Resolves(p, xs, j + 1) <==> Resolves(p', xs[1..], j)
    ensures Halts(p, xs, amt, j + 1) <==> Halts(p', xs[1..], amt', j)
  {
    PrefixTail(xs, j + 1);
    PrefixTail(xs, j + 2);
    assert xs[1..][j] == xs[j + 1];
  }

  /** Counting over a prefix of `xs` is counting its first exit, then the
      rest of the prefix. */
  lemma PrefixTail(xs: seq<(string, Accepted)>, j: nat)
    requires 0 < j <= |xs|
    ensures forall k ::
      KindCount(xs[..j], k) == (if xs[0].1.list == Some(k) then 1 else 0) + KindCount(xs[1..][..j - 1], k)
    ensures KnownPct(xs[..j]) == (if xs[0].1.list.Some? then xs[0].1.pct else 0.0) + KnownPct(xs[1..][..j - 1])
  {
    assert xs[..j][1..] == xs[1..][..j - 1];
  }

  /** `_adjust_exit_sizes` (lines 51-62) over the lists with a non-zero
      confirmed fraction (line 46 drops the zero ones). */
  function AdjustExitSizes(b: Book, impacted: map<Kind, real>): (r: Book)
    ensures forall k :: ImpactOf(impacted, k) == 0.0 ==> r.Get(k) == b.Get(k)
    ensures forall k :: ImpactOf(impacted, k) != 0.0 ==> r.Get(k) == Rescale(b.Get(k), ImpactOf(impacted, k))
    ensures BookValid(b) ==> BookValid(r)
  {
    RescaleKeepsOrder(b, impacted);
    AdjustedLists(b, impacted);
    Book(Adjusted(b, impacted, TakeProfit), Adjusted(b, impacted, TrailingTakeProfit),
         Adjusted(b, impacted, TrueTrailingTakeProfit), Adjusted(b, impacted, StopLoss),
         Adjusted(b, impacted, TrailingStopLoss))
  }

  lemma AdjustedLists(b: Book, impacted: map<Kind, real>)
    ensures var r := Book(Adjusted(b, impacted, TakeProfit), Adjusted(b, impacted, TrailingTakeProfit),
                          Adjusted(b, impacted, TrueTrailingTakeProfit), Adjusted(b, impacted, StopLoss),
                          Adjusted(b, impacted, TrailingStopLoss));
      forall k :: r.Get(k) == Adjusted(b, impacted, k)
  {
    var r := Book(Adjusted(b, impacted, TakeProfit), Adjusted(b, impacted, TrailingTakeProfit),
                  Adjusted(b, impacted, TrueTrailingTakeProfit), Adjusted(b, impacted, StopLoss),
                  Adjusted(b, impacted, TrailingStopLoss));
    forall k ensures r.Get(k) == Adjusted(b, impacted, k) {
      match k
      case TakeProfit =>
      case TrailingTakeProfit =>
      case TrueTrailingTakeProfit =>
      case StopLoss =>
      case TrailingStopLoss =>
    }
  }

  function Adjusted(b: Book, impacted: map<Kind, real>, k: Kind): seq<Rule> {
    var x := ImpactOf(impacted, k);
    if x != 0.0 then Rescale(b.Get(k), x) else b.Get(k)
  }

  lemma RescaleKeepsOrder(b: Book, impacted: map<Kind, real>)
    ensures forall k :: ListValid(k, b.Get(k)) ==> ListValid(k, Adjusted(b, impacted, k))
  {
    forall k | ListValid(k, b.Get(k)) ensures ListValid(k, Adjusted(b, impacted, k)) {
      RescaleListKeepsOrder(k, b.Get(k), ImpactOf(impacted, k));
    }
  }

  lemma RescaleListKeepsOrder(k: Kind, l: seq<Rule>, x: real)
    requires ListValid(k, l)
    ensures ListValid(k, if x != 0.0 then Rescale(l, x) else l)
  {
    if x != 0.0 && |l| > 0 && SumPct(l) != 0.0 {
      ScaleKeepsOrder(k, l, (SumPct(l) + x) / SumPct(l));
    }
  }

  /** `confirm` (lines 33-49): the updated position and the fraction of
      the position still held. When the confirmed total reaches 1 the
      method returns 0 straight away, leaving the position size and the
      remaining fractions as they are; otherwise the size shrinks by the
      confirmed fraction and every touched list is rescaled. */
  function Confirm(p: Position, xs: seq<(string, Accepted)>): (r: Result<(Position, real)>)
    ensures r.Failure? ==> r.error == IndexError
    ensures r.Success? && Valid(p) ==> Valid(r.value.0)
    ensures r.Success? ==> r.value.0.token == p.token && r.value.0.entries == p.entries
    ensures r.Success? && r.value.1 != 0.0 ==>
      && r.value.1 == 1.0 - KnownPct(xs)
      && r.value.0.size == Below(p.size, KnownPct(xs))
      && (forall k :: |r.value.0.book.Get(k)| + KindCount(xs, k) == |p.book.Get(k)|)
    ensures r.Success? && r.value.1 == 0.0 ==> r.value.0.size == p.size
    ensures r.Success? ==> r.value.1 >= 0.0
    ensures (forall j :: 0 <= j < |xs| ==> !Halts(p, xs, 0.0, j)) <==> r.Success? && r.value.1 != 0.0
    ensures (forall j :: 0 <= j < |xs| ==> !Halts(p, xs, 0.0, j)) ==>
      && r.Success? && r.value.1 == 1.0 - KnownPct(xs) && r.value.0.size == Below(p.size, KnownPct(xs))
      && r.value.0.exits == Record(p.exits, xs)
      && (forall k :: Pops(p.book.Get(k), k, xs).Some? && r.value.0.book.Get(k) == Absorbed(Pops(p.book.Get(k), k, xs).value, KindPct(xs, k)))
    ensures forall j :: FirstHalt(p, xs, 0.0, j) && Resolves(p, xs, j) ==>
      r.Success? && r.value.1 == 0.0 && r.value.0.size == p.size
    ensures forall j :: FirstHalt(p, xs, 0.0, j) && !Resolves(p, xs, j) ==> r == Failure(IndexError)
  {
    ProcessExitsFate(p, xs, 0.0, map[]);
    ExhaustedRecords(p, xs, 0.0, map[]);
    ExhaustedLists(p, xs, 0.0, map[]);
    var o := ProcessExits(p, xs, 0.0, map[]);
    assert o.Success? && o.value.Exhausted? ==> o.value.amt == KnownPct(xs) && o.value.amt < 1.0;
    Finish(o)
  }

  /** A list after `_adjust_exit_sizes` (lines 46, 51-62) with `x`
      confirmed against it: rescaled when `x` is not 0, else as it was. */
  function Absorbed(l: seq<Rule>, x: real): seq<Rule> {
    if x != 0.0 then Rescale(l, x) else l
  }

  /** What `confirm` returns once its loop has stopped: the error, the
      untouched remainder at 0 after an early return (line 44), or the
      settled position and the fraction still held (lines 46-49). */
  function Finish(o: Result<Outcome>): (r: Result<(Position, real)>)
    ensures o.Failure? ==> r == Failure(o.error)
    ensures o.Success? && o.value.Saturated? ==> r == Success((o.value.p, 0.0))
    ensures o.Success? && o.value.Exhausted? ==>
      r == Success((Settle(o.value.p, o.value.amt, o.value.impacted), 1.0 - o.value.amt))
  {
    match o
    case Failure(e) => Failure(e)
    case Success(Saturated(q)) => Success((q, 0.0))
    case Success(Exhausted(q, amt, impacted)) => Success((Settle(q, amt, impacted), 1.0 - amt))
  }

  /** Lines 46-48: shrink the position by the confirmed fraction `amt`
      and rescale the touched lists; no list changes length. */
  function Settle(q: Position, amt: real, impacted: map<Kind, real>): (r: Position)
    ensures r == q.(size := r.size, book := r.book)
    ensures r.book == AdjustExitSizes(q.book, impacted)
    ensures r.size == Below(q.size, amt)
    ensures forall k :: |r.book.Get(k)| == |q.book.Get(k)|
    ensures Valid(q) ==> Valid(r)
  {
    q.(size := Below(q.size, amt), book := AdjustExitSizes(q.book, impacted))
  }

  /** Exits that name no list change nothing: the position comes back as
      it was and all of it is still held. */
  lemma {:induction false} UnknownExitsIgnored(p: Position, xs: seq<(string, Accepted)>, amt: real, impacted: map<Kind, real>)
    requires forall i :: 0 <= i < |xs| ==> xs[i].1.list.None?
    ensures ProcessExits(p, xs, amt, impacted) == Success(Exhausted(p, amt, impacted))
  {
    if |xs| > 0 {
      UnknownExitsIgnored(p, xs[1..], amt, impacted);
    }
  }

  lemma ConfirmUnknown(p: Position, xs: seq<(string, Accepted)>)
    requires forall i :: 0 <= i < |xs| ==> xs[i].1.list.None?
    ensures Confirm(p, xs) == Success((p, 1.0))
  {
    UnknownExitsIgnored(p, xs, 0.0, map[]);
    assert p.size - p.size * 0.0 == p.size;
    var b := AdjustExitSizes(p.book, map[]);
    assert b == p.book by {
      assert forall k :: b.Get(k) == p.book.Get(k);
      assert b.takeProfit == p.book.Get(TakeProfit);
      assert b.trailingTakeProfit == p.book.Get(TrailingTakeProfit);
      assert b.trueTrailingTakeProfit == p.book.Get(TrueTrailingTakeProfit);
      assert b.stopLoss == p.book.Get(StopLoss);
      assert b.trailingStopLoss == p.book.Get(TrailingStopLoss);
    }
  }

  /** Confirming a single exit against list `k` that liquidates exactly the fraction of
      the rule it removes (as `update` advises it) hands that fraction to
      the remaining rules of the same list: their total is what the whole
      list's was before. Needs the fraction below 1 (else `confirm`
      returns early) and the remaining rules to carry a non-zero total
      (else `_adjust_exit_sizes` skips the list). */
  lemma ConfirmOneRestoresTotal(p: Position, txid: string, k: Kind, i: nat)
    requires i < |p.book.Get(k)|
    requires var l := p.book.Get(k);
      l[i].pct < 1.0 && SumPct(l) != l[i].pct
    ensures var l := p.book.Get(k);
      var r := Confirm(p, [(txid, Accepted(Some(k), l[i].pct, i))]);
      && r.Success?
      && r.value.1 == 1.0 - l[i].pct
      && |r.value.0.book.Get(k)| == |l| - 1
      && SumPct(r.value.0.book.Get(k)) == SumPct(l)
      && r.value.0.exits == OrderedMap.Put(p.exits, txid, ExitRecord(k, l[i].pct))
  {
    var l := p.book.Get(k);
    var a := Accepted(Some(k), l[i].pct, i);
    SettledOne(p, txid, k, i);
    ConfirmOne(p, txid, k, a);
  }

  /** The settled position of `ConfirmOneRestoresTotal`, on its own. */
  lemma SettledOne(p: Position, txid: string, k: Kind, i: nat)
    requires i < |p.book.Get(k)|
    requires var l := p.book.Get(k);
      l[i].pct < 1.0 && SumPct(l) != l[i].pct
    ensures var l := p.book.Get(k);
      var a := Accepted(Some(k), l[i].pct, i);
      && PopExit(p, txid, k, a).Success?
      && var s := Settle(PopExit(p, txid, k, a).value, l[i].pct, map[k := l[i].pct]);
      && |s.book.Get(k)| == |l| - 1
      && SumPct(s.book.Get(k)) == SumPct(l)
      && s.exits == OrderedMap.Put(p.exits, txid, ExitRecord(k, l[i].pct))
  {
    var l := p.book.Get(k);
    var a := Accepted(Some(k), l[i].pct, i);
    assert Index(i, |l|) == Some(i);
    var q := PopExit(p, txid, k, a).value;
    assert ImpactOf(map[k := l[i].pct], k) == l[i].pct;
    SettledTotal(q.book.Get(k), l[i].pct);
  }

  /** A single accepted exit against list `k` whose rule exists and whose
      fraction is below 1 settles the position with that rule popped and
      that fraction confirmed against `k` alone. */
  lemma ConfirmOne(p: Position, txid: string, k: Kind, a: Accepted)
    requires a.list == Some(k)
    requires PopExit(p, txid, k, a).Success? && a.pct < 1.0
    ensures Confirm(p, [(txid, a)]) ==
      Success((Settle(PopExit(p, txid, k, a).value, a.pct, map[k := a.pct]), 1.0 - a.pct))
  {
    var q := PopExit(p, txid, k, a).value;
    ProcessOneFromStart(p, txid, k, a);
    FinishExhausted(q, a.pct, map[k := a.pct]);
    ConfirmIsFinish(p, [(txid, a)]);
  }

  /** `ProcessOne` from the loop's initial state (lines 34-35). */
  lemma ProcessOneFromStart(p: Position, txid: string, k: Kind, a: Accepted)
    requires a.list == Some(k)
    requires PopExit(p, txid, k, a).Success? && a.pct < 1.0
    ensures ProcessExits(p, [(txid, a)], 0.0, map[]) ==
      Success(Exhausted(PopExit(p, txid, k, a).value, a.pct, map[k := a.pct]))
  {
    ProcessOne(p, txid, k, a, 0.0, map[]);
    assert map[][k := ImpactOf(map[], k) + a.pct] == map[k := a.pct];
  }

  /** A loop that ran to the end finishes by settling its position. */
  lemma FinishExhausted(q: Position, amt: real, impacted: map<Kind, real>)
    ensures Finish(Success(Exhausted(q, amt, impacted))) == Success((Settle(q, amt, impacted), 1.0 - amt))
  {
  }

  /** `confirm` is its loop followed by `Finish`. */
  lemma ConfirmIsFinish(p: Position, xs: seq<(string, Accepted)>)
    ensures Confirm(p, xs) == Finish(ProcessExits(p, xs, 0.0, map[]))
  {
  }

  /** A single accepted exit against list `k` with an index in range and
      a fraction below 1 pops its rule and leaves the loop with that
      fraction confirmed against `k` alone. */
  lemma ProcessOne(p: Position, txid: string, k: Kind, a: Accepted, amt: real, impacted: map<Kind, real>)
    requires a.list == Some(k)
    requires PopExit(p, txid, k, a).Success? && amt + a.pct < 1.0
    ensures ProcessExits(p, [(txid, a)], amt, impacted) ==
      Success(Exhausted(PopExit(p, txid, k, a).value, amt + a.pct, impacted[k := ImpactOf(impacted, k) + a.pct]))
  {
    assert [(txid, a)][1..] == [];
  }

  /** The list an exit was popped from, rescaled by the popped fraction,
      carries the total it had before the pop. */
  lemma SettledTotal(l: seq<Rule>, x: real)
    requires SumPct(l) != 0.0
    ensures SumPct(if x != 0.0 then Rescale(l, x) else l) == SumPct(l) + x
  {
  }

  /** A list's total after `_adjust_exit_sizes` grows by exactly what was
      confirmed against it, provided the list is skipped only when
      nothing was confirmed (its remaining rules carry a non-zero total). */
  lemma AbsorbedTotal(l: seq<Rule>, x: real)
    requires x != 0.0 ==> SumPct(l) != 0.0
    ensures SumPct(Absorbed(l, x)) == SumPct(l) + x
  {
  }

  /** Confirming exits that each carry exactly the fraction of the rule
      they pop (as `update` advises them, when no index has gone stale)
      hands the popped fractions back to the remaining rules of list `k`:
      its total afterwards is what it was before. Needs the loop to run to
      the end and, when anything is confirmed against `k`, the remaining
      rules to carry a non-zero total (else `_adjust_exit_sizes` skips
      the list). */
  lemma ConfirmRestoresTotals(p: Position, xs: seq<(string, Accepted)>, k: Kind)
    requires forall j :: 0 <= j < |xs| ==> !Halts(p, xs, 0.0, j)
    requires PctsMatch(p.book.Get(k), k, xs)
    requires KindPct(xs, k) != 0.0 ==> SumPct(p.book.Get(k)) != KindPct(xs, k)
    ensures var r := Confirm(p, xs);
      && r.Success? && r.value.1 == 1.0 - KnownPct(xs)
      && SumPct(r.value.0.book.Get(k)) == SumPct(p.book.Get(k))
  {
    var l := p.book.Get(k);
    var r := Confirm(p, xs);
    var rest := Pops(l, k, xs).value;
    MatchedPops(l, k, xs);
    AbsorbedTotal(rest, KindPct(xs, k));
  }

  /** The take-profit list of a position priced at `cp`. */
  function WithTakeProfits(cp: real, l: seq<Rule>): Position {
    Position("token", cp, cp, cp, cp, 1.0, OrderedMap.Empty(), OrderedMap.Empty(), EmptyBook.Set(TakeProfit, l))
  }

  /** An advised exit as the caller hands it back to `confirm`. */
  function AsExit(txid: string, s: Advice.Signal): (string, Accepted) {
    (txid, Accepted(Some(s.kind), s.pct, s.idx))
  }

  /** A book holding only take-profits is scanned as that one list. */
  lemma ScanOfTakeProfits(l: seq<Rule>)
    ensures Advice.ScanVisits(EmptyBook.Set(TakeProfit, l)) == Advice.VisitsOf(TakeProfit, l)
  {
    var b := EmptyBook.Set(TakeProfit, l);
    assert Advice.VisitsAfter(b, 5) == [];
    assert Advice.VisitsAfter(b, 4) == [];
    assert Advice.VisitsAfter(b, 3) == [];
    assert Advice.VisitsAfter(b, 2) == [];
    assert Advice.VisitsAfter(b, 1) == [];
    assert Advice.VisitsAfter(b, 0) == Advice.VisitsOf(TakeProfit, l) + [];
  }

  /** The scan of a take-profit list whose first two rules trigger and
      whose fractions first reach 1 with the second rule advises exactly
      those two. */
  lemma ScanStopsAtSecond(r0: Rule, r1: Rule, rest: seq<Rule>, cp: real)
    requires Triggered(TakeProfit, r0, cp) && Triggered(TakeProfit, r1, cp)
    requires r0.pct < 1.0 && r0.pct + r1.pct >= 1.0
    ensures Advice.FlatScan(Advice.VisitsOf(TakeProfit, [r0, r1] + rest), cp, [], 0.0) ==
      Some([Advice.Signal(TakeProfit, r0.pct, 0), Advice.Signal(TakeProfit, r1.pct, 1)])
  {
    var v := Advice.VisitsOf(TakeProfit, [r0, r1] + rest);
    var a := Advice.Signal(TakeProfit, r0.pct, 0);
    var b := Advice.Signal(TakeProfit, r1.pct, 1);
    assert v[0] == Advice.Visit(TakeProfit, r0, 0);
    Advice.FlatScanStep(v, cp, [], 0.0);
    assert [] + [Advice.Fire(v[0])] == [a];
    assert v[1..][0] == Advice.Visit(TakeProfit, r1, 1);
    Advice.FlatScanStep(v[1..], cp, [a], 0.0 + r0.pct);
    assert [a] + [Advice.Fire(v[1..][0])] == [a, b];
  }

  /** The same when the second rule leaves the sum below 1 and a third,
      untriggered rule brings it there. */
  lemma ScanStopsAtThird(r0: Rule, r1: Rule, r2: Rule, cp: real)
    requires Triggered(TakeProfit, r0, cp) && Triggered(TakeProfit, r1, cp) && !Triggered(TakeProfit, r2, cp)
    requires r0.pct < 1.0 && r0.pct + r1.pct < 1.0 && r0.pct + r1.pct + r2.pct >= 1.0
    ensures Advice.FlatScan(Advice.VisitsOf(TakeProfit, [r0, r1, r2]), cp, [], 0.0) ==
      Some([Advice.Signal(TakeProfit, r0.pct, 0), Advice.Signal(TakeProfit, r1.pct, 1)])
  {
    var v := Advice.VisitsOf(TakeProfit, [r0, r1, r2]);
    var a := Advice.Signal(TakeProfit, r0.pct, 0);
    var b := Advice.Signal(TakeProfit, r1.pct, 1);
    assert v[0] == Advice.Visit(TakeProfit, r0, 0);
    Advice.FlatScanStep(v, cp, [], 0.0);
    assert [] + [Advice.Fire(v[0])] == [a];
    assert v[1..][0] == Advice.Visit(TakeProfit, r1, 1);
    Advice.FlatScanStep(v[1..], cp, [a], 0.0 + r0.pct);
    assert [a] + [Advice.Fire(v[1..][0])] == [a, b];
    assert v[1..][1..][0] == Advice.Visit(TakeProfit, r2, 2);
    Advice.FlatScanStep(v[1..][1..], cp, [a, b], 0.0 + r0.pct + r1.pct);
    assert [a, b] + [] == [a, b];
  }

  /** Stale indices raise. At price 125, take-profits at 110 and 120 for
      half the position each both trigger, and the scan advises
      `(take_profit, 0.5, 0)` and `(take_profit, 0.5, 1)`, indices into
      the list as it stood. `confirm` pops index 0 first (line 39); index
      1 is then out of range in the one rule left, and `pop` raises. */
  lemma StaleIndexRaises()
    ensures var p := WithTakeProfits(125.0, [Fixed(110.0, 0.5), Fixed(120.0, 0.5)]);
      var a := Advice.Signal(TakeProfit, 0.5, 0);
      var b := Advice.Signal(TakeProfit, 0.5, 1);
      && Advice.FlatScan(Advice.ScanVisits(p.book), p.currentPrice, [], 0.0) == Some([a, b])
      && Confirm(p, [AsExit("a", a), AsExit("b", b)]) == Failure(IndexError)
  {
    var l := [Fixed(110.0, 0.5), Fixed(120.0, 0.5)];
    ScanOfTakeProfits(l);
    assert l == [l[0], l[1]] + [];
    ScanStopsAtSecond(l[0], l[1], [], 125.0);
    StaleRaises(WithTakeProfits(125.0, l), 0.5, 0.5);
  }

  /** Two exits at indices 0 and 1 of a two-rule list: the second index
      has gone stale once the first rule is popped. */
  lemma StaleRaises(p: Position, x: real, y: real)
    requires |p.book.Get(TakeProfit)| == 2 && x < 1.0
    ensures Confirm(p, [AsExit("a", Advice.Signal(TakeProfit, x, 0)), AsExit("b", Advice.Signal(TakeProfit, y, 1))]) == Failure(IndexError)
  {
    var xs := [AsExit("a", Advice.Signal(TakeProfit, x, 0)), AsExit("b", Advice.Signal(TakeProfit, y, 1))];
    assert xs[0].1 == Accepted(Some(TakeProfit), x, 0);
    assert Index(0, 2) == Some(0);
    var p1 := PopExit(p, "a", TakeProfit, xs[0].1).value;
    assert |p1.book.Get(TakeProfit)| == 1;
    var imp1 := map[][TakeProfit := ImpactOf(map[], TakeProfit) + x];
    RecordsStep(p, xs, 0.0, map[], p1, imp1);
    var rest := xs[1..];
    assert rest[0].1 == Accepted(Some(TakeProfit), y, 1);
    assert Index(1, 1).None?;
    assert ProcessExits(p1, rest, 0.0 + x, imp1) == Failure(IndexError);
    ConfirmIsFinish(p, xs);
  }

  /** Stale indices pop the wrong rule. At price 125, take-profits at 110,
      120 and 130 for 0.3, 0.3 and 0.4 of the position: the first two
      trigger and the scan advises indices 0 and 1. `confirm` pops index
      0 (the rule at 110), then index 1 of what is left, the rule at 130,
      which never triggered; the triggered rule at 120 stays and absorbs
      the confirmed 0.6. */
  lemma StaleIndexPopsOther()
    ensures var p := WithTakeProfits(125.0, [Fixed(110.0, 0.3), Fixed(120.0, 0.3), Fixed(130.0, 0.4)]);
      var a := Advice.Signal(TakeProfit, 0.3, 0);
      var b := Advice.Signal(TakeProfit, 0.3, 1);
      var r := Confirm(p, StaleExits(0.3, 0.3));
      && Advice.FlatScan(Advice.ScanVisits(p.book), p.currentPrice, [], 0.0) == Some([a, b])
      && StaleExits(0.3, 0.3) == [AsExit("a", a), AsExit("b", b)]
      && r.Success? && r.value.1 == 0.4
      && r.value.0.book.Get(TakeProfit) == [Fixed(120.0, 0.9)]
  {
    var l := [Fixed(110.0, 0.3), Fixed(120.0, 0.3), Fixed(130.0, 0.4)];
    ScanOfTakeProfits(l);
    ScanStopsAtThird(l[0], l[1], l[2], 125.0);
    StalePopsOther(WithTakeProfits(125.0, l), l);
  }

  /** The exits `update` advises for the first two rules of the
      take-profit list, as the caller hands them back. */
  function StaleExits(x: real, y: real): seq<(string, Accepted)> {
    [AsExit("a", Advice.Signal(TakeProfit, x, 0)), AsExit("b", Advice.Signal(TakeProfit, y, 1))]
  }

  /** Exits at indices 0 and 1 of a three-rule list pop its first and
      third rules. */
  lemma StaleLoop(p: Position, r0: Rule, r1: Rule, r2: Rule, x: real, y: real)
    requires p.book.Get(TakeProfit) == [r0, r1, r2] && x < 1.0 && x + y < 1.0
    ensures var o := ProcessExits(p, StaleExits(x, y), 0.0, map[]);
      && o.Success? && o.value.Exhausted? && o.value.amt == x + y
      && ImpactOf(o.value.impacted, TakeProfit) == x + y
      && o.value.p.book.Get(TakeProfit) == [r1]
  {
    var p1 := StaleFirst(p, r0, r1, r2, x, y);
    StaleSecond(p1, r1, r2, x, y);
  }

  /** The first exit pops rule 0. */
  lemma StaleFirst(p: Position, r0: Rule, r1: Rule, r2: Rule, x: real, y: real) returns (p1: Position)
    requires p.book.Get(TakeProfit) == [r0, r1, r2] && x < 1.0
    ensures p1.book.Get(TakeProfit) == [r1, r2]
    ensures ProcessExits(p, StaleExits(x, y), 0.0, map[]) ==
      ProcessExits(p1, [AsExit("b", Advice.Signal(TakeProfit, y, 1))], x, map[TakeProfit := x])
  {
    p1 := StalePop(p, r0, r1, r2, x);
    StaleStep(p, p1, x, y);
  }

  lemma StalePop(p: Position, r0: Rule, r1: Rule, r2: Rule, x: real) returns (p1: Position)
    requires p.book.Get(TakeProfit) == [r0, r1, r2]
    ensures PopExit(p, "a", TakeProfit, Accepted(Some(TakeProfit), x, 0)) == Success(p1)
    ensures p1.book.Get(TakeProfit) == [r1, r2]
  {
    assert Index(0, 3) == Some(0);
    p1 := PopExit(p, "a", TakeProfit, Accepted(Some(TakeProfit), x, 0)).value;
    var l1 := RemoveAt([r0, r1, r2], 0);
    assert l1 == l1[0..];
  }

  lemma StaleStep(p: Position, p1: Position, x: real, y: real)
    requires PopExit(p, "a", TakeProfit, Accepted(Some(TakeProfit), x, 0)) == Success(p1) && x < 1.0
    ensures ProcessExits(p, StaleExits(x, y), 0.0, map[]) ==
      ProcessExits(p1, [AsExit("b", Advice.Signal(TakeProfit, y, 1))], x, map[TakeProfit := x])
  {
    var xs := StaleExits(x, y);
    assert xs[0] == ("a", Accepted(Some(TakeProfit), x, 0));
    assert xs[1..] == [AsExit("b", Advice.Signal(TakeProfit, y, 1))];
    assert map[][TakeProfit := ImpactOf(map[], TakeProfit) + x] == map[TakeProfit := x];
    RecordsStep(p, xs, 0.0, map[], p1, map[TakeProfit := x]);
  }

  /** The second exit pops rule 1 of what is left, and the loop ends. */
  lemma StaleSecond(p1: Position, r1: Rule, r2: Rule, x: real, y: real)
    requires p1.book.Get(TakeProfit) == [r1, r2] && x + y < 1.0
    ensures var o := ProcessExits(p1, [AsExit("b", Advice.Signal(TakeProfit, y, 1))], x, map[TakeProfit := x]);
      && o.Success? && o.value.Exhausted? && o.value.amt == x + y
      && ImpactOf(o.value.impacted, TakeProfit) == x + y
      && o.value.p.book.Get(TakeProfit) == [r1]
  {
    var b := Accepted(Some(TakeProfit), y, 1);
    assert AsExit("b", Advice.Signal(TakeProfit, y, 1)) == ("b", b);
    assert Index(1, 2) == Some(1);
    var l2 := RemoveAt([r1, r2], 1);
    assert l2 == l2[..1];
    ProcessOne(p1, "b", TakeProfit, b, x, map[TakeProfit := x]);
  }

  /** The rest of `StaleIndexPopsOther`: the loop pops the rules at 110
      and 130; the rule at 120 absorbs both fractions. */
  lemma StalePopsOther(p: Position, l: seq<Rule>)
    requires l == [Fixed(110.0, 0.3), Fixed(120.0, 0.3), Fixed(130.0, 0.4)] && p.book.Get(TakeProfit) == l
    ensures var r := Confirm(p, StaleExits(0.3, 0.3));
      && r.Success? && r.value.1 == 0.4
      && r.value.0.book.Get(TakeProfit) == [Fixed(120.0, 0.9)]
  {
    var xs := StaleExits(0.3, 0.3);
    StaleLoop(p, l[0], l[1], l[2], 0.3, 0.3);
    var o := ProcessExits(p, xs, 0.0, map[]).value;
    FinishExhausted(o.p, o.amt, o.impacted);
    ConfirmIsFinish(p, xs);
    RescaleOne(Fixed(120.0, 0.3), 0.6);
  }

  /** Rescaling a one-rule list hands it the exited fraction. */
  lemma RescaleOne(r: Rule, x: real)
    requires r.pct != 0.0
    ensures Rescale([r], x) == [WithPct(r, r.pct * ((r.pct + x) / r.pct))]
  {
    assert SumPct([r]) == r.pct + SumPct([]);
  }
}
