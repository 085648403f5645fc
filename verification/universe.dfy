/** The selection logic of `Universe` (soltrade/universe.py:137-235): the
    derived fields and eligibility test of a fetched token, the
    market-cap binning of the fetched tokens, and the two filters that
    narrow the binned universe down to the tradeable assets. Fetching,
    the database and logging are not part of this model; the clock is a
    parameter. */
module Universe {
  import opened Python
  import opened Seqs
  import Sorting

  /** A fetched token after `convert_or_default` has turned each raw
      field into a number or string (its default where the field was
      missing or malformed). */
  datatype Coin = Coin(
    volume: real, volumeChangePct: real, marketCap: real, liquidity: real,
    name: string, address: string, symbol: string,
    top10HoldersPct: real, creationTime: int)

  /** The `entry` dictionary built by `fill_entry`. */
  datatype Asset = Asset(
    tokenAddress: string, symbol: string, name: string,
    volume: real, volumeChangePct: real, marketCap: real, liquidity: real,
    volumePctMarketCap: real, top10HoldersPct: real, creationTime: int)

  /** `needle in hay` for strings. */
  predicate Contains(hay: string, needle: string)
    decreases |hay|
  {
    if |needle| > |hay| then false
    else hay[..|needle|] == needle || (|hay| > 0 && Contains(hay[1..], needle))
  }

  /** `needle` occurs in `hay` at some offset. */
  ghost predicate OccursAt(hay: string, needle: string, i: int) {
    0 <= i && i + |needle| <= |hay| && hay[i..i + |needle|] == needle
  }

  /** The recursive test agrees with "occurs at some offset". */
  lemma {:induction false} ContainsIffOccurs(hay: string, needle: string)
    ensures Contains(hay, needle) <==> exists i :: OccursAt(hay, needle, i)
    decreases |hay|
  {
    if |needle| <= |hay| && |hay| > 0 {
      ContainsIffOccurs(hay[1..], needle);
      if exists i :: OccursAt(hay[1..], needle, i) {
        var i :| OccursAt(hay[1..], needle, i);
        assert hay[1..][i..i + |needle|] == hay[i + 1..i + 1 + |needle|];
        assert OccursAt(hay, needle, i + 1);
      }
      if exists i :: OccursAt(hay, needle, i) {
        var i :| OccursAt(hay, needle, i);
        if i > 0 {
          assert hay[1..][i - 1..i - 1 + |needle|] == hay[i..i + |needle|];
          assert OccursAt(hay[1..], needle, i - 1);
        } else {
          assert hay[..|needle|] == needle;
        }
      }
      if hay[..|needle|] == needle {
        assert OccursAt(hay, needle, 0);
      }
    } else if |needle| <= |hay| {
      assert OccursAt(hay, needle, 0);
    }
  }

  /** `fill_entry` (lines 137-161) after the fetches: the entry and its
      `preliminaries` flag. The volume share of market cap is 0 when the
      market cap is 0; the token is eligible when volume, market cap and
      liquidity are non-zero, name, address and symbol are not the
      placeholder `'_'` and the name does not mention `Wormhole`. */
  function FillEntry(c: Coin): (r: (Asset, bool))
    ensures r.0.marketCap == c.marketCap && r.0.volume == c.volume && r.0.liquidity == c.liquidity
    ensures r.0.tokenAddress == c.address && r.0.name == c.name && r.0.symbol == c.symbol
    ensures r.0.volumeChangePct == c.volumeChangePct
    ensures r.0.top10HoldersPct == c.top10HoldersPct && r.0.creationTime == c.creationTime
    ensures c.marketCap != 0.0 ==> r.0.volumePctMarketCap * c.marketCap == c.volume
    ensures c.marketCap == 0.0 ==> r.0.volumePctMarketCap == 0.0
    ensures r.1 <==>
      && c.volume != 0.0 && c.marketCap != 0.0 && c.liquidity != 0.0
      && c.name != "_" && c.address != "_" && c.symbol != "_"
      && !exists i :: OccursAt(c.name, "Wormhole", i)
  {
    ContainsIffOccurs(c.name, "Wormhole");
    var share := if c.marketCap != 0.0 then c.volume / c.marketCap else 0.0;
    var entry := Asset(c.address, c.symbol, c.name, c.volume, c.volumeChangePct, c.marketCap,
                       c.liquidity, share, c.top10HoldersPct, c.creationTime);
    var preliminaries :=
      c.volume != 0.0 && c.marketCap != 0.0 && c.liquidity != 0.0 &&
      c.name != "_" && c.address != "_" && c.symbol != "_" && !Contains(c.name, "Wormhole");
    (entry, preliminaries)
  }

  /** A market-cap bin `(lower_bound, upper_bound)`. */
  datatype Bin = Bin(lower: real, upper: real)

  predicate InBin(mc: real, b: Bin) {
    b.lower <= mc < b.upper
  }

  /** The first bin from `start` on holding `mc`. */
  function FirstBin(mc: real, bins: seq<Bin>, start: nat): (r: Option<nat>)
    requires start <= |bins|
    ensures r.Some? ==> start <= r.value < |bins| && InBin(mc, bins[r.value])
    ensures forall j :: start <= j < |bins| && (r.None? || j < r.value) ==> !InBin(mc, bins[j])
    decreases |bins| - start
  {
    if start == |bins| then None
    else if InBin(mc, bins[start]) then Some(start)
    else FirstBin(mc, bins, start + 1)
  }

  /** The universe bin (0-based) a filled entry lands in (lines 177-181):
      only eligible entries with `min_mc < mc <= max_mc` are placed, and
      then in the first bin whose bounds hold the market cap. */
  function BinOf(mc: real, preliminaries: bool, bins: seq<Bin>): (r: Option<nat>)
    requires |bins| > 0
    ensures r.Some? <==>
      && bins[0].lower < mc <= bins[|bins| - 1].upper && preliminaries
      && exists j :: 0 <= j < |bins| && InBin(mc, bins[j])
    ensures r.Some? ==> (r.value < |bins| && InBin(mc, bins[r.value])
      && forall j :: 0 <= j < r.value ==> !InBin(mc, bins[j]))
  {
    if bins[0].lower < mc <= bins[|bins| - 1].upper && preliminaries then FirstBin(mc, bins, 0) else None
  }

  /** A market cap equal to the last upper bound passes the range test
      but lands in no bin, when no bin reaches above that bound. */
  lemma LastUpperBoundInNoBin(bins: seq<Bin>, preliminaries: bool)
    requires |bins| > 0
    requires forall j :: 0 <= j < |bins| ==> bins[j].upper <= bins[|bins| - 1].upper
    ensures BinOf(bins[|bins| - 1].upper, preliminaries, bins).None?
  {
  }

  /** The assets of the entries in `es` that land in bin `k`, in order. */
  function Members(es: seq<(Asset, bool)>, bins: seq<Bin>, k: nat): (r: seq<Asset>)
    requires |bins| > 0
    ensures forall a :: a in r ==> exists e :: e in es && e.0 == a && BinOf(a.marketCap, e.1, bins) == Some(k)
  {
    if |es| == 0 then []
    else
      var e := es[|es| - 1];
      var rest := Members(es[..|es| - 1], bins, k);
      rest + (if BinOf(e.0.marketCap, e.1, bins) == Some(k) then [e.0] else [])
  }

  /** Conversely, every entry placed in bin `k` is among its members: an
      asset is a member of bin `k` exactly when some entry carrying it is
      placed there. */
  lemma {:induction false} PlacedAreMembers(es: seq<(Asset, bool)>, bins: seq<Bin>, k: nat)
    requires |bins| > 0
    ensures forall e :: e in es && BinOf(e.0.marketCap, e.1, bins) == Some(k) ==> e.0 in Members(es, bins, k)
  {
    if |es| > 0 {
      var init := es[..|es| - 1];
      PlacedAreMembers(init, bins, k);
      forall e | e in es && BinOf(e.0.marketCap, e.1, bins) == Some(k) ensures e.0 in Members(es, bins, k) {
        if e != es[|es| - 1] {
          var i :| 0 <= i < |es| && es[i] == e;
          assert init[i] == e;
        }
      }
    }
  }

  /** The binning step of `fetch_coins_by_market_cap` (lines 165-181) over
      the filled entries in fetch order: one list per bin, each entry
      appended to the first bin that holds it. `market_cap_bins[0]` at
      line 166 raises `IndexError` when there are no bins. */
  method BinEntries(es: seq<(Asset, bool)>, bins: seq<Bin>) returns (r: Result<seq<seq<Asset>>>)
    ensures r.Failure? <==> |bins| == 0
    ensures r.Failure? ==> r.error == IndexError
    ensures r.Success? ==> |r.value| == |bins| && forall k :: 0 <= k < |bins| ==> r.value[k] == Members(es, bins, k)
  {
    if |bins| == 0 {
      return Failure(IndexError);
    }
    var minMc, maxMc := bins[0].lower, bins[|bins| - 1].upper;
    var universe: seq<seq<Asset>> := seq(|bins|, _ => []);
    var i := 0;
    while i < |es|
      invariant 0 <= i <= |es|
      invariant |universe| == |bins|
      invariant forall k :: 0 <= k < |bins| ==> universe[k] == Members(es[..i], bins, k)
    {
      var entry, preliminaries := es[i].0, es[i].1;
      var mc := entry.marketCap;
      assert es[..i + 1][..i] == es[..i];
      if minMc < mc <= maxMc && preliminaries {
        var idx := 0;
        while idx < |bins|
          invariant 0 <= idx <= |bins|
          invariant forall j :: 0 <= j < idx ==> !InBin(mc, bins[j])
          invariant FirstBin(mc, bins, 0) == FirstBin(mc, bins, idx)
        {
          if bins[idx].lower <= mc < bins[idx].upper {
            universe := universe[idx := universe[idx] + [entry]];
            break;
          }
          idx := idx + 1;
        }
      }
      i := i + 1;
    }
    assert es[..|es|] == es;
    return Success(universe);
  }

  /** Total number of assets over all bins (`sum(len(...) for ...)`). */
  function TotalCount(u: seq<seq<Asset>>): (n: nat)
    ensures n == 0 <==> forall k :: 0 <= k < |u| ==> |u[k]| == 0
  {
    if |u| == 0 then 0 else |u[0]| + TotalCount(u[1..])
  }

  /** The age-and-security test of lines 195-197. */
  predicate Seasoned(a: Asset, minCreationTime: int, maxTop10HoldersPct: real) {
    a.top10HoldersPct <= maxTop10HoldersPct && a.creationTime <= minCreationTime
  }

  function Keeps(minCreationTime: int, maxTop10HoldersPct: real): Asset -> bool {
    (a: Asset) => Seasoned(a, minCreationTime, maxTop10HoldersPct)
  }

  /** `filter_universe_by_age_and_security` (lines 186-204), with the
      current time `now` (already truncated to whole seconds) as a
      parameter. Bin `k` (0-based) keeps, in order, exactly its assets
      held by the top ten holders to at most `maxTop10HoldersPct` and
      created at least `minHours` hours before `now`. Bins the input
      lacks come back empty. The percentage logged at line 201 divides
      by the initial count, so an empty universe raises
      `ZeroDivisionError`. */
  function FilterByAgeAndSecurity(u: seq<seq<Asset>>, nbins: nat, now: int, minHours: int, maxTop10HoldersPct: real)
    : (r: Result<seq<seq<Asset>>>)
    ensures r.Failure? <==> forall k :: 0 <= k < |u| ==> |u[k]| == 0
    ensures r.Failure? ==> r.error == ZeroDivisionError
    ensures r.Success? ==>
      var f := r.value;
      var minCreationTime := now - minHours * 3600;
      && |f| == (if nbins >= |u| then nbins else |u|)
      && (forall k :: |u| <= k < |f| ==> f[k] == [])
      && (forall k :: 0 <= k < |u| ==>
           && |f[k]| <= |u[k]|
           && (forall a :: a in f[k] <==> a in u[k] && Seasoned(a, minCreationTime, maxTop10HoldersPct))
           && (forall a :: multiset(f[k])[a] == if Seasoned(a, minCreationTime, maxTop10HoldersPct) then multiset(u[k])[a] else 0))
  {
    var keep := Keeps(now - minHours * 3600, maxTop10HoldersPct);
    var size := if nbins >= |u| then nbins else |u|;
    var f := seq(size, k requires 0 <= k < size => if k < |u| then Filter(u[k], keep) else []);
    if TotalCount(u) == 0 then Failure(ZeroDivisionError) else Success(f)
  }

  /** Each bin keeps its survivors in their original order. */
  lemma AgeFilterKeepsOrder(u: seq<seq<Asset>>, nbins: nat, now: int, minHours: int, maxTop10HoldersPct: real, k: nat)
    requires k < |u|
    ensures FilterByAgeAndSecurity(u, nbins, now, minHours, maxTop10HoldersPct).Success? ==>
      Subseq(FilterByAgeAndSecurity(u, nbins, now, minHours, maxTop10HoldersPct).value[k], u[k])
  {
    var keep := Keeps(now - minHours * 3600, maxTop10HoldersPct);
    var r := FilterByAgeAndSecurity(u, nbins, now, minHours, maxTop10HoldersPct);
    if r.Success? {
      assert r.value[k] == Filter(u[k], keep);
      FilterIsSubseq(u[k], keep);
    }
  }

  /** `calculate_quintile_indices` (lines 207-208): one cut-off per
      `i` in `0 .. nbins`, `int(length·i/5)`. Python's `int` truncates,
      which for these non-negative values is the floor. */
  function QuintileIndices(length: nat, nbins: nat): (r: seq<nat>)
    ensures |r| == nbins + 1
    ensures r[0] == 0
    ensures forall i, j :: 0 <= i <= j < |r| ==> r[i] <= r[j]
    ensures forall i :: 0 <= i < |r| && i <= 5 ==> r[i] <= length
    ensures forall i :: 0 <= i < |r| ==> 5 * r[i] <= length * i < 5 * r[i] + 5
  {
    CutFacts(length);
    seq(nbins + 1, i requires 0 <= i <= nbins => Cut(length, i))
  }

  /** `int(length * i / 5)`. */
  function Cut(length: nat, i: nat): nat {
    (length * i) / 5
  }

  lemma CutFacts(length: nat)
    ensures Cut(length, 0) == 0
    ensures forall i: nat, j: nat :: i <= j ==> Cut(length, i) <= Cut(length, j)
    ensures forall i: nat :: i <= 5 ==> Cut(length, i) <= length
    ensures forall i: nat :: 5 * Cut(length, i) <= length * i < 5 * Cut(length, i) + 5
  {
    forall i: nat, j: nat | i <= j ensures Cut(length, i) <= Cut(length, j) {
      assert length * i <= length * j by {
        assert length * j - length * i == length * (j - i);
      }
    }
    forall i: nat | i <= 5 ensures Cut(length, i) <= length {
      assert length * i <= length * 5 by {
        assert length * 5 - length * i == length * (5 - i);
      }
    }
  }

  /** The two sort keys used by the volume filter. */
  datatype Key = VolumePctMarketCap | VolumeChangePct

  function KeyOf(key: Key, a: Asset): real {
    match key
    case VolumePctMarketCap => a.volumePctMarketCap
    case VolumeChangePct => a.volumeChangePct
  }

  /** Ascending by `key`, as `sorted(data, key=...)` compares. */
  function Ascending(key: Key): (Asset, Asset) -> bool {
    (a: Asset, b: Asset) => KeyOf(key, a) <= KeyOf(key, b)
  }

  lemma AscendingIsTotalPreorder(key: Key)
    ensures Sorting.TotalPreorder(Ascending(key))
  {
  }

  /** `max(data, key=...)`: the first element with the largest key. */
  function FirstMax(data: seq<Asset>, key: Key): (m: Asset)
    requires |data| > 0
    ensures m in data
    ensures forall i :: 0 <= i < |data| ==> KeyOf(key, data[i]) <= KeyOf(key, m)
    ensures var i := FirstMaxAt(data, key); data[i] == m && forall j :: 0 <= j < i ==> KeyOf(key, data[j]) < KeyOf(key, m)
  {
    data[FirstMaxAt(data, key)]
  }

  /** The position of the first element with the largest key. */
  function FirstMaxAt(data: seq<Asset>, key: Key): (i: nat)
    requires |data| > 0
    ensures i < |data|
    ensures forall j :: 0 <= j < |data| ==> KeyOf(key, data[j]) <= KeyOf(key, data[i])
    ensures forall j :: 0 <= j < i ==> KeyOf(key, data[j]) < KeyOf(key, data[i])
  {
    if |data| == 1 then 0
    else
      var i := FirstMaxAt(data[1..], key);
      assert forall j :: 0 < j < |data| ==> data[j] == data[1..][j - 1];
      if KeyOf(key, data[0]) >= KeyOf(key, data[i + 1]) then 0 else i + 1
  }

  /** `filter_by_quintile` (lines 210-219): nothing from nothing; from
      one to four items the single item with the largest key; otherwise
      the items sorted ascending by key (stably), minus those below the
      cut-off `indices[min_quintile - 1]`. That subscript follows
      Python's indexing, so it raises `IndexError` out of range. */
  function FilterByQuintile(data: seq<Asset>, key: Key, minQuintile: int, nbins: nat): (r: Result<seq<Asset>>)
    ensures r.Failure? <==> |data| >= 5 && Index(minQuintile - 1, nbins + 1).None?
    ensures r.Failure? ==> r.error == IndexError
    ensures |data| == 0 ==> r == Success([])
    ensures 0 < |data| < 5 ==> r == Success([FirstMax(data, key)])
    ensures r.Success? && |data| >= 5 ==>
      var sorted := Sorting.Sort(Ascending(key), data);
      var cut := QuintileIndices(|data|, nbins)[Index(minQuintile - 1, nbins + 1).value];
      && r.value == SliceFrom(sorted, cut)
      && Sorting.SortedBy(Ascending(key), r.value)
      && multiset(r.value) <= multiset(data)
      && (forall i, j :: 0 <= i < |r.value| && 0 <= j < cut && j < |sorted| ==>
            KeyOf(key, sorted[j]) <= KeyOf(key, r.value[i]))
  {
    if |data| == 0 then Success([])
    else if |data| < 5 then Success([FirstMax(data, key)])
    else
      var sorted := Sorting.Sort(Ascending(key), data);
      var indices := QuintileIndices(|sorted|, nbins);
      match Index(minQuintile - 1, |indices|)
      case None => Failure(IndexError)
      case Some(q) =>
        var cut := indices[q];
        AscendingIsTotalPreorder(key);
        Sorting.SortSorted(Ascending(key), data);
        TailFacts(sorted, cut, key);
        Success(SliceFrom(sorted, cut))
  }

  /** A tail of a sorted list is sorted, drawn from the list, and every
      element before the cut sorts no later than any element after it. */
  lemma TailFacts(sorted: seq<Asset>, cut: nat, key: Key)
    requires Sorting.SortedBy(Ascending(key), sorted)
    ensures var t := SliceFrom(sorted, cut);
      && Sorting.SortedBy(Ascending(key), t)
      && multiset(t) <= multiset(sorted)
      && (forall i, j :: 0 <= i < |t| && 0 <= j < cut && j < |sorted| ==> KeyOf(key, sorted[j]) <= KeyOf(key, t[i]))
  {
    var t := SliceFrom(sorted, cut);
    if cut <= |sorted| {
      assert sorted == sorted[..cut] + t;
      forall i, j | 0 <= i < |t| && 0 <= j < cut && j < |sorted|
        ensures KeyOf(key, sorted[j]) <= KeyOf(key, t[i])
      {
        assert t[i] == sorted[cut + i];
      }
    }
  }

  /** With a quintile between 1 and `nbins + 1` and at most five bins'
      worth of cut-offs, the result is exactly the sorted input without
      its first `floor(len·(q−1)/5)` items. */
  lemma QuintileCut(data: seq<Asset>, key: Key, minQuintile: int, nbins: nat)
    requires |data| >= 5
    requires 1 <= minQuintile <= nbins + 1 && minQuintile <= 6
    ensures FilterByQuintile(data, key, minQuintile, nbins).Success?
    ensures var cut := (|data| * (minQuintile - 1)) / 5;
      && cut <= |data|
      && FilterByQuintile(data, key, minQuintile, nbins).value == Sorting.Sort(Ascending(key), data)[cut..]
  {
    var q := minQuintile - 1;
    var sorted := Sorting.Sort(Ascending(key), data);
    assert Index(q, nbins + 1) == Some(q);
    CutFacts(|data|);
    assert QuintileIndices(|sorted|, nbins)[q] == Cut(|data|, q);
    assert FilterByQuintile(data, key, minQuintile, nbins) == Success(SliceFrom(sorted, Cut(|data|, q)));
  }

  /** The liquidity test of line 226. */
  predicate Liquid(a: Asset, minLiquidity: real) {
    a.liquidity >= minLiquidity
  }

  /** The loop of lines 225-229 over the bins in order. */
  function FilterBins(u: seq<seq<Asset>>, nbins: nat, minLiquidity: real, minShareQuintile: int, minChangeQuintile: int)
    : (r: Result<seq<Asset>>)
    ensures r.Success? ==> forall a :: a in r.value ==> Liquid(a, minLiquidity) && exists k :: 0 <= k < |u| && a in u[k]
    ensures r.Success? ==> |r.value| <= TotalCount(u)
    ensures r.Failure? ==> r.error == IndexError && TotalCount(u) > 0
  {
    if |u| == 0 then Success([])
    else
      var liquid := Filter(u[0], (a: Asset) => Liquid(a, minLiquidity));
      match FilterByQuintile(liquid, VolumePctMarketCap, minShareQuintile, nbins)
      case Failure(e) => Failure(e)
      case Success(byShare) =>
        match FilterByQuintile(byShare, VolumeChangePct, minChangeQuintile, nbins)
        case Failure(e) => Failure(e)
        case Success(kept) =>
          match FilterBins(u[1..], nbins, minLiquidity, minShareQuintile, minChangeQuintile)
          case Failure(e) => Failure(e)
          case Success(rest) =>
            QuintileKeeps(liquid, VolumePctMarketCap, minShareQuintile, nbins);
            QuintileKeeps(byShare, VolumeChangePct, minChangeQuintile, nbins);
            assert forall a :: a in rest ==> exists k :: 0 <= k < |u| && a in u[k] by {
              forall a | a in rest ensures exists k :: 0 <= k < |u| && a in u[k] {
                var k :| 0 <= k < |u[1..]| && a in u[1..][k];
                assert a in u[k + 1];
              }
            }
            Success(kept + rest)
  }

  /** What `filter_by_quintile` returns is drawn from its input and is
      never longer. */
  lemma QuintileKeeps(data: seq<Asset>, key: Key, minQuintile: int, nbins: nat)
    requires FilterByQuintile(data, key, minQuintile, nbins).Success?
    ensures var r := FilterByQuintile(data, key, minQuintile, nbins).value;
      && |r| <= |data|
      && forall a :: a in r ==> a in data
  {
    var r := FilterByQuintile(data, key, minQuintile, nbins).value;
    forall a | a in r ensures a in data {
      assert a in multiset(r);
    }
    assert |multiset(r)| <= |multiset(data)| by {
      MultisetSubsetSize(multiset(r), multiset(data));
    }
  }

  lemma MultisetSubsetSize<T>(a: multiset<T>, b: multiset<T>)
    requires a <= b
    ensures |a| <= |b|
  {
    assert b == a + (b - a);
  }

  /** `filter_universe_by_volume_and_liquidity` (lines 206-235): every
      bin's liquid assets, cut by quintile of volume share of market cap
      and then by quintile of volume change, concatenated bin by bin. The
      percentage logged at line 232 divides by the initial count, so an
      empty universe raises `ZeroDivisionError`. */
  function FilterByVolumeAndLiquidity(u: seq<seq<Asset>>, nbins: nat, minLiquidity: real,
                                      minShareQuintile: int, minChangeQuintile: int): (r: Result<seq<Asset>>)
    ensures r.Failure? && r.error == ZeroDivisionError <==> forall k :: 0 <= k < |u| ==> |u[k]| == 0
    ensures r.Failure? ==> r.error == ZeroDivisionError || r.error == IndexError
    ensures r.Success? ==> forall a :: a in r.value ==> Liquid(a, minLiquidity) && exists k :: 0 <= k < |u| && a in u[k]
    ensures r.Success? ==> |r.value| <= TotalCount(u)
  {
    match FilterBins(u, nbins, minLiquidity, minShareQuintile, minChangeQuintile)
    case Failure(e) => Failure(e)
    case Success(out) =>
      if TotalCount(u) == 0 then Failure(ZeroDivisionError) else Success(out)
  }

  /** A bin with at most four liquid assets always contributes, and in
      particular no quintile setting can make a small bin fail. */
  lemma SmallBinsNeverFail(u: seq<seq<Asset>>, nbins: nat, minLiquidity: real, minShareQuintile: int, minChangeQuintile: int)
    requires forall k :: 0 <= k < |u| ==> |u[k]| < 5
    ensures FilterBins(u, nbins, minLiquidity, minShareQuintile, minChangeQuintile).Success?
  {
    if |u| > 0 {
      SmallBinsNeverFail(u[1..], nbins, minLiquidity, minShareQuintile, minChangeQuintile);
    }
  }
}
