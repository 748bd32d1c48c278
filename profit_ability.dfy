/**
 * Profitability indicators of one listed company: the most recent run of
 * annual ROE, and the year-over-year growth of the gross margin over the
 * most recent run of annual gross margins.
 *
 * A company's series is the column of the financial-indicator table for that
 * company, already in ascending period order (the table's `sort_index`); a
 * missing value (NaN in the table) is `None`.
 */
module ProfitAbility {
  import opened Wrappers
  import opened Seqs

  /** One row of a company's series: period key (e.g. "20181231") and value. */
  datatype Obs = Obs(key: string, value: Option<real>)

  /** A (label, value) pair of the source's result lists, e.g. ("2018", 0.24). */
  datatype Entry = Entry(key: string, value: real)

  /** The dict returned by `calculate_yrs_roe`. */
  datatype RoeReport = RoeReport(yearRoe: seq<Entry>, gmeanRoe: real)

  /** The dict returned by `get_8yrs_mg`. */
  datatype MgReport = MgReport(mgrGmean: real, yearsMgr: seq<Entry>)

  /** The fewest and most ROE years `calculate_yrs_roe` accepts. */
  const MinRoeYears: nat := 4
  const MaxRoeYears: nat := 8
  /** `_get_9yrs_gm` keeps at most this many years, and needs more than `GmYearsFloor`. */
  const MaxGmYears: nat := 9
  const GmYearsFloor: nat := 4

  // ---------------------------------------------------------------------------
  // Stock codes

  /** The tushare code of a stock: Shanghai codes start with '6'. */
  function ConvertToTsCode(code: string): (r: string)
    requires |code| > 0
    ensures code <= r && |r| == |code| + 3
    ensures r[|code|..] == ".SH" <==> code[0] == '6'
    ensures r[|code|..] == ".SH" || r[|code|..] == ".SZ"
  {
    if code[0] == '6' then code + ".SH" else code + ".SZ"
  }

  // ---------------------------------------------------------------------------
  // The newest run of present values

  /**
   * `list(takewhile(not-missing, reversed(s)))`: walking back from the newest
   * row, the rows up to (not including) the first missing value, newest first.
   */
  function LatestRun(s: seq<Obs>): (r: seq<Entry>)
    ensures |r| <= |s|
    ensures forall i :: 0 <= i < |r| ==>
      r[i].key == s[|s| - 1 - i].key && s[|s| - 1 - i].value == Some(r[i].value)
    ensures |r| < |s| ==> s[|s| - 1 - |r|].value == None
    decreases |s|
  {
    if |s| == 0 || s[|s| - 1].value == None then []
    else [Entry(s[|s| - 1].key, s[|s| - 1].value.value)] + LatestRun(s[..|s| - 1])
  }

  /**
   * A missing value truncates the run: with a gap followed by present values
   * only, the run is exactly the rows after the gap; the gap is never skipped.
   */
  lemma {:induction false} LatestRunStopsAtGap(before: seq<Obs>, gap: Obs, after: seq<Obs>)
    requires gap.value == None
    requires forall i :: 0 <= i < |after| ==> after[i].value != None
    ensures |LatestRun(before + [gap] + after)| == |after|
    ensures forall i :: 0 <= i < |after| ==>
      LatestRun(before + [gap] + after)[i] ==
        Entry(after[|after| - 1 - i].key, after[|after| - 1 - i].value.value)
  {
    var s := before + [gap] + after;
    if after != [] {
      var rest := after[..|after| - 1];
      LatestRunStopsAtGap(before, gap, rest);
      assert s[..|s| - 1] == before + [gap] + rest;
    }
  }

  /** The values of a result list, in order. */
  function Values(es: seq<Entry>): seq<real>
  {
    seq(|es|, i requires 0 <= i < |es| => es[i].value)
  }

  // ---------------------------------------------------------------------------
  // ROE

  /**
   * The ROE part of `calculate_yrs_roe` once the company's series is fetched:
   * the newest run of present ROE values, at most `MaxRoeYears` of them, and
   * their geometric mean; `None` when the run has fewer than `MinRoeYears`.
   */
  function RoeWindow(s: seq<Obs>, gmean: seq<real> -> real): (r: Option<RoeReport>)
    ensures r.Some? <==> |LatestRun(s)| >= MinRoeYears
    ensures r.Some? ==>
      var w := r.value.yearRoe;
      MinRoeYears <= |w| <= MaxRoeYears && w <= LatestRun(s) &&
      (|w| == MaxRoeYears || |w| == |LatestRun(s)|) &&
      (forall i :: 0 <= i < |w| ==>
        w[i].key == s[|s| - 1 - i].key && s[|s| - 1 - i].value == Some(w[i].value)) &&
      r.value.gmeanRoe == gmean(Values(w))
  {
    var run := LatestRun(s);
    var w := Truncate(run, MaxRoeYears);
    if |run| >= MinRoeYears then Some(RoeReport(w, gmean(Values(w)))) else None
  }

  /** The whole window is present and stops exactly at a gap, the start, or the cap. */
  lemma RoeWindowIsMaximal(s: seq<Obs>, gmean: seq<real> -> real)
    requires RoeWindow(s, gmean).Some?
    ensures var k := |RoeWindow(s, gmean).value.yearRoe|;
      k == MaxRoeYears || k == |s| || s[|s| - 1 - k].value == None
  {
  }

  /**
   * `calculate_yrs_roe` (and its verbatim copy `calculate_yrs_profitability`):
   * looks up the company's ROE series in `table` under its tushare code.
   */
  function CalculateYrsRoe(code: string, table: map<string, seq<Obs>>, gmean: seq<real> -> real)
    : (r: Result<Option<RoeReport>, PyError>)
    ensures |code| == 0 ==> r == Failure(IndexError)
    ensures |code| > 0 ==>
      (r.Failure? <==> ConvertToTsCode(code) !in table) &&
      (r.Failure? ==> r.error == KeyError(ConvertToTsCode(code))) &&
      (r.Success? ==> r.value == RoeWindow(table[ConvertToTsCode(code)], gmean))
  {
    if |code| == 0 then Failure(IndexError)
    else
      var ts := ConvertToTsCode(code);
      if ts !in table then Failure(KeyError(ts))
      else Success(RoeWindow(table[ts], gmean))
  }

  // ---------------------------------------------------------------------------
  // Gross margin growth

  /** `key[:4]`: the year of a period key. */
  function Year(key: string): string
  {
    if |key| > 4 then key[..4] else key
  }

  /** `(key[:4], value / 100)` for one row; a missing value stays missing. */
  function GmObs(o: Obs): Obs
  {
    Obs(Year(o.key), if o.value == None then None else Some(o.value.value / 100.0))
  }

  /** The margin column with every row turned into `(key[:4], value / 100)`. */
  function GmSeries(s: seq<Obs>): seq<Obs>
  {
    seq(|s|, i requires 0 <= i < |s| => GmObs(s[i]))
  }

  /**
   * `_get_yrs_gm`: the year and the margin as a fraction, for the newest run
   * of present gross margins, newest first.
   */
  function YearsGm(s: seq<Obs>): (r: seq<Entry>)
    ensures |r| <= |s|
    ensures forall i :: 0 <= i < |r| ==> NewestGmRow(s, i, r[i])
    ensures |r| < |s| ==> s[|s| - 1 - |r|].value == None
  {
    GmRunRows(s);
    LatestRun(GmSeries(s))
  }

  /**
   * Entry `i` of a newest-first list: the `i`-th row from the end of `s`,
   * which holds a margin, as `(year, margin / 100)`.
   */
  predicate NewestGmRow(s: seq<Obs>, i: nat, e: Entry)
  {
    i < |s| && s[|s| - 1 - i].value != None &&
    e == Entry(Year(s[|s| - 1 - i].key), s[|s| - 1 - i].value.value / 100.0)
  }

  /** Relates the run over the converted column back to the rows of `s`. */
  lemma GmRunRows(s: seq<Obs>)
    ensures forall i :: 0 <= i < |LatestRun(GmSeries(s))| ==>
      NewestGmRow(s, i, LatestRun(GmSeries(s))[i])
    ensures |LatestRun(GmSeries(s))| < |s| ==> s[|s| - 1 - |LatestRun(GmSeries(s))|].value == None
  {
    var gm := GmSeries(s);
    var r := LatestRun(gm);
    forall i | 0 <= i < |r|
      ensures NewestGmRow(s, i, r[i])
    {
      GmRunRow(s, i);
    }
    if |r| < |s| {
      assert gm[|s| - 1 - |r|] == GmObs(s[|s| - 1 - |r|]);
    }
  }

  lemma GmRunRow(s: seq<Obs>, i: nat)
    requires i < |LatestRun(GmSeries(s))|
    ensures NewestGmRow(s, i, LatestRun(GmSeries(s))[i])
  {
    var gm := GmSeries(s);
    var e := LatestRun(gm)[i];
    var o := s[|s| - 1 - i];
    assert gm[|s| - 1 - i] == GmObs(o);
    assert gm[|s| - 1 - i].value == Some(e.value) && gm[|s| - 1 - i].key == e.key;
  }

  /**
   * `_get_9yrs_gm`: the newest nine years at most; `None` unless MORE than
   * four years were available.
   */
  function Get9YrsGm(yearsGm: seq<Entry>): (r: Option<seq<Entry>>)
    ensures r.Some? <==> |yearsGm| > GmYearsFloor
    ensures r.Some? ==>
      r.value <= yearsGm && |r.value| <= MaxGmYears &&
      (|r.value| == MaxGmYears || r.value == yearsGm)
  {
    var kept := Truncate(yearsGm, MaxGmYears);
    if |yearsGm| > GmYearsFloor then Some(kept) else None
  }

  /** Exactly four years are rejected, although five are accepted. */
  lemma Get9YrsGmRejectsFour(yearsGm: seq<Entry>)
    requires |yearsGm| == 4
    ensures Get9YrsGm(yearsGm) == None
  {
  }

  /** `_sort_9yrs_gm`: oldest first, by reversing the newest-first list. */
  function Sort9YrsGm(lst: Option<seq<Entry>>): (r: Option<seq<Entry>>)
    ensures r.Some? <==> lst.Some?
    ensures r.Some? ==>
      |r.value| == |lst.value| &&
      forall k :: 0 <= k < |r.value| ==> r.value[k] == lst.value[|lst.value| - 1 - k]
  {
    if lst == None then None
    else
      ReversedMirrors(lst.value);
      Some(Reversed(lst.value))
  }

  /** Sorting keeps every entry, each as often as before. */
  lemma Sort9YrsGmPermutes(lst: seq<Entry>)
    ensures multiset(Sort9YrsGm(Some(lst)).value) == multiset(lst)
  {
    ReversedPermutes(lst);
  }

  /** Sorting a sorted list gives the newest-first list back. */
  lemma Sort9YrsGmTwice(lst: Option<seq<Entry>>)
    ensures Sort9YrsGm(Sort9YrsGm(lst)) == lst
  {
    if lst.Some? {
      ReversedInvolution(lst.value);
    }
  }

  /** Growth from `prev` to `cur`, as a fraction of `prev`. */
  function Growth(prev: real, cur: real): real
    requires prev != 0.0
  {
    (cur - prev) / prev
  }

  /** Every value that is divided by in `_calc_8yrs_mg` is nonzero. */
  predicate NonzeroPredecessors(w: seq<Entry>)
  {
    forall i :: 0 <= i < |w| - 1 ==> w[i].value != 0.0
  }

  /**
   * `_calc_8yrs_mg`: the growth rate of every year but the first, labelled
   * with that year; `None` passes through. The margins are Python floats, so
   * a zero margin before the last year raises `ZeroDivisionError`.
   */
  function Calc8YrsMg(lst: Option<seq<Entry>>): (r: Result<Option<seq<Entry>>, PyError>)
    ensures lst.None? ==> r == Success(None)
    ensures lst.Some? ==> (r.Failure? <==> !NonzeroPredecessors(lst.value))
    ensures r.Failure? ==> r.error == ZeroDivisionError
    ensures r.Success? && lst.Some? ==> r.value == Some(GrowthRates(lst.value))
  {
    if lst == None then Success(None)
    else if !NonzeroPredecessors(lst.value) then Failure(ZeroDivisionError)
    else Success(Some(GrowthRates(lst.value)))
  }

  /**
   * The list comprehension of `_calc_8yrs_mg`: for n entries, n-1 rates
   * (none for an empty list); rate `i` carries the year of entry `i+1` and
   * the growth from entry `i` to entry `i+1`.
   */
  function GrowthRates(w: seq<Entry>): (r: seq<Entry>)
    requires NonzeroPredecessors(w)
    ensures |r| == if |w| == 0 then 0 else |w| - 1
    ensures forall i :: 0 <= i < |r| ==> r[i].key == w[i + 1].key
    ensures forall i {:trigger r[i].value} :: 0 <= i < |r| ==>
      r[i].value == Growth(w[i].value, w[i + 1].value)
    decreases |w|
  {
    if |w| < 2 then []
    else GrowthRates(w[..|w| - 1]) + [Entry(w[|w| - 1].key, Growth(w[|w| - 2].value, w[|w| - 1].value))]
  }

  /** The first value compounded by the first `|rates|` growth rates. */
  function Compound(start: real, rates: seq<Entry>): real
  {
    if rates == [] then start
    else Compound(start, rates[..|rates| - 1]) * (1.0 + rates[|rates| - 1].value)
  }

  lemma GrowthStep(prev: real, cur: real)
    requires prev != 0.0
    ensures prev * (1.0 + Growth(prev, cur)) == cur
  {
    var g := (cur - prev) / prev;
    assert g * prev == cur - prev;
    assert prev * (1.0 + g) == prev + g * prev;
  }

  /** Compounding by rates whose `j`-th is the growth from `w[j]` to `w[j+1]`. */
  lemma {:induction false} CompoundReplays(w: seq<Entry>, rates: seq<Entry>, i: nat)
    requires i < |w| && |rates| == |w| - 1
    requires forall j :: 0 <= j < |rates| ==>
      w[j].value != 0.0 && rates[j].value == Growth(w[j].value, w[j + 1].value)
    ensures Compound(w[0].value, rates[..i]) == w[i].value
  {
    if i > 0 {
      CompoundReplays(w, rates, i - 1);
      var prefix := rates[..i];
      assert prefix[..i - 1] == rates[..i - 1];
      assert Compound(w[0].value, prefix) == w[i - 1].value * (1.0 + rates[i - 1].value);
      GrowthStep(w[i - 1].value, w[i].value);
    }
  }

  /**
   * The growth rates reproduce the series: compounding the oldest value by
   * the first `i` rates of `_calc_8yrs_mg` gives the `i`-th value.
   */
  lemma GrowthRatesCompound(w: seq<Entry>, i: nat)
    requires NonzeroPredecessors(w)
    requires i < |w|
    ensures Compound(w[0].value, Calc8YrsMg(Some(w)).value.value[..i]) == w[i].value
  {
    CompoundReplays(w, Calc8YrsMg(Some(w)).value.value, i);
  }

  /**
   * `_calc_gmean_8yrs_mg`: the geometric mean of the growth multipliers minus
   * one, with the growth list passed on unchanged; `None` passes through.
   */
  function CalcGmean8YrsMg(lst: Option<seq<Entry>>, gmean: seq<real> -> real)
    : (r: Option<(real, seq<Entry>)>)
    ensures r.Some? <==> lst.Some?
    ensures r.Some? ==> r.value.1 == lst.value
    ensures r.Some? ==>
      var m := r.value.0 + 1.0;
      m == gmean(seq(|lst.value|, i requires 0 <= i < |lst.value| => 1.0 + lst.value[i].value))
  {
    if lst == None then None
    else
      var w := lst.value;
      Some((gmean(seq(|w|, i requires 0 <= i < |w| => 1.0 + w[i].value)) - 1.0, w))
  }

  /** The window `_calc_8yrs_mg` receives: the kept years, oldest first. */
  function GmWindow(s: seq<Obs>): (r: Option<seq<Entry>>)
    ensures r.Some? <==> |YearsGm(s)| > GmYearsFloor
    ensures r.Some? ==> GmYearsFloor < |r.value| <= MaxGmYears && |r.value| <= |s|
  {
    Sort9YrsGm(Get9YrsGm(YearsGm(s)))
  }

  /** No year of the window divides by zero. */
  predicate GrowthDefined(s: seq<Obs>)
  {
    GmWindow(s).Some? ==> NonzeroPredecessors(GmWindow(s).value)
  }

  /** The `pipe` of `get_8yrs_mg` from the fetched series onward. */
  function MgPipeline(s: seq<Obs>, gmean: seq<real> -> real): (r: Result<Option<(real, seq<Entry>)>, PyError>)
    ensures r.Failure? <==> !GrowthDefined(s)
    ensures r.Failure? ==> r.error == ZeroDivisionError
    ensures r.Success? ==> (r.value.Some? <==> |YearsGm(s)| > GmYearsFloor)
    ensures r.Success? && r.value.Some? ==> GmYearsFloor <= |r.value.value.1| <= MaxGmYears - 1
  {
    match Calc8YrsMg(GmWindow(s))
    case Failure(e) => Failure(e)
    case Success(mg) => Success(CalcGmean8YrsMg(mg, gmean))
  }

  /**
   * Where the pipeline raises, in terms of the series: with `k` kept years,
   * exactly when one of the rows `|s|-k .. |s|-2` holds a zero margin.
   */
  lemma MgPipelineZeroMargin(s: seq<Obs>, gmean: seq<real> -> real)
    requires GmWindow(s).Some?
    ensures var k := |GmWindow(s).value|;
      MgPipeline(s, gmean).Failure? <==> exists j :: 0 <= j < k - 1 && ZeroMarginAt(s, k, j)
  {
    GmWindowRows(s);
    WindowZeroMargin(s, GmWindow(s).value);
  }

  /** A window over the last `|w|` rows has a zero divisor where a row has a zero margin. */
  lemma WindowZeroMargin(s: seq<Obs>, w: seq<Entry>)
    requires forall j :: 0 <= j < |w| ==> GmRow(s, |w|, j, w[j])
    ensures !NonzeroPredecessors(w) <==> exists j :: 0 <= j < |w| - 1 && ZeroMarginAt(s, |w|, j)
  {
    var k := |w|;
    forall j | 0 <= j < k - 1
      ensures w[j].value == 0.0 <==> ZeroMarginAt(s, k, j)
    {
      assert GmRow(s, k, j, w[j]);
    }
    if !NonzeroPredecessors(w) {
      var j :| 0 <= j < k - 1 && w[j].value == 0.0;
      assert ZeroMarginAt(s, k, j);
    }
  }

  /** Row `|s|-k+j`, the `j`-th of the last `k` rows, holds a zero margin. */
  predicate ZeroMarginAt(s: seq<Obs>, k: nat, j: nat)
  {
    k <= |s| && j < k && s[|s| - k + j] == Obs(s[|s| - k + j].key, Some(0.0))
  }

  /**
   * The window fed to the growth computation, in terms of the series: its
   * `k` entries are the last `k` rows, oldest first, all present; it stops
   * at a gap, the start, or the cap of nine.
   */
  lemma GmWindowRows(s: seq<Obs>)
    requires GmWindow(s).Some?
    ensures GmYearsFloor < |GmWindow(s).value| <= MaxGmYears
    ensures |GmWindow(s).value| <= |s|
    ensures var k := |GmWindow(s).value|;
      k == MaxGmYears || k == |s| || s[|s| - 1 - k].value == None
    ensures var w := GmWindow(s).value;
      forall j :: 0 <= j < |w| ==> GmRow(s, |w|, j, w[j])
  {
    var ys := YearsGm(s);
    NewestOldestFirst(ys);
    var w := GmWindow(s).value;
    assert w == Sort9YrsGm(Get9YrsGm(ys)).value;
    var k := |w|;
    assert k <= |ys| <= |s|;
    assert k == MaxGmYears || k == |ys|;
    OldestFirstRows(s, ys, w);
  }

  /** The newest `|w|` entries, reversed, are the last `|w|` rows oldest first. */
  lemma OldestFirstRows(s: seq<Obs>, ys: seq<Entry>, w: seq<Entry>)
    requires |w| <= |ys| <= |s|
    requires forall i :: 0 <= i < |ys| ==> NewestGmRow(s, i, ys[i])
    requires forall j :: 0 <= j < |w| ==> w[j] == ys[|w| - 1 - j]
    ensures forall j :: 0 <= j < |w| ==> GmRow(s, |w|, j, w[j])
  {
    var k := |w|;
    forall j | 0 <= j < k
      ensures GmRow(s, k, j, w[j])
    {
      assert NewestGmRow(s, k - 1 - j, ys[k - 1 - j]);
    }
  }

  /**
   * Entry `j` of a window over the last `k` rows of `s`: row `|s|-k+j`, which
   * holds a margin, as `(year, margin / 100)`.
   */
  predicate GmRow(s: seq<Obs>, k: nat, j: nat, e: Entry)
  {
    k <= |s| && j < k && s[|s| - k + j].value != None &&
    e == Entry(Year(s[|s| - k + j].key), s[|s| - k + j].value.value / 100.0)
  }

  /** The kept years, oldest first, are the newest `k` entries reversed. */
  lemma NewestOldestFirst(ys: seq<Entry>)
    requires Sort9YrsGm(Get9YrsGm(ys)).Some?
    ensures var w := Sort9YrsGm(Get9YrsGm(ys)).value;
      GmYearsFloor < |w| <= MaxGmYears && |w| <= |ys| &&
      (|w| == MaxGmYears || |w| == |ys|) &&
      forall j :: 0 <= j < |w| ==> w[j] == ys[|w| - 1 - j]
  {
    var kept := Get9YrsGm(ys).value;
    var w := Sort9YrsGm(Get9YrsGm(ys)).value;
    assert forall j :: 0 <= j < |w| ==> w[j] == kept[|w| - 1 - j];
  }

  /**
   * What `get_8yrs_mg` reports, in terms of the series: with `k` kept years,
   * entry `j` is the growth from row `|s|-k+j` to row `|s|-k+j+1`, labelled
   * with the later row's year.
   */
  lemma MgPipelineRows(s: seq<Obs>, gmean: seq<real> -> real, m: real, mg: seq<Entry>)
    requires MgPipeline(s, gmean) == Success(Some((m, mg)))
    ensures |mg| + 1 <= |s|
    ensures forall j :: 0 <= j < |mg| ==> MgRow(s, |mg| + 1, j, mg[j])
  {
    MgPipelineRates(s, gmean);
    var w := GmWindow(s).value;
    GmWindowRows(s);
    WindowRates(s, w);
    assert mg == GrowthRates(w) && |mg| + 1 == |w|;
  }

  /** A reported growth list is the growth rates of the window. */
  lemma MgPipelineRates(s: seq<Obs>, gmean: seq<real> -> real)
    requires MgPipeline(s, gmean).Success? && MgPipeline(s, gmean).value.Some?
    ensures GmWindow(s).Some? && NonzeroPredecessors(GmWindow(s).value)
    ensures MgPipeline(s, gmean).value.value.1 == GrowthRates(GmWindow(s).value)
    ensures CalcGmean8YrsMg(Some(MgPipeline(s, gmean).value.value.1), gmean) == Some(MgPipeline(s, gmean).value.value)
  {
  }

  /** The growth list of a window over the last `|w|` rows, row by row. */
  lemma WindowRates(s: seq<Obs>, w: seq<Entry>)
    requires NonzeroPredecessors(w)
    requires forall j :: 0 <= j < |w| ==> GmRow(s, |w|, j, w[j])
    ensures var mg := GrowthRates(w);
      forall j :: 0 <= j < |mg| ==> MgRow(s, |w|, j, mg[j])
  {
    var mg := GrowthRates(w);
    var k := |w|;
    forall j | 0 <= j < |mg|
      ensures MgRow(s, k, j, mg[j])
    {
      MgRowOfWindow(s, k, j, w[j], w[j + 1], mg[j]);
    }
  }

  /** One growth entry computed from two neighbouring window entries. */
  lemma MgRowOfWindow(s: seq<Obs>, k: nat, j: nat, lo: Entry, hi: Entry, e: Entry)
    requires GmRow(s, k, j, lo) && GmRow(s, k, j + 1, hi)
    requires lo.value != 0.0 && e == Entry(hi.key, Growth(lo.value, hi.value))
    ensures MgRow(s, k, j, e)
  {
  }

  /**
   * Entry `j` of a growth list over the last `k` rows of `s`: the growth from
   * row `|s|-k+j` to row `|s|-k+j+1` (margins as fractions), labelled with
   * the later row's year.
   */
  predicate MgRow(s: seq<Obs>, k: nat, j: nat, e: Entry)
  {
    k <= |s| && j + 1 < k &&
    s[|s| - k + j].value != None && s[|s| - k + j + 1].value != None &&
    s[|s| - k + j].value.value != 0.0 &&
    e == Entry(Year(s[|s| - k + j + 1].key),
               Growth(s[|s| - k + j].value.value / 100.0, s[|s| - k + j + 1].value.value / 100.0))
  }

  /** Period keys compare like Python strings: lexicographically. */
  predicate LexLe(a: string, b: string)
    decreases |a|
  {
    |a| == 0 || (|b| > 0 && (a[0] < b[0] || (a[0] == b[0] && LexLe(a[1..], b[1..]))))
  }

  /** Keys in ascending order, as the table's `sort_index` leaves them. */
  predicate PeriodsAscending(s: seq<Obs>)
  {
    forall i, j {:trigger LexLe(s[i].key, s[j].key)} :: 0 <= i < j < |s| ==> LexLe(s[i].key, s[j].key)
  }

  /** Cutting two ordered keys to the same length keeps their order. */
  lemma {:induction false} LexLeTake(a: string, b: string, n: nat)
    requires LexLe(a, b)
    ensures LexLe(if |a| > n then a[..n] else a, if |b| > n then b[..n] else b)
  {
    var ta := if |a| > n then a[..n] else a;
    var tb := if |b| > n then b[..n] else b;
    if |ta| == 0 {
    } else if a[0] < b[0] {
      assert ta[0] == a[0] && tb[0] == b[0];
    } else {
      assert n > 0;
      LexLeTake(a[1..], b[1..], n - 1);
      assert ta[1..] == (if |a[1..]| > n - 1 then a[1..][..n - 1] else a[1..]);
      assert tb[1..] == (if |b[1..]| > n - 1 then b[1..][..n - 1] else b[1..]);
    }
  }

  /** The years of `years_mgr` are in ascending order when the periods are. */
  lemma MgYearsAscending(s: seq<Obs>, gmean: seq<real> -> real, m: real, mg: seq<Entry>)
    requires PeriodsAscending(s)
    requires MgPipeline(s, gmean) == Success(Some((m, mg)))
    ensures forall i, j :: 0 <= i < j < |mg| ==> LexLe(mg[i].key, mg[j].key)
  {
    MgPipelineRates(s, gmean);
    var w := GmWindow(s).value;
    GmWindowRows(s);
    WindowYearsAscending(s, w);
    assert mg == GrowthRates(w);
    forall i, j | 0 <= i < j < |mg|
      ensures LexLe(mg[i].key, mg[j].key)
    {
      assert mg[i].key == w[i + 1].key && mg[j].key == w[j + 1].key;
    }
  }

  /** A window over the last rows of ordered periods has ordered years. */
  lemma WindowYearsAscending(s: seq<Obs>, w: seq<Entry>)
    requires PeriodsAscending(s)
    requires forall j :: 0 <= j < |w| ==> GmRow(s, |w|, j, w[j])
    ensures forall i, j :: 0 <= i < j < |w| ==> LexLe(w[i].key, w[j].key)
  {
    var k := |w|;
    forall i, j | 0 <= i < j < k
      ensures LexLe(w[i].key, w[j].key)
    {
      assert GmRow(s, k, i, w[i]) && GmRow(s, k, j, w[j]);
      var a, b := s[|s| - k + i].key, s[|s| - k + j].key;
      assert LexLe(a, b);
      LexLeTake(a, b, 4);
    }
  }

  /**
   * `get_8yrs_mg`: looks up the company's series under its tushare code and
   * runs the pipeline, reporting the mean growth and the yearly growth list.
   */
  function Get8YrsMg(code: string, table: map<string, seq<Obs>>, gmean: seq<real> -> real)
    : (r: Result<Option<MgReport>, PyError>)
    ensures |code| == 0 ==> r == Failure(IndexError)
    ensures |code| > 0 && ConvertToTsCode(code) !in table ==> r == Failure(KeyError(ConvertToTsCode(code)))
    ensures |code| > 0 && ConvertToTsCode(code) in table ==>
      var s := table[ConvertToTsCode(code)];
      (r.Failure? <==> !GrowthDefined(s)) &&
      (r.Failure? ==> r.error == ZeroDivisionError) &&
      (r.Success? ==> (r.value.Some? <==> |YearsGm(s)| > GmYearsFloor))
    ensures r.Success? && r.value.Some? ==>
      |code| > 0 && ConvertToTsCode(code) in table &&
      MgPipeline(table[ConvertToTsCode(code)], gmean) ==
        Success(Some((r.value.value.mgrGmean, r.value.value.yearsMgr))) &&
      GmYearsFloor <= |r.value.value.yearsMgr| <= MaxGmYears - 1
  {
    if |code| == 0 then Failure(IndexError)
    else
      var ts := ConvertToTsCode(code);
      if ts !in table then Failure(KeyError(ts))
      else
        match MgPipeline(table[ts], gmean)
        case Failure(e) => Failure(e)
        case Success(None) => Success(None)
        case Success(Some(mg)) => Success(Some(MgReport(mg.0, mg.1)))
  }

  /**
   * A report of the pipeline in terms of the company's rows (what
   * `get_8yrs_mg` returns, by its contract): with `k` kept years,
   * `years_mgr[j]` is the growth from row `|s|-k+j` to the next, labelled
   * with the later year; `mgr_gmean` is what `_calc_gmean_8yrs_mg` makes of
   * `years_mgr`; and the years ascend when the periods do.
   */
  lemma MgPipelineReport(s: seq<Obs>, gmean: seq<real> -> real, m: real, ym: seq<Entry>)
    requires MgPipeline(s, gmean) == Success(Some((m, ym)))
    ensures |ym| + 1 <= |s|
    ensures forall j :: 0 <= j < |ym| ==> MgRow(s, |ym| + 1, j, ym[j])
    ensures CalcGmean8YrsMg(Some(ym), gmean) == Some((m, ym))
    ensures PeriodsAscending(s) ==> forall i, j :: 0 <= i < j < |ym| ==> LexLe(ym[i].key, ym[j].key)
  {
    MgPipelineRates(s, gmean);
    MgPipelineRows(s, gmean, m, ym);
    if PeriodsAscending(s) {
      MgYearsAscending(s, gmean, m, ym);
    }
  }
}
