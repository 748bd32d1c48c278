/**
 * Inputs of the residual-income valuation of one A-share company: the check
 * that a string is an A-share listing code, and the proposal that gathers
 * the 2018 book value and EPS with the 2019-2021 EPS forecasts.
 */
module Rim {
  import opened Wrappers
  import ProfitAbility

  /** The code prefixes of the A-share boards the model accepts. */
  const ListedPrefixes: set<string> := {"000", "002", "300", "600", "603", "608"}

  /** The prefixes among them that are listed in Shanghai. */
  const ShanghaiPrefixes: set<string> := {"600", "603", "608"}

  predicate IsDigit(c: char)
  {
    '0' <= c <= '9'
  }

  /** `str.isdigit` restricted to ASCII: a non-empty string of digits. */
  predicate IsDigits(s: string)
  {
    |s| > 0 && forall i :: 0 <= i < |s| ==> IsDigit(s[i])
  }

  /** `_is_A_list_company_symbol`. */
  predicate IsAListCompanySymbol(code: string)
  {
    IsDigits(code) && |code| == 6 && code[..3] in ListedPrefixes
  }

  /** Every accepted code is six digits, starting with a listed prefix. */
  lemma AcceptedShape(code: string)
    requires IsAListCompanySymbol(code)
    ensures |code| == 6 && code[..3] in ListedPrefixes
    ensures forall i :: 0 <= i < 6 ==> '0' <= code[i] <= '9'
  {
  }

  /** No string of another length is accepted, the empty string included. */
  lemma RejectsOtherLengths(code: string)
    requires |code| != 6
    ensures !IsAListCompanySymbol(code)
  {
  }

  /** Conversely, a listed prefix followed by any three digits is accepted. */
  lemma {:induction false} PrefixAndDigitsAccepted(prefix: string, tail: string)
    requires prefix in ListedPrefixes
    requires |tail| == 3 && IsDigits(tail)
    ensures IsAListCompanySymbol(prefix + tail)
  {
    var code := prefix + tail;
    assert code[..3] == prefix;
    assert IsDigits(prefix);
    forall i | 0 <= i < |code|
      ensures IsDigit(code[i])
    {
      if i >= 3 {
        assert code[i] == tail[i - 3];
      }
    }
  }

  /** The documented examples: a Shenzhen code, and two codes with a suffix. */
  lemma DocumentedExamples()
    ensures IsAListCompanySymbol("300072")
    ensures !IsAListCompanySymbol("300072.SZ")
    ensures !IsAListCompanySymbol("700072.SZ")
  {
    assert "300072"[..3] == "300";
  }

  /**
   * An accepted code gets the Shanghai suffix from the tushare conversion
   * exactly when its prefix is a Shanghai one.
   */
  lemma {:induction false} AcceptedExchange(code: string)
    requires IsAListCompanySymbol(code)
    ensures ProfitAbility.ConvertToTsCode(code) == code + ".SH" <==> code[..3] in ShanghaiPrefixes
    ensures ProfitAbility.ConvertToTsCode(code) == code + ".SZ" <==> code[..3] !in ShanghaiPrefixes
  {
    var p := code[..3];
    assert p[0] == code[0];
    var ts := ProfitAbility.ConvertToTsCode(code);
    assert ts[|code|..] == ts[6..];
    assert (code + ".SH")[6..] == ".SH" && (code + ".SZ")[6..] == ".SZ";
  }

  /** The 2018 row of the indicator table: book value and EPS per share. */
  datatype IndicatorRow = IndicatorRow(bps: Option<real>, eps: Option<real>)

  /** The row of the profit-forecast table: forecast EPS for 2019-2021. */
  datatype ForecastRow = ForecastRow(eps2019: Option<real>, eps2020: Option<real>, eps2021: Option<real>)

  /** The `RimProposal` named tuple. */
  datatype RimProposal = RimProposal(
    code: string,
    bps2018: Option<real>, eps2018: Option<real>,
    eps2019: real, eps2020: real, eps2021: real)

  /** The forecast policy: a missing forecast becomes 0, a present one is kept. */
  predicate FilledFrom(forecast: Option<real>, v: real)
  {
    (forecast == None && v == 0.0) || forecast == Some(v)
  }

  function ZeroIfMissing(x: Option<real>): real
  {
    if x == None then 0.0 else x.value
  }

  /**
   * `build_rim_proposal`: looks the code up in the indicator table, then in
   * the forecast table (a missing row raises `KeyError`), and copies the
   * figures, replacing missing forecasts by zero.
   */
  function BuildRimProposal(code: string, indicators: map<string, IndicatorRow>,
                            forecasts: map<string, ForecastRow>): (r: Result<RimProposal, PyError>)
    requires IsAListCompanySymbol(code)
    ensures r.Failure? <==> code !in indicators || code !in forecasts
    ensures r.Failure? ==> r.error == KeyError(code)
    ensures r.Success? ==>
      r.value.code == code &&
      r.value.bps2018 == indicators[code].bps && r.value.eps2018 == indicators[code].eps &&
      FilledFrom(forecasts[code].eps2019, r.value.eps2019) &&
      FilledFrom(forecasts[code].eps2020, r.value.eps2020) &&
      FilledFrom(forecasts[code].eps2021, r.value.eps2021)
  {
    if code !in indicators then Failure(KeyError(code))
    else if code !in forecasts then Failure(KeyError(code))
    else
      var ind, fc := indicators[code], forecasts[code];
      Success(RimProposal(code, ind.bps, ind.eps,
                          ZeroIfMissing(fc.eps2019), ZeroIfMissing(fc.eps2020), ZeroIfMissing(fc.eps2021)))
  }

  /** With every forecast present, the proposal carries the forecasts unchanged. */
  lemma ProposalKeepsPresentForecasts(code: string, indicators: map<string, IndicatorRow>,
                                      forecasts: map<string, ForecastRow>, e19: real, e20: real, e21: real)
    requires IsAListCompanySymbol(code)
    requires code in indicators
    requires code in forecasts && forecasts[code] == ForecastRow(Some(e19), Some(e20), Some(e21))
    ensures BuildRimProposal(code, indicators, forecasts).Success?
    ensures var p := BuildRimProposal(code, indicators, forecasts).value;
      p.eps2019 == e19 && p.eps2020 == e20 && p.eps2021 == e21
  {
  }
}
