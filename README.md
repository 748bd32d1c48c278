# Profitability windows and RIM inputs of china-aqi/rim, in Dafny

This project models two pure parts of the `rim` stock-analysis repository.

- **Profitability indicators** (`src/business/profit_ability.py`), in module `ProfitAbility` (`profit_ability.dfy`).
  - A company's annual series is a list of `(period key, value or missing)` rows in ascending period order.
  - A missing value (NaN in the source) is `None`, and values are `real`.
  - The model walks back from the newest row and keeps the run of present values. It stops at the first missing one (`LatestRun`).
  - It then caps the run at 8 rows (ROE) or 9 rows (gross margin).
  - A run that is too short is rejected. ROE needs at least 4 rows; the gross margin needs more than 4.
  - For the gross margin, the kept rows are put oldest first. Each year then gets its year-over-year growth `(v[i]-v[i-1])/v[i-1]`, labelled with the later year.
  - A stock code gets its exchange suffix: `.SH` for codes starting with `6`, `.SZ` otherwise.
- **RIM inputs** (`src/rim.py`), in module `Rim` (`rim.dfy`).
  - `IsAListCompanySymbol` is the A-share code validator.
  - `BuildRimProposal` takes the 2018 book value and EPS from the indicator table and the 2019-2021 EPS forecasts from the forecast table. Each missing forecast becomes 0.

The tables are maps. In `Rim` they map a code to one row; in `ProfitAbility` they map a tushare code to the company's whole series (`seq<Obs>`). The operations that raise in Python are modelled as errors in a `Result`: `code[0]` on an empty code raises `IndexError`, `.loc[...]` on a missing key raises `KeyError`, and a growth rate whose previous year's margin is zero raises `ZeroDivisionError` (the margins are Python floats once `iteritems` has yielded them). Module `Wrappers` (`wrappers.dfy`) holds `Option`, `Result` and these errors. Module `Seqs` (`seqs.dfy`) holds Python's `reversed` and the `[0:n]` cap.

Two facts about the code shape the model:

- The code stops the run only at a missing value. It does not check that the periods are consecutive.
- `_get_9yrs_gm` keeps a list only when it has more than 4 entries, so exactly four give `None`, although its doc-comment says that only fewer than four do.

## Model

| member | source | states |
|---|---|---|
| `ProfitAbility.ConvertToTsCode` | src/business/profit_ability.py:14-15 | the code is a prefix of the result; the suffix is `.SH` exactly when the code starts with `6`, and `.SZ` otherwise; requires a non-empty code |
| `ProfitAbility.LatestRun` | src/business/profit_ability.py:31-33 | the result is the newest rows, newest first, all present, with keys and values copied; it ends exactly at the first missing row walking back, or at the start |
| `ProfitAbility.LatestRunStopsAtGap` | src/business/profit_ability.py:32-33 | when a missing row is followed only by present rows, the run is exactly the rows after the gap, newest first; the gap is never skipped |
| `ProfitAbility.RoeWindow` | src/business/profit_ability.py:30-37 | returns a result exactly when the newest present run has at least 4 rows (inclusive); the kept list is the first min(run, 8) rows of the run, newest first, and the mean is gmean of exactly those values |
| `ProfitAbility.RoeWindowIsMaximal` | src/business/profit_ability.py:32-37 | a kept ROE window has 8 rows, or reaches the start of the series, or stops just before a missing row |
| `ProfitAbility.CalculateYrsRoe` | src/business/profit_ability.py:18-37 | an empty code raises IndexError; a tushare code missing from the table raises KeyError for that key; otherwise the result is the ROE window of that company's series |
| `ProfitAbility.YearsGm` | src/business/profit_ability.py:63-76 | entry i is the (i+1)-th newest row, labelled with its key's first four characters, with value margin/100; the list ends exactly at the first missing margin |
| `ProfitAbility.GmRunRows` | src/business/profit_ability.py:73-76 | after every row is converted to (key[:4], value/100), entry i of the run is the (i+1)-th newest raw row, converted; the run still ends at the first raw missing value, since a missing value stays missing |
| `ProfitAbility.Get9YrsGm` | src/business/profit_ability.py:79-91 | returns a list exactly when more than 4 entries are given; that list is a prefix of the input, at most 9 long, and all of the input unless 9 were kept |
| `ProfitAbility.Get9YrsGmRejectsFour` | src/business/profit_ability.py:88-91 | exactly four entries give None |
| `ProfitAbility.Sort9YrsGm` | src/business/profit_ability.py:94-102 | None maps to None; otherwise the result is the reversal: same length, and position k holds input position n-1-k |
| `ProfitAbility.Sort9YrsGmPermutes` | src/business/profit_ability.py:94-102 | the reordered list holds the same entries, each as often as before |
| `ProfitAbility.Sort9YrsGmTwice` | src/business/profit_ability.py:94-102 | applying the reordering twice gives back the input |
| `ProfitAbility.Calc8YrsMg` | src/business/profit_ability.py:105-119 | None passes through; a list fails with ZeroDivisionError exactly when an entry before the last is zero, and otherwise gives its growth rates |
| `ProfitAbility.GrowthRates` | src/business/profit_ability.py:115-118 | n entries give n-1 rates (none for an empty list); rate i carries the year of entry i+1 and the growth (v[i+1]-v[i])/v[i] |
| `ProfitAbility.CompoundReplays` | src/business/profit_ability.py:115-119 | compounding the oldest value by the first i growth rates gives back value i: the rates lose nothing about the window |
| `ProfitAbility.GrowthRatesCompound` | src/business/profit_ability.py:115-119 | the rates computed by `_calc_8yrs_mg` compound back to the series they came from |
| `ProfitAbility.CalcGmean8YrsMg` | src/business/profit_ability.py:122-133 | None passes through; otherwise the growth list is passed on unchanged, and the mean plus one is gmean of the multipliers 1 + rate |
| `ProfitAbility.NewestOldestFirst` | src/business/profit_ability.py:88-102 | the window has 5 to 9 entries: 9, or every available entry; entry j is the (k-j)-th newest, so the window is in ascending period order |
| `ProfitAbility.GmWindowRows` | src/business/profit_ability.py:146-149 | the window over the series is its last k rows, all present, oldest first, as (year, margin/100); it has 9 rows, or reaches the start, or stops just before a missing margin |
| `ProfitAbility.MgPipeline` | src/business/profit_ability.py:146-151 | fails with ZeroDivisionError exactly when the kept window has a zero divisor; otherwise a result exists exactly when the newest run of margins has more than 4 rows, and the growth list then has 4 to 8 entries |
| `ProfitAbility.MgPipelineZeroMargin` | src/business/profit_ability.py:115-119 | with k kept years, the pipeline raises exactly when one of the rows len-k .. len-2 holds a zero margin; a zero in the newest row is harmless |
| `ProfitAbility.GmWindow` | src/business/profit_ability.py:146-149 | a window exists exactly when the newest run of margins has more than 4 rows; it then has 5 to 9 entries and no more than the series has rows (its contents are stated by `GmWindowRows`) |
| `ProfitAbility.MgPipelineRows` | src/business/profit_ability.py:146-152 | for any report (m, rates) of the pipeline, with k = rates + 1, growth entry j is the growth of the margin from row len-k+j to row len-k+j+1, labelled with the later row's year |
| `ProfitAbility.LexLeTake` | src/business/profit_ability.py:75 | cutting two ordered keys to their first n characters keeps them in order |
| `ProfitAbility.WindowYearsAscending` | src/business/profit_ability.py:94-102 | when the period keys are in ascending order, the years of the oldest-first window are in ascending order too |
| `ProfitAbility.MgYearsAscending` | src/business/profit_ability.py:146-152 | for any report of the pipeline, when the period keys are in ascending order, so are the years of `years_mgr` |
| `ProfitAbility.MgPipelineReport` | src/business/profit_ability.py:136-152 | a report (m, years) of the pipeline is made of the rows as `MgPipelineRows` says, m is what `_calc_gmean_8yrs_mg` makes of the years list, and the years ascend when the periods do |
| `ProfitAbility.Get8YrsMg` | src/business/profit_ability.py:136-152 | an empty code raises IndexError; a missing tushare code raises KeyError for that key; a zero divisor in the window raises ZeroDivisionError; otherwise a report exists exactly when more than 4 margins are available, and it is the pipeline's result, `mgr_gmean` and `years_mgr`, with 4 to 8 yearly rates |
| `Seqs.Reversed` | src/business/profit_ability.py:102 | `list(reversed(s))` keeps the length; position by position it is stated by `ReversedAt`, and as a multiset by `ReversedPermutes` |
| `Seqs.Truncate` | src/business/profit_ability.py:35 | `s[0:n] if len(s) > n else s` is the prefix of length min(len(s), n) |
| `Seqs.ReversedAt` | src/business/profit_ability.py:102 | position k of the reversal holds position n-1-k |
| `Seqs.ReversedInvolution` | src/business/profit_ability.py:102 | reversing twice is the identity |
| `Seqs.ReversedPermutes` | src/business/profit_ability.py:102 | reversing keeps the multiset of elements |
| `Rim.IsAListCompanySymbol` | src/rim.py:15-44 | holds exactly for six ASCII digits whose first three are 000, 002, 300, 600, 603 or 608; the two directions are `AcceptedShape` and `PrefixAndDigitsAccepted` |
| `Rim.AcceptedShape` | src/rim.py:42-44 | an accepted code has 6 characters, all ASCII digits, and its first three are 000, 002, 300, 600, 603 or 608 |
| `Rim.PrefixAndDigitsAccepted` | src/rim.py:42-44 | conversely, any of those six prefixes followed by three digits is accepted |
| `Rim.RejectsOtherLengths` | src/rim.py:43 | no string of another length is accepted, the empty string included |
| `Rim.DocumentedExamples` | src/rim.py:27-39 | '300072' is accepted; '300072.SZ' and '700072.SZ' are rejected |
| `Rim.AcceptedExchange` | src/rim.py:42-44 | an accepted code gets `.SH` from the tushare conversion exactly when its prefix is 600, 603 or 608, and `.SZ` otherwise |
| `Rim.BuildRimProposal` | src/rim.py:47-72 | requires a valid code; fails with KeyError exactly when the code is missing from a table; echoes the code, copies bps and eps unchanged, and sets each forecast to 0 when missing and to the forecast itself when present |
| `Rim.ProposalKeepsPresentForecasts` | src/rim.py:65-72 | when all three forecasts are present, the proposal exists and carries them unchanged |

## Left out

- `scipy.stats.gmean` is a floating-point n-th root. It is a parameter `gmean: seq<real> -> real`, and nothing is assumed about its value.
- NaN is `None`, and float values are `real`. There is no rounding, no infinity and no NaN arithmetic.
- ProfitAbility.GrowthRates: defined only on windows with no zero divisor. On the others `Calc8YrsMg` fails with `ZeroDivisionError`, as the source raises. Which rate the source was computing when it raised is not modelled.
- `profit_ability.py` reads its margins through `src.stock_data.read_db`, and that module is not part of this model. If the margin table comes from `get_financial_indicator` as written in `src/rim_db.py:52-54`, the SQL drops rows whose margin is NULL or outside 0..100. The run of margins then never meets a missing value, because a missing year is dropped before the series reaches the modelled code. The model takes any series, so its stop at a gap covers series from other sources. The same filter keeps a margin of exactly 0, although its doc-comment says `<= 0` is dropped. With that table, the `ZeroDivisionError` path can be reached.
- pandas: `.loc`, `sort_index` and `iteritems` are not modelled. A company's series is given as a sequence already in ascending period order. The order matters only to `WindowYearsAscending`, `MgYearsAscending` and `MgPipelineReport`, which take it as a precondition (`PeriodsAscending`).
- The tables are plain maps, and the database reads behind them are not part of this model. This covers `src/rim_db.py`, `src/stock_data/read_db.py` and the `lru_cache` memoisation.
- The date arguments of the table getters (`'2018'`, `'2020-03-12'`, today's date) only select cached tables, so they are not modelled. `calculate_yrs_roe` calls its getter with the company code (`getter(code)`). With a getter shaped like `get_financial_indicator(today)` in `src/rim_db.py`, that code fills the date parameter and only serves as the cache key. `CalculateYrsRoe`'s `table` stands for the table `getter(code)` returns.
- `get_8yrs_mg` ignores its `getter` parameter and always reads the database function. The model takes that table as its argument.
- `year_roe` keeps each row's full period key (for example `"20181231"`), as `calculate_yrs_roe` builds it, and the model does too. The bare years in its doc-comment example are not what the code returns.
- `calculate_yrs_profitability` (lines 40-60) is a verbatim copy of `calculate_yrs_roe`. `CalculateYrsRoe` models both.
- `takewhile` returns a lazy iterator. It is modelled as the list that `_get_9yrs_gm` makes of it.
- `str.isdigit` accepts Unicode digits. The model accepts only ASCII `'0'..'9'`.
- The `AssertionError` on a non-`str` argument of `_is_A_list_company_symbol` is excluded by the types.
- The `assert` of `build_rim_proposal` is its precondition.
- The percentile ranker and the discounted residual-income valuation are not in the modelled files. Nothing of them is modelled.
- `src/business/operating_efficiency.py` is not part of this model. It is unfinished (its helpers are `pass` stubs) and otherwise holds only column sums.
- `src/business/security.py`, `src/business/rim.py`, the HTTP layers (`src/api.py`, `src/api/api.py`, `app.py`, `main.py`) and the crawlers are not part of this model.
- The `__main__` blocks are not modelled, since they only print.
