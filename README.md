# CO2 emissions analysis: grid search and emissions aggregation

A Dafny model of the two pieces of logic in the CO2 emissions analysis
repository. Everything else is left out: the database, HTTP and storage glue
and the repository's estimator classes in `models/custom_estimators`.

- **ARIMA hyperparameter grid search** (`model_trainer/grid_search.py`).
  - `ARIMAGridSearch` stores `range_limit` and generates two candidate lists.
    `pdq` is `itertools.product(range(n), range(n), range(n))`. `seasonal_pdq`
    holds the same triples, each followed by the seasonal period 2.
  - `grid_search` scores every pair of `pdq × seasonal_pdq`, with `pdq` as the
    outer loop. It keeps the running minimum under a strict `<`, so the first
    pair found wins a tie.
  - It returns `{'MAE', 'Params', 'Name': 'ARIMA'}`.
- **CO2 emissions aggregation** (`source/data_collector/data_collector.py`).
  - `_compute_emissions` sums the six polluting energy fields of an
    observation, weighted by `CO2_EMISSIONS_FACTOR`.
  - `_generate_emissions` folds a list of observations into a dictionary
    from timestamp to emissions.
  - Two pure fragments of `_retrieve_energy_data` are modelled as well: the
    removal of the JSONP wrapper (two `str.replace` calls) and the `[-12:]`
    slice.

Files:

- `arith.dfy` (module `Arith`): facts about Euclidean division used by the
  index formulas.
- `parameter_space.dfy` (module `ParameterSpace`): `range`,
  `itertools.product`, the nested-loop cross product, and
  `__generate_combinations_of_parameters`, with its index formula, range,
  completeness and order.
- `grid_search.dfy` (module `GridSearch`): the score type, the running minimum
  as a specification function (`Scan`), and the lemmas about it. It also holds
  the class `ARIMAGridSearch`, whose constructor generates the lists and whose
  `GridSearch` method is the nested loop, proved against `Scan`.
- `data_collector.dfy` (module `DataCollector`): decoded observations,
  `_compute_emissions` with its error cases, `_generate_emissions` as a loop
  proved against the fold `EmissionsOf`, the wrapper cleanup and the
  last-two-hours slice.

Modelling choices:

- Python tuples are sequences of naturals. `()` is `[]`, `pdq` elements are
  `[p, d, q]` and seasonal elements are `[p, d, q, 2]`.
- The estimator is the function parameter `fitAndScore`. It stands for
  `ARIMAEstimator(order, seasonal_order)` followed by `fit`, `predict` and
  `score`, and maps a candidate to a score.
- Scores are `Inf` (the starting `numpy.inf`) or `Fin(r)` for an exact real
  `r`.
- `range(0, range_limit)` is empty for `range_limit <= 0`, as in Python. A
  negative limit therefore behaves like 0, and the lists have
  `max(0, range_limit)³` elements.
- Observations are decoded JSON objects, `map<string, Value>`. A `Value` is a
  number, a string or `null`.
- `observation[key]` on a missing key raises `KeyError`, and multiplying a
  non-number by a factor raises `TypeError`. Both are modelled as `Err`
  results.
- The emissions list is built before `sum` is called, so the error raised is
  that of the first polluting energy, in list order, that is missing or not a
  number.
- A fit failure is not caught. `model.fit` at `model_trainer/grid_search.py:83`
  has no handler, so a failing fit aborts the search. The model follows the
  code and has no skip-and-continue policy. Its estimator is total.
- Likewise, a negative `range_limit` is not rejected up front. It produces an
  empty grid, as Python's `range` does.

## Model

| member | source | states |
|---|---|---|
| ParameterSpace.Width | model_trainer/grid_search.py:47 | The number of values `range(0, range_limit)` yields, which is 0 when `range_limit <= 0`. |
| ParameterSpace.Range | model_trainer/grid_search.py:47 | `range(0, range_limit)`: the values `0, 1, …, n - 1` in order, with `n = Width(range_limit)`. |
| ParameterSpace.SeasonalPeriod | model_trainer/grid_search.py:53 | The seasonal period 2 that every seasonal order carries. |
| ParameterSpace.Row | model_trainer/grid_search.py:80 | The pairs the inner loop visits for one outer element, in the inner list's order. |
| ParameterSpace.Cross | model_trainer/grid_search.py:79-80 | The pairs the two nested loops visit, with the outer loop over the first list. |
| ParameterSpace.Extend | model_trainer/grid_search.py:50 | One round of `itertools.product`: each tuple so far, in order, extended by each element of the next pool. |
| ParameterSpace.Product | model_trainer/grid_search.py:50 | `list(itertools.product(*pools))`: starts from `[()]` and extends by each pool in turn. |
| ParameterSpace.Pdq | model_trainer/grid_search.py:47-50 | `pdq`, the product of three copies of `range(0, range_limit)`. |
| ParameterSpace.SeasonalPdq | model_trainer/grid_search.py:53 | `seasonal_pdq`, each product triple followed by the period 2. |
| ParameterSpace.GenerateCombinations | model_trainer/grid_search.py:42-55 | Both lists have `n³` elements, with `n = max(0, range_limit)`. Every `pdq` element is a triple whose components lie in `[0, n)`. `seasonal_pdq[i]` is `pdq[i]` followed by the period 2. |
| ParameterSpace.PdqLength | model_trainer/grid_search.py:47-50 | `pdq` has `n³` triples. |
| ParameterSpace.PdqAtIndex | model_trainer/grid_search.py:47-50 | Position `i` of `pdq` holds `(i / n², (i / n) % n, i % n)`. |
| ParameterSpace.PdqAt | model_trainer/grid_search.py:47-50 | The same index formula, at every position of `pdq`. |
| ParameterSpace.PdqInRange | model_trainer/grid_search.py:47-50 | Every element of `pdq` is a triple of components in `[0, range_limit)`. |
| ParameterSpace.PdqComplete | model_trainer/grid_search.py:47-50 | Every triple `(p, d, q)` over `range(0, range_limit)` occurs in `pdq`, at position `(p·n + d)·n + q`. |
| ParameterSpace.PdqMember | model_trainer/grid_search.py:47-50 | A tuple is in `pdq` if and only if it is a triple with every component in `[0, range_limit)`. |
| ParameterSpace.ProductIncreasing | model_trainer/grid_search.py:50 | `itertools.product` over strictly increasing pools yields strictly increasing tuples in lexicographic order. Each tuple has one component per pool. |
| ParameterSpace.ExtendIncreasing | model_trainer/grid_search.py:50 | One round of `itertools.product` keeps the tuples strictly increasing and lengthens each by one. |
| ParameterSpace.PdqIncreasing | model_trainer/grid_search.py:50 | `pdq` is strictly increasing in Python's tuple order and has no duplicates. |
| ParameterSpace.SeasonalPdqDistinct | model_trainer/grid_search.py:53 | `seasonal_pdq` has no duplicates. |
| ParameterSpace.CrossLength | model_trainer/grid_search.py:79-80 | The nested loops visit `|pdq| · |seasonal_pdq|` pairs. |
| ParameterSpace.CrossAt | model_trainer/grid_search.py:79-80 | Row-major order: the `k`-th pair visited is `(xs[k / |ys|], ys[k % |ys|])`, with the outer loop over `xs`. |
| ParameterSpace.CrossComplete | model_trainer/grid_search.py:79-80 | Every pair of an outer and an inner element is visited, at index `a·|ys| + b`. |
| ParameterSpace.CrossMember | model_trainer/grid_search.py:79-80 | A pair is visited if and only if its first part is in the outer list and its second part is in the inner list. |
| ParameterSpace.CrossDistinct | model_trainer/grid_search.py:79-80 | When both lists are free of repetitions, no pair is visited twice. |
| ParameterSpace.RowSnoc | model_trainer/grid_search.py:80 | The inner loop extends the current row by one pair at a time. |
| ParameterSpace.CrossSnoc | model_trainer/grid_search.py:79 | The outer loop extends the visited pairs by one full row at a time. |
| GridSearch.Less | model_trainer/grid_search.py:90 | `mae < min_mae` on scores: `Inf < b` is false, `Fin(x) < Inf` is true, and finite scores compare as reals. |
| GridSearch.Start | model_trainer/grid_search.py:75-77 | The state before the loop: `min_mae = inf`, `best_params = ()` and `best_seasonal_params = ()`. |
| GridSearch.Step | model_trainer/grid_search.py:81-93 | One inner-loop iteration. The pair is scored, and the best state is replaced only when the score is strictly smaller. |
| GridSearch.Scan | model_trainer/grid_search.py:75-93 | The state after the loops have scored the given pairs in order, starting from `Start`. |
| GridSearch.Trace | model_trainer/grid_search.py:90-93 | The value of `min_mae` after each iteration. |
| GridSearch.ARIMAGridSearch.constructor | model_trainer/grid_search.py:38-40 | Stores `range_limit` and sets both lists to the generated ones. |
| GridSearch.ARIMAGridSearch.GridSearch | model_trainer/grid_search.py:57-100 | The method's contract states the following. The pairs are scored in `pdq × seasonal_pdq` row-major order. The result is the running minimum of those scores, and the trace of `min_mae` never increases. No pair scores below `MAE`. `MAE` is infinite if and only if every pair scored infinity, and then `Params` is `((), ())`. Otherwise `Params` is drawn from `pdq` and `seasonal_pdq`, and it is the first pair whose score is `MAE`: every earlier pair scored strictly more. `Name` is `'ARIMA'`. |
| GridSearch.Report | model_trainer/grid_search.py:95-98 | The result record has exactly the keys `MAE`, `Params` and `Name`. `Name` is `'ARIMA'`, and `Params` is `(best_params, best_seasonal_params)`. |
| GridSearch.ScanSnoc | model_trainer/grid_search.py:88-93 | Scoring one more pair takes one strict-`<` update step and appends the new `min_mae` to the trace. |
| GridSearch.ScanIsMinimum | model_trainer/grid_search.py:75-91 | After the loop, no scored pair is below `min_mae`. |
| GridSearch.ScanNonIncreasing | model_trainer/grid_search.py:90-91 | `min_mae` after a longer prefix of the pairs is no greater than after a shorter one. |
| GridSearch.TraceNonIncreasing | model_trainer/grid_search.py:90-91 | The trace of `min_mae` has one entry per pair. Each entry is the minimum so far, and the trace never increases. |
| GridSearch.ScanSentinel | model_trainer/grid_search.py:75-93 | `min_mae` stays infinite if and only if every pair scored infinity. In that case the parameters are still `()` and `()`. |
| GridSearch.ScanFirstWinner | model_trainer/grid_search.py:90-93 | Ties go to the first pair. With a finite `min_mae`, the reported pair is a scored pair with that score, and every earlier pair scored strictly more. |
| GridSearch.CandidateCount | model_trainer/grid_search.py:79-80 | The grid has `n³ · n³` pairs. |
| GridSearch.CandidatesDistinct | model_trainer/grid_search.py:79-80 | No pair of the generated grid is scored twice. |
| GridSearch.CandidateMember | model_trainer/grid_search.py:79-80 | A pair is scored if and only if it combines a generated order with a generated seasonal order. |
| GridSearch.SearchOutcome | model_trainer/grid_search.py:75-97 | For the search over `xs × ys`: no pair scores below `MAE`, and `MAE` is infinite exactly when every pair scored infinity, with `Params` `((), ())`. Otherwise `Params` is the first minimal pair, and its parts come from `xs` and `ys`. |
| GridSearch.EmptyGridOutcome | model_trainer/grid_search.py:47-97 | With `range_limit <= 0` the grid is empty and the result is `MAE = inf` with `Params = ((), ())`. |
| DataCollector.Co2EmissionsFactor | source/data_collector/data_collector.py:23-30 | `CO2_EMISSIONS_FACTOR`, the emissions per unit of energy of each source. |
| DataCollector.PollutingEnergies | source/data_collector/data_collector.py:146 | The six polluting energies, in the order the list comprehension visits them. |
| DataCollector.EnergyEmission | source/data_collector/data_collector.py:149 | `observation[energy] * CO2_EMISSIONS_FACTOR[energy]`. It raises `KeyError` for a missing field and `TypeError` for a non-number. |
| DataCollector.EnergyEmissionNum | source/data_collector/data_collector.py:149 | A numeric field contributes its value times its factor. |
| DataCollector.SumEmissions | source/data_collector/data_collector.py:149-151 | `sum` of the per-energy emissions, raising the first per-energy error in list order. |
| DataCollector.ComputeEmissions | source/data_collector/data_collector.py:130-153 | `_compute_emissions(observation)`. |
| DataCollector.Record | source/data_collector/data_collector.py:124-126 | One loop iteration of `_generate_emissions`. `observation['ts']` is looked up first, then the emissions are computed and stored at that timestamp. |
| DataCollector.EmissionsOf | source/data_collector/data_collector.py:122-128 | The dictionary after the loop has run over the list in order, or the first exception raised. |
| DataCollector.ResponsePrefix | source/data_collector/data_collector.py:103 | The JSONP opening `null({"valoresHorariosGeneracion":` that is removed. |
| DataCollector.ResponseSuffix | source/data_collector/data_collector.py:104 | The JSONP closing `});` that is removed. |
| DataCollector.RemoveAll | source/data_collector/data_collector.py:103-104 | `s.replace(pat, '')` for a non-empty `pat`: non-overlapping occurrences are removed from left to right. |
| DataCollector.CleanResponse | source/data_collector/data_collector.py:103-104 | Removes the opening marker everywhere, then the closing marker everywhere. |
| DataCollector.SliceFrom | source/data_collector/data_collector.py:110 | Python's `xs[start:]`: a negative start counts from the end, and the start is clamped to the sequence. |
| DataCollector.ObservationsInTwoHours | source/data_collector/data_collector.py:108-110 | Twelve observations, one every ten minutes, make two hours. |
| DataCollector.FactorTable | source/data_collector/data_collector.py:23-30 | The factors are 0.27, 0.95, 0.37, 0.27, 0.7 and 0.27 for `aut`, `car`, `cc`, `cogenResto`, `gf` and `termRenov`. |
| DataCollector.SumEmissionsCons | source/data_collector/data_collector.py:149-151 | A present numeric field adds its value times its factor to the sum of the remaining energies. |
| DataCollector.ComputeEmissionsIsWeightedSum | source/data_collector/data_collector.py:146-151 | For an observation with a number in each of the six polluting fields, the emissions are exactly `Σ obs[e] · factor[e]` over those six energies. |
| DataCollector.SumEmissionsError | source/data_collector/data_collector.py:149 | The sum succeeds if and only if every listed energy is present with a number. Otherwise the error is `KeyError` or `TypeError` for the first energy that is missing or not a number. |
| DataCollector.ComputeEmissionsError | source/data_collector/data_collector.py:146-151 | `_compute_emissions` succeeds if and only if all six fields hold numbers. Otherwise the error names a polluting energy that really fails and every earlier energy holds a number. It is `KeyError` when that energy is missing and `TypeError` when its value is not a number. |
| DataCollector.SumEmissionsLocal | source/data_collector/data_collector.py:149 | Two observations that agree on the listed energies have the same sum. |
| DataCollector.ComputeEmissionsLocal | source/data_collector/data_collector.py:146-149 | The result, error or value, depends only on the six polluting fields. `ts` and every other field are irrelevant. |
| DataCollector.ComputeEmissionsZero | source/data_collector/data_collector.py:149-151 | All six fields at 0 give 0 emissions. |
| DataCollector.ComputeEmissionsLinear | source/data_collector/data_collector.py:149-151 | Linear in each field: when the other five fields hold numbers, setting field `e` to `x` adds `x · factor[e]` to the emissions with `e` at 0, whatever `e` held before. |
| DataCollector.GenerateEmissions | source/data_collector/data_collector.py:122-128 | The loop returns the fold `EmissionsOf` of the list, either the dictionary or the exception raised. |
| DataCollector.EmissionsErrorSticky | source/data_collector/data_collector.py:124-126 | Once an observation raises, the rest of the list is not looked at. |
| DataCollector.EmissionsError | source/data_collector/data_collector.py:124-126 | No exception is raised if and only if every observation has `ts` and valid energies. Otherwise the exception is that of the first observation that fails: `KeyError('ts')` first, then the emissions error. |
| DataCollector.EmissionsKeys | source/data_collector/data_collector.py:122-128 | The keys are exactly the `ts` values of the list. An empty list gives an empty dictionary. |
| DataCollector.EmissionsLastWins | source/data_collector/data_collector.py:124-126 | The value at a timestamp is the emissions of the last observation carrying it. |
| DataCollector.EmissionsSnoc | source/data_collector/data_collector.py:124-126 | One more observation updates the dictionary at its timestamp. That timestamp is already a key exactly when an earlier observation carries it. |
| DataCollector.EmissionsSize | source/data_collector/data_collector.py:124-126 | The dictionary has at most one entry per observation. It has exactly one per observation if and only if the timestamps are pairwise distinct. |
| DataCollector.RemoveAllNoOccurrence | source/data_collector/data_collector.py:103-104 | `s.replace(pat, '')` returns `s` when `pat` does not occur in it. |
| DataCollector.RemoveAllShortens | source/data_collector/data_collector.py:103-104 | Removal never lengthens the text, and it shortens the text when `pat` occurs. |
| DataCollector.RemoveAllUnchanged | source/data_collector/data_collector.py:103-104 | `s.replace(pat, '') == s` if and only if `pat` does not occur in `s`. |
| DataCollector.RemoveAllSkip | source/data_collector/data_collector.py:103-104 | A prefix in which `pat` starts nowhere is kept as it is. |
| DataCollector.RemoveAllLeading | source/data_collector/data_collector.py:103 | A leading marker in front of a marker-free text is all that is removed. |
| DataCollector.RemoveAllTrailing | source/data_collector/data_collector.py:104 | A trailing border-free marker behind a marker-free text is all that is removed. |
| DataCollector.NotContainsAppend | source/data_collector/data_collector.py:103-104 | Appending text that lacks the marker's last character creates no new occurrence of the marker. |
| DataCollector.CleanResponseUnwraps | source/data_collector/data_collector.py:103-104 | For a body containing neither marker, `'null({"valoresHorariosGeneracion":' + body + '});'` cleans to exactly `body`. |
| DataCollector.CleanResponseKeepsPlainText | source/data_collector/data_collector.py:103-104 | A text containing neither marker comes back unchanged. |
| DataCollector.LastTwoHours | source/data_collector/data_collector.py:110 | `json_data[-12:]` is the suffix of length `min(12, len)`, with order preserved. |
| DataCollector.LastTwoHoursEmissions | source/data_collector/data_collector.py:108-110 | The emissions of the last two hours hold at most twelve timestamps. |

## Left out

- `ARIMAEstimator` is the repository's own class from `models/custom_estimators`, imported at `model_trainer/grid_search.py:2`. Its code is outside the modelled files. Its construction, `fit`, `predict` and `score` (`model_trainer/grid_search.py:81-88`) together become the abstract function `fitAndScore` from a candidate to a score.
- Exceptions raised by `fit`, `predict` and `score` are left out. They propagate out of `grid_search` unhandled. The model's estimator is total, so it has no failing candidate.
- Floating point, NaN scores and the rounding of `sum` are left out. Scores and emissions are exact reals. The sum is built right to left from 0, which equals Python's left-to-right `sum` on reals but not always on floats.
- `warnings.filterwarnings("ignore")` is process-global state and has no effect on the result.
- The abstract base class `GridSearch` (`model_trainer/grid_search.py:9-20`) has no behaviour.
- `ProphetEstimator` is imported but unused by the core.
- `requests.get`, `json.loads`, the `DBConnector` and `insert_data`, `__init__` of `DataCollector`, `retrieve_last_two_hours` and `_generate_previous_day_date` are left out. These are HTTP, JSON decoding, database and wall-clock code. The model takes the response text and the decoded list as inputs.
- JSON booleans, arrays and objects as field values are left out. In Python a boolean field would multiply as 0 or 1.
- `json.loads` decoding errors are left out.
- The insertion order of the emissions dictionary is left out. It is a `map`, which has no order.
- `str.replace` with an empty pattern is left out. Both markers are non-empty.
- `data_collector/data_collector.py` is not part of this model. It is a MongoDB variant of the same collector.
- `model_registry/model_registry.py` is not part of this model. It is SQL, file, serialisation and S3 code.
- GridSearch.ARIMAGridSearch.GridSearch: states its result for any lists held by the object. The empty-grid result for `range_limit <= 0` is stated for the generated lists by `GridSearch.EmptyGridOutcome`, not by the method's contract.
