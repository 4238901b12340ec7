# Instance replacement recommender, modelled in Dafny

This project models the recommendation logic of an AWS instance-compatibility
service (`recommend_instance` in `lambda_infer.py`). The function takes a
current instance type, three resource thresholds (vCPUs, memory in MiB,
GPUs), an instance catalog and a directional interchangeability matrix. It
then:

1. Fails hard when the current instance type is missing from the catalog or
   from the matrix's row index.
2. Collects the targets that the source's matrix row marks true, excluding
   the source itself, in row order.
3. Returns a "no interchangeable instances" result when that list is empty.
4. Keeps the targets that the catalog resolves and that meet every
   threshold. A missing column counts as 0.
5. Scores each kept target by its Euclidean distance to the request, with
   memory in GiB.
6. Returns a "no compatible instance meets requirements" result, carrying
   the requirement, when nothing is kept.
7. Otherwise stable-sorts the kept targets by score and returns the first
   as `best` and the first `top_n` as `top`.

Files and modules:

- `tables.dfy` (`Tables`): the catalog, matrix, requirement, candidate and
  outcome shapes. Each catalog row is a map from column name to integer, read
  through `Field` with a default of 0. `Resolves` is the source's
  `if not inst` test. A name must be present in the catalog and its row must
  be non-empty (an empty dict is falsy in the source).
- `scoring.dfy` (`Scoring`): the score as an exact integer,
  `1024^2 * (dv^2 + dg^2) + dm^2`. This equals `(1024 * distance)^2`. It is
  proved equal to the real-valued squared distance times `1024^2`, and proved
  to order candidates the same way as any non-negative square roots of those
  distances.
- `ranking.dfy` (`Ranking`): the stable sort by score. `InsertionSorted` is the
  sequence specification. `InsertionSort` sorts an array in place and is
  proved to produce exactly that sequence. The lemmas prove that the result:
  - is ordered by score;
  - is a permutation of the input;
  - keeps equal scores in input order;
  - is the only sequence with those properties. Any stable sort by the exact
    score, including the one `recommend_instance` calls, yields the same list
    (in exact arithmetic; see "Left out" for floating-point rounding).
- `recommender.dfy` (`Recommender`): compatible-name collection, the
  candidate loop (`EvaluateCandidates`, proved equal to `Evaluate`), the
  outcome as a function (`Recommendation`) and as a procedure (`Recommend`,
  proved equal to it), and the lemmas describing each outcome.

The catalog and the matrix are parameters, already parsed. The matrix maps a
source name to its row as a sequence of `(target, cell)` pairs, so that the
row order behind the tie-break is explicit. `Outcome` has one variant per
result: `UnknownSource` (the raised error, tagged with which lookup failed),
`NoInterchangeable`, `NoFeasible(required)` and `Ok(current, requested, best, top)`.

The model follows `lambda_infer.py` as written, including these cases:

- A source with no row in the matrix is a hard failure (`UnknownSource`), not
  a "no interchangeable instances" result.
- A catalog row that is present but empty is skipped like a missing one.
- `top_n` follows Python slice semantics for every integer: a negative value
  drops that many candidates from the end.
- A target listed twice in the row is evaluated, and can be returned, once per
  occurrence.

## Model

| member | source | states |
|---|---|---|
| `Scoring.Score` | lambda_infer.py:59-62 | The score is never negative. It is 0 exactly when the spec equals the request in all three resources. |
| `Scoring.ScoreIsScaledDistance` | lambda_infer.py:60-62 | The integer score equals `1024^2` times the exact squared Euclidean distance, with memory divided by 1024 on both sides before differencing. |
| `Scoring.ScoreOrdersLikeDistance` | lambda_infer.py:62 | For any non-negative square roots `d1`, `d2` of two squared distances, comparing scores gives the same `<=` and `==` as comparing `d1` and `d2`. |
| `Ranking.InsertionSortedIsSorted` | lambda_infer.py:75 | The ranking is in non-decreasing score order. |
| `Ranking.InsertionSortedPermutes` | lambda_infer.py:75 | The ranking is a permutation of the candidates. |
| `Ranking.InsertionSortedKeepsRuns` | lambda_infer.py:75 | For every score, the candidates with that score appear in the ranking in their input order. |
| `Ranking.InsertionSortedIsStableSort` | lambda_infer.py:75 | The ranking is a stable sort of its input by score. |
| `Ranking.StableSortUnique` | lambda_infer.py:75 | Two sequences that are ordered by score and agree on every score's run are equal. |
| `Ranking.EveryStableSortIsInsertionSorted` | lambda_infer.py:75 | Any stable sort by score of the candidates equals the model's ranking, so the tie-break is fully determined. |
| `Ranking.InsertLast` | lambda_infer.py:75 | One insertion step in place: the array prefix `a[..i+1]` becomes `a[i]` inserted into `a[..i]`, and the rest is unchanged. |
| `Ranking.InsertionSort` | lambda_infer.py:75 | The in-place sort leaves the array holding exactly `InsertionSorted` of its old contents. |
| `Recommender.CompatibleNames` | lambda_infer.py:37-41 | A name is compatible exactly when the row marks it true and it is not the source. |
| `Recommender.Evaluate` | lambda_infer.py:47-70 | Every candidate comes from a listed name that resolves and meets every threshold, with its spec and score. Every such name yields its candidate. |
| `Recommender.EvaluateCandidates` | lambda_infer.py:47-70 | The append loop returns exactly `Evaluate` of the compatible names, in their order. |
| `Recommender.Recommend` | lambda_infer.py:20-84 | The step-by-step procedure (validation, loop, in-place sort, best/top) returns exactly `Recommendation`'s outcome. |
| `Recommender.UnknownSourceFails` | lambda_infer.py:30-34 | The outcome is a hard failure exactly when the source is missing from the catalog or the matrix, for any requirement and limit. The catalog is checked first. |
| `Recommender.NoInterchangeableExactly` | lambda_infer.py:36-44 | "No interchangeable instances" is returned exactly when the source is known and no cell of its row other than its own is true. |
| `Recommender.NoFeasibleExactly` | lambda_infer.py:47-73 | "None meets requirements", carrying the requirement, is returned exactly when some other target is marked true but none resolves and meets all thresholds. |
| `Recommender.RankedMembers` | lambda_infer.py:75 | Every member of the ranking is one of the evaluated candidates. |
| `Recommender.RecommendedAreFeasible` | lambda_infer.py:38-57 | `best` and each of `top`: is not the source, is marked true in the source's row, resolves in the catalog, meets every threshold, and carries its catalog spec (missing columns as 0) and its score. |
| `Recommender.BestOfOk` | lambda_infer.py:75-76 | The ranking is a stable sort of the candidates in row order. `best` is its head: a candidate that scores no more than any other candidate. |
| `Recommender.TopOfOk` | lambda_infer.py:77 | `top` is a prefix of the ranking, sorted by score. Its length is `min(top_n, count)` for `top_n >= 0`, or `max(0, count + top_n)` otherwise. `top[0] == best` when `top_n >= 1`. |
| `Recommender.ExactMatchRanksFirst` | lambda_infer.py:20-84 | Concrete example: A's row marks A, B and C. C matches the request exactly and B is double it. The outcome is `best = C` and `top = [C, B]`, and A never appears. |
| `Recommender.LimitOneKeepsBest` | lambda_infer.py:76-77 | The same example with `top_n = 1` returns `top = [C]`, equal to `best`. |

## Left out

- Loading the CSVs from S3 (boto3, pandas `read_csv`) is network and foreign-library I/O. The model takes the two tables as parameters.
- `lambda_handler` is request and response glue: parsing the event, defaults, the 400 for missing S3 keys, JSON serialisation, and the catch-all 500.
- The model takes both tables already coerced: catalog cells as integers, matrix cells as booleans, labels as strings. Pandas' own coercions (`applymap(bool)`, NaN truthiness, label stringification) are not modelled.
- The in-place relabelling at lambda_infer.py:24-25 is not modelled. It overwrites the caller's `matrix_df.index` and `.columns` with their string forms, a side effect on the caller's frame that the value-based model does not have.
- The `int()` conversions at lambda_infer.py:52-54 are not modelled. An empty numeric cell is read by pandas as NaN, and `int(nan)` raises `ValueError`. So a call whose loop reaches a target with such a cell fails hard, and the model, whose cells are always integers, cannot produce that failure.
- Duplicate labels are not modelled: duplicate `InstanceType` rows (pandas refuses them) and duplicate matrix index labels (`.loc` then returns a frame). Both tables are maps with unique keys.
- The error message texts are not modelled. Each error is a variant of `Outcome`, and a raised error is the `UnknownSource` variant.
- Scoring.Score: the score is the exact integer `(1024 * distance)^2`, not the floating-point distance. Floating-point `sqrt` and `/1024.0` could round two near-tied distances into a different order than exact arithmetic gives. That rounding is not modelled.
- Recommender.Recommend: the Python list of candidate dicts is a sequence that the loop extends, copied into an array for the in-place sort. List aliasing is not modelled.
