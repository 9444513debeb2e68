# Active constraint selection for semi-supervised clustering

This project models the query strategies of `robustclust/active_learning.py`.
Each strategy picks pairs of samples and asks an oracle whether the two
samples belong to the same class. The answers become must-link and
cannot-link constraints.

- `get_constraints` dispatches on the strategy name: `acd`, `mmffqs`, `ffqs`
  or `rand`. Any other name is an assertion failure. It then computes the
  link of each pair from the true labels, flips the links that the error
  mask selects with `2 - 2^link`, and appends the links as a last column.
- `FFQS` (farthest-first query search) repeatedly visits the unassigned point
  farthest from every assigned point. It asks about that point against the
  first member of each neighbourhood, stops at the first "same" answer, and
  places the point in the matched neighbourhood or in a new one. It stops
  when the budget is spent or when there are as many neighbourhoods as
  classes.
- `MMFFQS` (minimax farthest-first) runs `FFQS` first. Then, while budget
  remains, it picks the point outside the skeleton that is least similar to
  the skeleton. It ranks the neighbourhoods by the affinity of their most
  similar member, asks in that order, and relabels the point on the first
  "same" answer.
- `active_class_discovery` walks the merge tree of an agglomerative
  clustering. It ranks the merges by the size of their smaller side, keeps
  those of at least `min_samples`, and asks one random pair across each of
  the first `n` merges. Random pairs pad the rest.

`FFQS`, `MMFFQS`, `active_class_discovery` and `get_constraints` are each
modelled twice:

- as specification functions over sequences;
- as imperative methods over arrays, proved equal to those functions.

The properties of each are lemmas about the functions. The `rand`
strategy has no code of its own beyond one random draw, so it is only the
pairs supplied for that draw.

The model follows the code as written, including three consequences of it:

- `MMFFQS` drops every explored row whose first entry is 0, at line 107. This
  is meant to drop blank rows, but it also drops real queries about point 0.
  When no row survives and budget remains, the skeleton is empty and the
  first round reduces over nothing (`MinimaxSpec.MmffqsFails`).
- The new-neighbourhood branch of `MMFFQS` (lines 141-142) can never run,
  because `k` stays below `num_clus`. A point that matches no
  neighbourhood keeps the label it had: 0 if it was unassigned, or its
  `FFQS` neighbourhood if it was already assigned. This happens, for example,
  to point 0 after its row is dropped at line 107, or to a fallback draw at
  line 121. `MMFFQS` never opens a new neighbourhood
  (`MinimaxSpec.MmffqsSound`).
- `FFQS` counts the questions of its last round even past the budget, but
  writes only the first `n` of them (`Ffqs.FfqsSound`).

Modules:

| module | file | contents |
|---|---|---|
| `Seqs` | `seqs.dfy` | `np.max`, boolean indexing, `setdiff1d`, `unique`, descending argsort |
| `Oracle` | `oracle.dfy` | query rows, the oracle, error values |
| `Neighbourhoods` | `neighbourhoods.dfy` | neighbourhood-label vectors and their invariants |
| `Ffqs` | `ffqs.dfy` | `FFQS` |
| `MinimaxSpec` | `mmffqs_spec.dfy` | `MMFFQS` as functions, with its properties |
| `Minimax` | `mmffqs.dfy` | `MMFFQS` as methods over arrays |
| `Discovery` | `acd.dfy` | `active_class_discovery` |
| `Constraints` | `constraints.dfy` | `get_constraints` |

## Model

| member | source | states |
|---|---|---|
| Seqs.Max | robustclust/active_learning.py:76 | `np.max` of a non-empty vector is one of its entries and no entry exceeds it |
| Seqs.Positive | robustclust/active_learning.py:65 | `ind[nbr_label > 0]` holds exactly the positions whose label is positive |
| Seqs.Outside | robustclust/active_learning.py:114 | the candidates are exactly the indices below N not in the skeleton |
| Seqs.UniqueBelow | robustclust/active_learning.py:108 | the skeleton holds exactly the indices that occur in the explored pairs |
| Seqs.ArgsortDesc | robustclust/active_learning.py:132 | `argsort(-keys)` lists every index once, in non-increasing key order, ties by index |
| Seqs.ArgsortDescOrder | robustclust/active_learning.py:176 | the argsort has no index twice, its keys never increase, and equal keys come in index order |
| Oracle.SameLabel | robustclust/active_learning.py:41 | the link is 0 or 1, and it is 1 exactly when the two true labels are equal |
| Neighbourhoods.Seeded | robustclust/active_learning.py:58-60 | the start vector has the seed in neighbourhood 1 and every other point unassigned |
| Neighbourhoods.SeededInvariants | robustclust/active_learning.py:58-60 | the start vector is gap-free with one neighbourhood and agrees with the true labels |
| Neighbourhoods.Rep | robustclust/active_learning.py:77-78 | `this_hood[0]` is in neighbourhood k, and no earlier point is |
| Neighbourhoods.InUse | robustclust/active_learning.py:111 | `clus` holds exactly the nonzero labels in use, and at most m of them |
| Neighbourhoods.InUseGapFree | robustclust/active_learning.py:111 | for a gap-free vector, `clus` is exactly `1..m` in order |
| Neighbourhoods.MaxGapFree | robustclust/active_learning.py:76 | `np.max(nbr_label)` is the number of neighbourhoods of a gap-free vector |
| Neighbourhoods.CountGapFree | robustclust/active_learning.py:89 | `unique_nbr.size` is the number of neighbourhoods of a gap-free vector |
| Neighbourhoods.RepClassesSize | robustclust/active_learning.py:76-78 | the representatives of distinct neighbourhoods carry pairwise distinct true labels |
| Neighbourhoods.AtMostClasses | robustclust/active_learning.py:89-91 | a consistent gap-free vector has no more neighbourhoods than `num_class` |
| Neighbourhoods.AllAssignedAllClasses | robustclust/active_learning.py:89-91 | once every point is assigned, the neighbourhoods number exactly `num_class`, so `found_all` holds |
| Ffqs.MinDist | robustclust/active_learning.py:70 | `min_dist` is the smallest distance from the candidate to an assigned point, and it is attained |
| Ffqs.Farthest | robustclust/active_learning.py:65-72 | `new_pt` is unassigned, no unassigned point is farther from the assigned ones, and earlier ones are strictly nearer |
| Ffqs.MatchLabel | robustclust/active_learning.py:76-87 | the placed label is the first neighbourhood whose representative shares the true label, or `max + 1` when none does |
| Ffqs.HoodScanRows | robustclust/active_learning.py:74-83 | the inner loop's rows compare `new_pt` with the representatives of 1, 2, ... in order, up to the first match |
| Ffqs.ScanStopsAtFirstSame | robustclust/active_learning.py:76-84 | a round asks at least once, every answer but the last is "different", and the last is "same" exactly when a match exists |
| Ffqs.ScanRowsAnswered | robustclust/active_learning.py:78-80 | every row of a round is a correct oracle answer about `new_pt` and another point |
| Ffqs.PlaceLabelled | robustclust/active_learning.py:84-87 | placing the point keeps the vector gap-free, changes only that point, and opens `max + 1` exactly when nothing matched |
| Ffqs.PlaceKeepsConsistent | robustclust/active_learning.py:84-87 | after placement, two assigned points share a neighbourhood exactly when they share a true label |
| Ffqs.LoopFailsOnlyOnOnePoint | robustclust/active_learning.py:64-72 | the loop can fail only on a single point, with `np.argmax` over no candidates |
| Ffqs.LoopKeepsLabels | robustclust/active_learning.py:64-91 | the loop keeps the label vector gap-free and consistent with the true labels |
| Ffqs.LoopKeepsAssigned | robustclust/active_learning.py:84-87 | a point keeps its neighbourhood once it has one |
| Ffqs.LoopStops | robustclust/active_learning.py:64-91 | the loop ends with the budget spent or every class found |
| Ffqs.LoopBudgetBound | robustclust/active_learning.py:64-87 | each round asks at least one question and opens at most one neighbourhood, so no label exceeds the budget plus one |
| Ffqs.LoopLogsAnswers | robustclust/active_learning.py:78-81 | the loop only appends to the query log, each new row a correct answer about two different points |
| Ffqs.FfqsFails | robustclust/active_learning.py:52-93 | `FFQS` fails exactly when there is one point and a positive budget, and then with the empty-argmax error |
| Ffqs.FfqsSound | robustclust/active_learning.py:52-93 | on success: n rows, written rows are correct answers about distinct points, all n written unless every class was found, labels gap-free and consistent, seed in neighbourhood 1, at most `num_class` neighbourhoods and at most `n_constraints + 1` |
| Ffqs.AskNeighbourhoods | robustclust/active_learning.py:74-83 | the inner loop writes the scan's rows while the budget allows, counts every question, and ends at the matched label |
| Ffqs.Round | robustclust/active_learning.py:65-87 | one pass picks the farthest point, writes its scan, places it, and leaves a state from which the loop has the same outcome |
| Ffqs.Explore | robustclust/active_learning.py:61-91 | the `while` loop on arrays ends in the outcome of the loop function, or fails as it does |
| Ffqs.FFQS | robustclust/active_learning.py:52-93 | the method on arrays returns what the function `Ffqs` specifies |
| MinimaxSpec.Explored | robustclust/active_learning.py:107 | the explored pairs are those of the rows whose first entry is nonzero, and nothing else |
| MinimaxSpec.NonzeroRows | robustclust/active_learning.py:107 | the positions of the rows with a nonzero first entry: all of them and only them, in increasing order |
| MinimaxSpec.ExploredAt | robustclust/active_learning.py:107-109 | `explore_constraints` has one pair per surviving row, in row order, so `query_cnt` is the number of rows with a nonzero first entry |
| MinimaxSpec.Flatten | robustclust/active_learning.py:108 | `reshape(-1)` has both entries of every pair and nothing else |
| MinimaxSpec.MaxAff | robustclust/active_learning.py:116 | `cand_sim_to_skele` is the largest affinity of the candidate to a skeleton point, and it is attained |
| MinimaxSpec.LeastSimilarBelow | robustclust/active_learning.py:114-118 | `q` is outside the skeleton, no candidate is less similar, and earlier candidates are strictly more similar |
| MinimaxSpec.Choose | robustclust/active_learning.py:114-121 | fails exactly when the skeleton is empty and candidates remain; otherwise the least similar candidate outside the skeleton (`LeastSimilarBelow`: the argmin, lowest index on ties), or the draw when none remains |
| MinimaxSpec.BestMember | robustclust/active_learning.py:127-130 | the chosen member is in the neighbourhood, no member is more similar to `q`, and earlier members are strictly less similar |
| MinimaxSpec.RepsBest | robustclust/active_learning.py:124-130 | `ind_vec[k]` is the member of neighbourhood `clus[k]` most similar to `q`, as `BestMember` specifies it |
| MinimaxSpec.SimsAt | robustclust/active_learning.py:129 | `sim_vec[k]` is the affinity of `q` to `ind_vec[k]` |
| MinimaxSpec.Ranked | robustclust/active_learning.py:132-133 | the ranked list has one member per neighbourhood, each a member of a listed neighbourhood |
| MinimaxSpec.RankedOrder | robustclust/active_learning.py:132-133 | the ranked list has non-increasing affinity to `q` and holds exactly the representatives |
| MinimaxSpec.RankedBest | robustclust/active_learning.py:124-133 | the ranked list holds exactly the best member of each neighbourhood, most similar to `q` first |
| MinimaxSpec.RankedScan | robustclust/active_learning.py:134-144 | a round writes no more rows than neighbourhoods or room, at least one if there is a neighbourhood, each about a sample |
| MinimaxSpec.ScanAsked | robustclust/active_learning.py:134-144 | the scan asks `q` against the ranked members in order, all "different" except the last, stopping at "same", the room or the end |
| MinimaxSpec.ScanIs | robustclust/active_learning.py:134-144 | any rows asked that way are the scan |
| MinimaxSpec.Relabel | robustclust/active_learning.py:138-139 | only `q` can change; a final "same" answer gives `q` the label of the member that gave it, and nothing else changes `q` |
| MinimaxSpec.RoundOf | robustclust/active_learning.py:123-144 | a round writes at least one row and at most the room, each a correct answer about `q`, and keeps every assigned label and the invariant |
| MinimaxSpec.RoundRows | robustclust/active_learning.py:134-137 | the rows of a round are between one and the room, each a correct answer about `q` |
| MinimaxSpec.RoundReady | robustclust/active_learning.py:138-142 | a round keeps labels consistent with the true classes, keeps assigned labels, never opens a neighbourhood, and on a "same" answer gives `q` the matched member's existing label |
| MinimaxSpec.MmLoop | robustclust/active_learning.py:112-145 | the loop fails exactly when it must choose with an empty skeleton; on success it logs exactly the remaining budget of correct answers and keeps assigned labels |
| MinimaxSpec.MmAdvance | robustclust/active_learning.py:114-121 | the start of a round fails exactly when the skeleton is empty |
| MinimaxSpec.MmRound | robustclust/active_learning.py:123-145 | a round followed by the rest of the loop succeeds and extends the state |
| MinimaxSpec.Overwrite | robustclust/active_learning.py:136 | rows written from `query_cnt` on replace those rows and leave the others as `FFQS` left them |
| MinimaxSpec.StartReady | robustclust/active_learning.py:104-111 | the label vector of `FFQS` with its labels in use is a valid start for the loop |
| MinimaxSpec.FfqsRowsInRange | robustclust/active_learning.py:104-107 | every row of an `FFQS` matrix is a pair of sample indices |
| MinimaxSpec.SkeletonEmpty | robustclust/active_learning.py:107-108 | the skeleton is empty exactly when no explored pair survived the filter |
| MinimaxSpec.MmffqsFails | robustclust/active_learning.py:96-121 | `MMFFQS` fails exactly when `FFQS` fails, or when budget remains and no row survived the line-107 filter |
| MinimaxSpec.MmffqsSound | robustclust/active_learning.py:96-147 | on success: n pairs of samples, and a label vector that keeps every `FFQS` label, opens no neighbourhood and stays consistent with the true labels |
| Minimax.Representatives | robustclust/active_learning.py:124-130 | the `for` loop computes `ind_vec` and `sim_vec` as the functions `Reps` and `Sims` specify |
| Minimax.RankReps | robustclust/active_learning.py:124-133 | the representatives sorted by `argsort(-sim_vec)` are the ranked list |
| Minimax.AskLoop | robustclust/active_learning.py:134-144 | the ask loop writes rows answering `q` in ranked order, stops as the source does, relabels `q` on "same", and writes the rows from `query_cnt` on |
| Minimax.AskRanked | robustclust/active_learning.py:134-144 | the ask loop's rows are the ranked scan, with the relabelling and the matrix update it implies |
| Minimax.PickPoint | robustclust/active_learning.py:114-121 | the point chosen at the top of the loop is the one `Choose` specifies, or the empty-reduction failure |
| Minimax.PlayRound | robustclust/active_learning.py:123-144 | one round on arrays writes the scan of the ranked members, relabels `q` from it, and updates the matrix in place |
| Minimax.Turn | robustclust/active_learning.py:114-145 | one turn writes at least one row within the budget and leaves a state from which the loop reaches the same result |
| Minimax.Extend | robustclust/active_learning.py:112-145 | the `while` loop on arrays ends in the result of `MmLoop`, and its rows overwrite the matrix from the first explored count on |
| Minimax.MMFFQS | robustclust/active_learning.py:96-147 | the method on arrays returns what the function `Mmffqs` specifies |
| Discovery.Members | robustclust/active_learning.py:167-172 | the members of a tree node are never empty and are all samples |
| Discovery.AtLeast | robustclust/active_learning.py:177-178 | the filter keeps exactly the entries whose merge size reaches the bound |
| Discovery.AtLeastDescending | robustclust/active_learning.py:178 | if the input lists distinct merges in non-increasing size, the filtered list does too |
| Discovery.Pick | robustclust/active_learning.py:183-184 | the pair's first sample is in `group1` of the merge and its second in `group2` |
| Discovery.HistorySided | robustclust/active_learning.py:166-173 | `merge_history` has one entry per merge, and both sides of each are non-empty |
| Discovery.KeptQualifying | robustclust/active_learning.py:176-178 | before the cut, the selection holds every qualifying merge and only those, each once, larger merges first |
| Discovery.SelectionTakesLargest | robustclust/active_learning.py:176-181 | the selected merges qualify, appear once and larger first; a qualifying merge is left out only when all n places went to merges at least as large |
| Discovery.AcdRows | robustclust/active_learning.py:180-189 | n rows; row t crosses the t-th selected merge while there is one, then takes the padding pair; every entry is a sample |
| Discovery.MergeHistory | robustclust/active_learning.py:166-174 | the merge loop computes `merge_history` and `merge_size` as the functions `History` and `Sizes` specify |
| Discovery.FillQueries | robustclust/active_learning.py:180-187 | the query loop and the padding compute the rows the function `Queries` specifies |
| Discovery.ActiveClassDiscovery | robustclust/active_learning.py:150-189 | the method returns what the function `Acd` specifies, failing with fewer than two samples |
| Constraints.Pow2 | robustclust/active_learning.py:46 | `np.power(2, k)` is positive, and it is 1 and 2 for the two link values 0 and 1 |
| Constraints.Flip | robustclust/active_learning.py:46 | `2 - 2^link` maps a link of 0 or 1 to its complement |
| Constraints.Queried | robustclust/active_learning.py:21-38 | on success the strategy returns n rows, each starting with two samples |
| Constraints.RowsObserved | robustclust/active_learning.py:40-48 | success exactly when the strategy succeeds; n rows, each the query row plus a link that is 0 or 1, the true answer unless the mask is set and its complement if it is; 4 columns for `ffqs`, 3 otherwise |
| Constraints.Dispatch | robustclust/active_learning.py:21-38 | exactly the unknown names give `NoSuchMethod`; `rand` always succeeds; `acd` succeeds exactly with at least two samples; `acd` and `rand` return no labels, `ffqs` and `mmffqs` return their label vector |
| Constraints.RunStrategy | robustclust/active_learning.py:21-38 | the method runs the named strategy's method and returns what `Queried` specifies |
| Constraints.GetConstraints | robustclust/active_learning.py:13-49 | the method, with its link array and masked in-place flip, returns what `GetConstraintsOf` specifies |

## Left out

- `pdist` is SciPy's condensed pairwise-distance vector. `pdist_block`, `affinity` and `all_pairwise` come from `robustclust/utils.py`, which is not part of this model. Distances and affinities are inputs: two functions from pairs of sample indices to integers, the affinity independent of the distance.
- `big_constraint_mat`: for `ffqs` and `mmffqs` the model returns the label vector that `all_pairwise` turns into this matrix. It does not build the matrix.
- The agglomerative clustering fit (sklearn) is not modelled. Its merge array `children_` is an input, required to be a valid merge tree for two or more samples. Fewer than two samples fail with `TooFewSamples`.
- No samples: with N = 0, `np.random.randint(N)` at line 60 and `randint(0, N, ...)` at line 34 raise in numpy. The model takes these draws as inputs within range. It therefore requires at least one sample for `ffqs` and `mmffqs`, and for `rand` with a positive budget. It has no failure value for this case, and `Constraints.Dispatch`'s "`rand` always succeeds" holds only among such inputs.
- Randomness is an input:
  - the `FFQS` seed point;
  - the `MMFFQS` fallback points;
  - the two `np.random.choice` draws of each ACD row, given as positions reduced modulo the side's size;
  - the ACD padding pairs;
  - the `rand` pairs;
  - the error mask. The `err_rate` probabilities are not modelled.
- Floating point is not modelled. Distances and affinities are integers, and `FFQS`'s float matrix is a list of integer rows.
- Seqs.ArgsortDesc: orders equal keys by index. numpy's default argsort makes no such promise, so the model fixes one of the orders the source allows.
- The default `n_constraints = N/2` is not modelled, because it is a float in Python 3 and cannot size the matrices. The budget is always a natural number supplied by the caller.
- `data` appears only through its row count, taken as the number of labels in `get_constraints` and as the sample count in active class discovery.
- The unused imports (`matplotlib`, `sklearn.datasets`, `pdist_idx`) and the discarded `astype('int')` at line 105 have no effect and are not modelled.
- Minimax.Representatives: grows `sim_vec` and `ind_vec` as sequences. It does not model the zero-filled arrays that are written in place.
- Discovery.MergeHistory: models `clus_mem` as a sequence of sequences rather than a list of numpy arrays.
- Exceptions are `Failure` values: the `no such method` assertion, `np.argmax` over no candidates and `np.max` over an empty block.
