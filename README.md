# Spectral modularity bisection, modelled in Dafny

This project models the `SpectralModularity` class of CDMSuite: Newman's
recursive spectral bisection of a graph into communities.

The class holds Newman's modularity matrix B = A − deg·degᵀ / (2M) of the
graph. It then runs in these steps:

1. It bisects the whole graph by the sign pattern of the leading eigenvector
   of the current matrix.
2. It fine-tunes that split by greedy single-node moves.
3. It labels the two halves 1 and 2.
4. It calls `split` on each half. `split` extracts the submatrix of the
   group and builds its generalised modularity matrix (each row sum taken off
   the diagonal). It bisects and fine-tunes the group the same way. It accepts
   the split only when the leading eigenvalue exceeds `tol` and both sides hold
   at least `MINCn` nodes. On acceptance it gives the new side the next
   community number `MAXK + 1` and recurses on both sides.

The model keeps the source's form: the class, its fields and arrays are
updated in place.

- The matrices are flat row-major `array<real>` buffers, as the `double *`
  buffers of the source are.
- The split is an `array<int>` of ±1 (`si`) and its n-by-2 one-hot encoding
  (`SI`).
- `visited` is an `array<bool>`.
- The vertex labels are the `K` field of the `Vertex` records in an array
  that the object shares with its caller.

Every loop of the source is a `while`/`for` loop with invariants. Methods are
proved against specification functions:

| module | (file) contents |
|---|---|
| `Matrix` (`matrix.dfy`) | row-major index arithmetic, Newman's and the generalised matrix as predicates, and their row-sum and symmetry properties |
| `KeyLists` (`key_lists.dfy`) | key lists with a `dummy` sentinel: positions, count and filtered list |
| `Bisection` (`bisection.dfy`) | sign vectors, the one-hot matrix, the same-side score, the quadratic form and the closed-form flip gain |
| `FineTuning` (`fine_tuning.dfy`) | one greedy round (`maxModularity`), r rounds, and the snapshot rule of `modifySplit` as functions on a `State` value |
| `Spectral` (`spectral_modularity.dfy`) | the class `SpectralModularity`, with one method per function of the source (and a method per loop where that keeps the proofs small) |

The eigensolver is a function parameter `eig(B, n)`. It returns eigenvalues
`d` and eigenvectors `z`. Nothing is assumed of it beyond the lengths of `d`
and `z`. It is not a symmetric eigensolver here: the recursion, the labels,
MAXK and the `specQ` additions stated below are proved for any solver output.

Arithmetic is exact: `real` stands for `double`.

## Model

All source paths are relative to the repository root; the single source file is `CDMSuite/src/SpectralModularity.cpp`.

| member | source | states |
|---|---|---|
| Matrix.NewmanSymmetric | CDMSuite/src/SpectralModularity.cpp:196-207 | Newman's matrix of a symmetric adjacency matrix is symmetric |
| Matrix.GeneralisedProperties | CDMSuite/src/SpectralModularity.cpp:732-740 | every row of the generalised matrix sums to zero, and it is symmetric when B is |
| Matrix.GeneralisedRowPrefix | CDMSuite/src/SpectralModularity.cpp:732-740 | a prefix of a row of the generalised matrix is the same prefix of B, less the row sum once the diagonal is passed |
| KeyLists.FilterKeys | CDMSuite/src/SpectralModularity.cpp:553-564 | the filtered key list holds no `dummy`, and entry a is the key of the a-th non-`dummy` slot |
| KeyLists.FilterSameGroup | CDMSuite/src/SpectralModularity.cpp:553-564 | a vertex is a key of the filtered list exactly when it is a key of the original list |
| KeyLists.PositionOfSlot | CDMSuite/src/SpectralModularity.cpp:542-558 | a key slot i is key number Count(keys[..i]) of the group |
| KeyLists.CountBySide | CDMSuite/src/SpectralModularity.cpp:615-618 | a list whose slot k holds a key exactly when si[k] > 0 (or exactly when si[k] <= 0) has `cp` keys (or `cn` = Ng − `cp`) |
| Bisection.OneHotUnique | CDMSuite/src/SpectralModularity.cpp:298-310 | a sign vector determines its one-hot matrix `SI` |
| Bisection.IndicatorIsScore | CDMSuite/src/SpectralModularity.cpp:333-352 | for one-hot `SI`, sum_k SI_k (B·SI)_k is the sum of B_ij over the pairs on the same side |
| Bisection.QuadIsScore | CDMSuite/src/SpectralModularity.cpp:316-318 | for ±1 s, sum_ij B_ij s_i s_j is twice the same-side sum minus the sum of all entries |
| Bisection.FlipGain | CDMSuite/src/SpectralModularity.cpp:475-511 | for symmetric B and ±1 si, the column-K gain −4·si_K·sum_{k≠K} B_kK si_k equals the change of sum_ij B_ij si_i si_j when si_K is flipped |
| Bisection.GainIsScoreChange | CDMSuite/src/SpectralModularity.cpp:475-511 | that gain is twice the change of the same-side sum (2/NORM times the change of the `deltaModularity` score) |
| Bisection.QuadFlip | CDMSuite/src/SpectralModularity.cpp:482-493 | flipping s_K changes the quadratic form by −2·s_K times row K plus column K, without the diagonal |
| Bisection.Flipped | CDMSuite/src/SpectralModularity.cpp:458-469 | the flipped vector differs from s at K only, where a ±1 entry changes sign |
| FineTuning.ScoresAreFlipChanges | CDMSuite/src/SpectralModularity.cpp:431-445 | for a symmetric matrix and a sign vector, `qstored[k]` of an unvisited node is twice the change its move makes to the same-side sum of the split |
| FineTuning.BestIsBestMove | CDMSuite/src/SpectralModularity.cpp:447-456 | the scan finds the first index of the strictly largest positive score, or −1 and 0 when no score is positive |
| FineTuning.BestMoveUnique | CDMSuite/src/SpectralModularity.cpp:447-456 | that index and value are determined by the scores |
| FineTuning.StepSpec | CDMSuite/src/SpectralModularity.cpp:421-472 | one round moves the best unvisited node with positive gain and marks it visited, and changes nothing else; with no such node nothing changes and `qmax` is 0; one-hot consistency is kept |
| FineTuning.StepRaisesScore | CDMSuite/src/SpectralModularity.cpp:421-472 | for a symmetric matrix, a round that moves a node raises the same-side sum by half the gain it reports, hence strictly |
| FineTuning.Move | CDMSuite/src/SpectralModularity.cpp:458-469 | a move flips `si[k]`, rewrites row k of `SI`, marks k visited and leaves every other entry alone |
| FineTuning.ChoiceUnvisited | CDMSuite/src/SpectralModularity.cpp:435-456 | a round moves an unvisited node or none |
| FineTuning.RoundsFrame | CDMSuite/src/SpectralModularity.cpp:381-404 | over any number of rounds `visited` only grows, a node whose side changed is visited, and one-hot consistency is kept |
| FineTuning.StuckOrGrows | CDMSuite/src/SpectralModularity.cpp:381-404 | either no round up to r moved a node, or later rounds end with more nodes visited |
| FineTuning.SnapshotRoundRises | CDMSuite/src/SpectralModularity.cpp:385-395 | the kept split is the entry split or the state after a round whose gain beat the gain of the round before |
| FineTuning.SnapshotRoundIsLast | CDMSuite/src/SpectralModularity.cpp:385-395 | no later round among the first countmax rises again |
| FineTuning.SearchResult | CDMSuite/src/SpectralModularity.cpp:362-414 | the loop variables of `modifySplit` after countmax passes are: `visited` after countmax + 1 rounds, and the split after the snapshot round |
| FineTuning.PassFacts | CDMSuite/src/SpectralModularity.cpp:362-414 | after `modifySplit` the split stays one-hot, visited marks stay, a node changes side only if it was unvisited and is now visited, the number of marks never drops, and a call that marks no new node changes nothing |
| FineTuning.CountTrueGrows | CDMSuite/src/SpectralModularity.cpp:459 | marking nodes never lowers the number of visited nodes, and marking a new one raises it |
| Spectral.LeadingIndex | CDMSuite/src/SpectralModularity.cpp:247-254 | the eigenvalue scan returns the first index of a largest eigenvalue |
| Spectral.Fabs | CDMSuite/src/SpectralModularity.cpp:592 | `fabs(x)` is non-negative and equal to x or −x |
| Spectral.ModularityScales | CDMSuite/src/SpectralModularity.cpp:354 | the reported score is NORM times the indicator sum |
| Spectral.ScoreOfIndicator | CDMSuite/src/SpectralModularity.cpp:319-356 | for a one-hot `SI` the reported score is NORM times the same-side sum of the split |
| Spectral.InitialOf | CDMSuite/src/SpectralModularity.cpp:277-313 | the split `maximiseIndexVectors` reads off u, with `visited` cleared, is the entry state `Initial(u)` of both fine-tuning loops |
| Spectral.PassOfLaws | CDMSuite/src/SpectralModularity.cpp:362-414 | `modifySplit(n)` keeps the shape and the one-hot encoding, only adds marks, changes a side only at a node it marks, and leaves the state as it was when it marks no new node |
| Spectral.PassGoesOn | CDMSuite/src/SpectralModularity.cpp:602-608 | a pass that does not break continues the loop from the split `modifySplit` left, with its score and with diff the absolute change; and it marked a new node unless the score moved by at most tol |
| Spectral.PassStops | CDMSuite/src/SpectralModularity.cpp:89-94 | a top-level pass scoring below 0 ends the loop at once, keeping the score from before the pass |
| Spectral.TuneIdle | CDMSuite/src/SpectralModularity.cpp:600-611 | a fine-tuning loop runs no pass exactly when its first test fails, and then changes nothing |
| Spectral.TunePasses | CDMSuite/src/SpectralModularity.cpp:600-611 | a fine-tuning loop ends: it runs at most one pass more than there are unmarked nodes |
| Spectral.TuneKeeps | CDMSuite/src/SpectralModularity.cpp:600-611 | the loop keeps the one-hot encoding and the marks, and moves only nodes it marks |
| Spectral.TuneLastPass | CDMSuite/src/SpectralModularity.cpp:600-611 | after a pass, the final split is one pass from the split before it |
| Spectral.TuneStops | CDMSuite/src/SpectralModularity.cpp:600-611 | unless it broke, the loop ends on the score of its split, and the previous score is that of the split one pass earlier |
| Spectral.TuneSettles | CDMSuite/src/SpectralModularity.cpp:600-611 | unless it broke, a loop that ran a pass ends with its last two scores within tol |
| Spectral.TuneBreaks | CDMSuite/src/SpectralModularity.cpp:87-100 | only the top-level loop breaks, on a split scoring below 0, and then keeps the non-negative score of the split one pass earlier |
| Spectral.SplitTuningPasses | CDMSuite/src/SpectralModularity.cpp:592-611 | the loop of `split` runs no pass exactly when fabs of the entry score is at most tol, and then keeps the entry split; it runs at most (unmarked nodes) + 1 passes |
| Spectral.SplitTuningKeeps | CDMSuite/src/SpectralModularity.cpp:600-611 | the split the loop of `split` leaves is one-hot, keeps the entry marks, and differs from the entry split only at marked nodes |
| Spectral.SplitTuningStops | CDMSuite/src/SpectralModularity.cpp:600-611 | the loop of `split` never breaks, and `deltaQ_old` ends as the score of the final split |
| Spectral.SplitTuningLast | CDMSuite/src/SpectralModularity.cpp:600-611 | after a pass, the final split of `split` is `modifySplit` applied to the split before it, and the previous score is that split's score |
| Spectral.SplitTuningSettles | CDMSuite/src/SpectralModularity.cpp:600-611 | after a pass, the last two scores of `split` differ by at most tol |
| Spectral.SplitTuned | CDMSuite/src/SpectralModularity.cpp:580-611 | from the split of the eigenvector, the loop of `split` ends on the score of its split after at most Ng + 1 passes |
| Spectral.TopTuningPasses | CDMSuite/src/SpectralModularity.cpp:80-100 | the top-level loop runs no pass exactly when the entry score itself is at most tol, and then keeps the entry split; it runs at most (unmarked nodes) + 1 passes |
| Spectral.TopTuningKeeps | CDMSuite/src/SpectralModularity.cpp:87-100 | the split the top-level loop leaves is one-hot, keeps the entry marks, and differs from the entry split only at marked nodes |
| Spectral.TopTuningLast | CDMSuite/src/SpectralModularity.cpp:87-100 | after a pass, the final top-level split is `modifySplit` applied to the split before it |
| Spectral.TopTuningScores | CDMSuite/src/SpectralModularity.cpp:87-100 | unless it broke, `deltaQ_old` ends as the score of the final split, and the previous score is the score of the split one pass earlier |
| Spectral.TopTuningSettles | CDMSuite/src/SpectralModularity.cpp:87-100 | unless it broke, after a pass the last two top-level scores differ by at most tol |
| Spectral.TopTuningBreaks | CDMSuite/src/SpectralModularity.cpp:87-100 | after a break the final split scores below 0, while the score kept is the non-negative score of the split one pass earlier |
| Spectral.TopTuned | CDMSuite/src/SpectralModularity.cpp:70-100 | from the split of the eigenvector, the top-level loop either ends on the score of its split or breaks on a negative one keeping a non-negative score, after at most N + 1 passes |
| Spectral.NoneMarked | CDMSuite/src/SpectralModularity.cpp:86 | a cleared `visited` marks no node |
| Spectral.LeadingPairUnique | CDMSuite/src/SpectralModularity.cpp:247-261 | the solver output determines the eigenvalue and eigenvector `calculateEigenVectors` takes |
| Spectral.LeadingUnique | CDMSuite/src/SpectralModularity.cpp:247-254 | the first index of a largest eigenvalue is unique |
| Spectral.ZeroSymmetric | CDMSuite/src/SpectralModularity.cpp:150-175 | the zero-filled matrices of `assignSpace` are symmetric |
| Spectral.RestrictsSymmetric | CDMSuite/src/SpectralModularity.cpp:539-550 | the group matrix, a restriction of the symmetric `Bgi_temp` to the keys, is symmetric |
| Spectral.DotIsIndicator | CDMSuite/src/SpectralModularity.cpp:346-352 | the flat dot product of `SI` with `SIt = Bgi·SI` is the indicator sum |
| Spectral.SubFromFlat | CDMSuite/src/SpectralModularity.cpp:542-550 | the buffer filled row by row is the submatrix over the key rows and columns, in order |
| Spectral.ExtractRestricts | CDMSuite/src/SpectralModularity.cpp:539-564 | when the input matrix is the top-level B restricted to the keys, so is `Bgii` with the filtered keys |
| Spectral.RestrictsToChild | CDMSuite/src/SpectralModularity.cpp:680-683 | a child key list keeps that restriction on `Bgii` |
| Spectral.RestrictsIdentity | CDMSuite/src/SpectralModularity.cpp:129-132 | the top-level lists `keys_p`/`keys_n` restrict `Bgi_temp` to their keys |
| Spectral.ChildLists | CDMSuite/src/SpectralModularity.cpp:628-677 | in both branches, slot k of `keysi_p` holds the key when si[k] > 0 and slot k of `keysi_n` holds it otherwise; so the children partition the keys, with `cp` and `cn` keys |
| Spectral.LabelsOfRelabel | CDMSuite/src/SpectralModularity.cpp:637-674 | the relabelling changes only labels of group vertices, to the new number |
| Spectral.LabelsWithinTrans | CDMSuite/src/SpectralModularity.cpp:679-683 | label changes confined to the group compose across the two recursive calls |
| Spectral.LabelsWithinParent | CDMSuite/src/SpectralModularity.cpp:679-683 | a change confined to a child list is confined to the parent group |
| Spectral.LabelsWithinFilter | CDMSuite/src/SpectralModularity.cpp:553-564 | a change confined to the filtered keys is confined to the input key list |
| Spectral.LabelsBounded | CDMSuite/src/SpectralModularity.cpp:128-132 | labels in 1..MAXK stay in 1..MAXK' across a split call |
| Spectral.SpectralModularity.constructor | CDMSuite/src/SpectralModularity.cpp:31-54 | for a symmetric adjacency matrix: tol = 0.00001, MINCn = 1, MAXK = 0, specQ = 0, NR_Bgi = N; then Newman's matrix in `Bgi` and `Bgi_temp`, and the object invariant (which includes the symmetry of `Bgi` and `Bgi_temp`) holds |
| Spectral.SpectralModularity.SetupMatrices | CDMSuite/src/SpectralModularity.cpp:182-211 | NORM = 1/(2M); `Bgi` is Newman's matrix of A and the degrees, and `Bgi_temp` is the same |
| Spectral.SpectralModularity.FillNewman | CDMSuite/src/SpectralModularity.cpp:196-207 | every entry k of both buffers is A_ij − deg_i·deg_j·NORM with i = k / Ng and j = k % Ng |
| Spectral.SpectralModularity.CalculateB | CDMSuite/src/SpectralModularity.cpp:705-743 | `Bgi` becomes the generalised matrix of B (B_ij − δ_ij·sum_k B_ik), with NR_Bgi = NC_Bgi = Ng |
| Spectral.SpectralModularity.RowTotal | CDMSuite/src/SpectralModularity.cpp:735 | the inner loop sums row i |
| Spectral.SpectralModularity.CalculateEigenVectors | CDMSuite/src/SpectralModularity.cpp:217-262 | `betai` is the first largest eigenvalue and `u` its eigenvector column, the pair `LeadingPair` names (for Ng = 0, `betai` stays 0) |
| Spectral.SpectralModularity.MaximiseIndexVectors | CDMSuite/src/SpectralModularity.cpp:277-313 | si[k] = −1 exactly when u[k] < 0, else +1, and `SI` is its one-hot encoding |
| Spectral.SpectralModularity.SignsOf | CDMSuite/src/SpectralModularity.cpp:288-296 | the sign loop |
| Spectral.SpectralModularity.IndicatorOf | CDMSuite/src/SpectralModularity.cpp:298-310 | row k of `SI` is (1, 0), or (0, 1) when u[k] < 0 |
| Spectral.SpectralModularity.DeltaModularity | CDMSuite/src/SpectralModularity.cpp:319-356 | `mod` is NORM·sum(SI .* (Bgi·SI)); for one-hot `SI` that is NORM times the same-side sum |
| Spectral.SpectralModularity.IndicatorTotal | CDMSuite/src/SpectralModularity.cpp:333-352 | the two loops compute the indicator sum |
| Spectral.SpectralModularity.Project | CDMSuite/src/SpectralModularity.cpp:333-344 | `SIt` is the n-by-2 product Bgi·SI, flat |
| Spectral.SpectralModularity.ProjectRow | CDMSuite/src/SpectralModularity.cpp:338-341 | `sum1`, `sum2` are row i of Bgi·SI |
| Spectral.SpectralModularity.DotTotal | CDMSuite/src/SpectralModularity.cpp:346-352 | the second loop is the flat dot product |
| Spectral.SpectralModularity.DeltaModularityMax | CDMSuite/src/SpectralModularity.cpp:495-514 | `mod` is the flip gain of node K, read from column K; with FlipGain, the exact change of the quadratic form |
| Spectral.SpectralModularity.MaxModularity | CDMSuite/src/SpectralModularity.cpp:421-472 | the new (si, SI, visited) is one greedy round from the old, and `qmax` is its gain (see StepSpec) |
| Spectral.SpectralModularity.StoreGains | CDMSuite/src/SpectralModularity.cpp:431-445 | `qstored` holds the round's scores |
| Spectral.SpectralModularity.BestIndex | CDMSuite/src/SpectralModularity.cpp:447-456 | the result is the best move of the scores |
| Spectral.SpectralModularity.MoveNode | CDMSuite/src/SpectralModularity.cpp:458-469 | node `ind_max` is moved and marked visited |
| Spectral.SpectralModularity.ModifySplit | CDMSuite/src/SpectralModularity.cpp:362-414 | countmax + 1 rounds run; `visited` is the state after all of them, and `si`/`SI` the state after the snapshot round |
| Spectral.SpectralModularity.ModifyPass | CDMSuite/src/SpectralModularity.cpp:385-402 | one pass of the loop advances the loop state by one pass of the specification |
| Spectral.SpectralModularity.Copy | CDMSuite/src/SpectralModularity.cpp:373-379 | the copy loops copy |
| Spectral.SpectralModularity.ModifySplitEffect | CDMSuite/src/SpectralModularity.cpp:602 | `modifySplit(Ng)` keeps one-hot consistency, only adds visited marks, moves only nodes it marks, and changes nothing when it marks none |
| Spectral.SpectralModularity.FineTunePass | CDMSuite/src/SpectralModularity.cpp:602-604 | one pass: the new split is `Pass` of the entry split, the new score is its score, marks stay, only marked nodes move, and a pass that marks no node keeps the score |
| Spectral.SpectralModularity.ResetVisited | CDMSuite/src/SpectralModularity.cpp:599 | no node is visited |
| Spectral.SpectralModularity.FineTuneSplit | CDMSuite/src/SpectralModularity.cpp:592-611 | the loop of `split` (diff starts at fabs of the score) leaves its split, its score `deltaQ_old`, the score one pass earlier and its pass count as `SplitTuning` of the entry state says; the SplitTuning lemmas give the stopping test, the pass bound and the no-pass case |
| Spectral.SpectralModularity.FineTuneTop | CDMSuite/src/SpectralModularity.cpp:80-100 | the top-level loop (diff starts at the score itself, break on a negative score) leaves its variables as `TopTuning` of the entry state says; the TopTuning lemmas give the stopping tests, the break and the pass bound |
| Spectral.SpectralModularity.CountSides | CDMSuite/src/SpectralModularity.cpp:615-618 | `cp` counts si > 0 and `cn` the rest |
| Spectral.SpectralModularity.Relabel | CDMSuite/src/SpectralModularity.cpp:628-677 | MAXK rises by one; exactly the nodes on the new side (si > 0 for splitP, si < 0 for splitN) get label MAXK; the keys are dealt into the child slots |
| Spectral.SpectralModularity.DealP | CDMSuite/src/SpectralModularity.cpp:637-650 | the splitP loop relabels the si > 0 nodes and moves the others' keys to `keysi_n` |
| Spectral.SpectralModularity.DealN | CDMSuite/src/SpectralModularity.cpp:661-674 | the splitN loop relabels the si < 0 nodes and moves the others' keys to `keysi_p` |
| Spectral.SpectralModularity.LabelTopLevel | CDMSuite/src/SpectralModularity.cpp:108-120 | si > 0 nodes get label 1 and a slot in `keys_p`, the others label 2 and a slot in `keys_n` |
| Spectral.SpectralModularity.Split | CDMSuite/src/SpectralModularity.cpp:520-692 | betai is the leading eigenvalue of the generalised submatrix of the group; the split is accepted exactly when betai > tol and cp, cn ≥ MINCn, where cp counts the positive sides of `SplitTuning` from the leading eigenvector of that matrix and cn = Ng − cp; MAXK rises exactly on acceptance; only labels of group vertices change, and only to numbers above the entry MAXK; `specQ` is unchanged when betai ≤ tol and grows by the tuned score when the split is refused |
| Spectral.SpectralModularity.Prepare | CDMSuite/src/SpectralModularity.cpp:529-572 | the group matrix and keys, then `Bgi` = generalised matrix of the submatrix over the keys, and `betai`, `u` its leading eigenpair |
| Spectral.SpectralModularity.Group | CDMSuite/src/SpectralModularity.cpp:529-564 | Ng is the number of keys; `Bgii` is the submatrix over the key rows and columns, and the list of the calling side holds the filtered keys |
| Spectral.SpectralModularity.CountKeys | CDMSuite/src/SpectralModularity.cpp:529-534 | Ng counts the non-`dummy` slots |
| Spectral.SpectralModularity.ExtractGroup | CDMSuite/src/SpectralModularity.cpp:539-550 | `Bgii` is the row-major Ng-by-Ng submatrix over the key rows and columns, in order |
| Spectral.SpectralModularity.ExtractRow | CDMSuite/src/SpectralModularity.cpp:542-550 | row i of the extraction appends the key-column entries of a key row |
| Spectral.SpectralModularity.ExtractEntry | CDMSuite/src/SpectralModularity.cpp:547-549 | one key entry is stored at position p |
| Spectral.SpectralModularity.FilterInto | CDMSuite/src/SpectralModularity.cpp:556-564 | the filter loop writes the keys without sentinels, in order |
| Spectral.SpectralModularity.Bisect | CDMSuite/src/SpectralModularity.cpp:577-683 | past the eigenvalue test: cp is the number of positive sides of `SplitTuning` from the split of the eigenvector, cn = Ng − cp, and the split is accepted exactly when both are at least MINCn; a refused split adds the tuned score to `specQ` |
| Spectral.SpectralModularity.TunedSides | CDMSuite/src/SpectralModularity.cpp:580-618 | cp counts the positive sides of the fine-tuned split `SplitTuning` of the entry state, cp + cn = Ng, and `specQ` grows by its score |
| Spectral.SpectralModularity.Settle | CDMSuite/src/SpectralModularity.cpp:620-683 | below MINCn on either side nothing changes, `specQ` included; otherwise MAXK rises and only group labels change, to numbers above the entry MAXK |
| Spectral.SpectralModularity.InitialSplit | CDMSuite/src/SpectralModularity.cpp:580-589 | the split from the eigenvector and its score |
| Spectral.SpectralModularity.StartTuning | CDMSuite/src/SpectralModularity.cpp:580-599 | the entry state of a fine-tuning loop is `Initial(u)`, and `deltaQ_old` its score |
| Spectral.SpectralModularity.TuneSplit | CDMSuite/src/SpectralModularity.cpp:580-614 | the loop runs from the split of the eigenvector with `visited` cleared; the result is `SplitTuning` of that state, `specQ` grows by its score, which is the modularity of the final split, after at most Ng + 1 passes |
| Spectral.SpectralModularity.Accept | CDMSuite/src/SpectralModularity.cpp:628-683 | an accepted split raises MAXK and changes only group labels, to numbers above the entry MAXK |
| Spectral.SpectralModularity.SplitChildren | CDMSuite/src/SpectralModularity.cpp:679-683 | both recursive calls, on strictly smaller groups, change only group labels |
| Spectral.SpectralModularity.CalculateSpectralModularity | CDMSuite/src/SpectralModularity.cpp:56-139 | returns 0; MAXK ≥ 2; every vertex ends with a label in 1..MAXK and no other field of a vertex changes |
| Spectral.SpectralModularity.BisectTop | CDMSuite/src/SpectralModularity.cpp:64-103 | `betai`, `u` are the leading eigenpair of `Bgi`, the result is `TopTuning` from the split of u, and `specQ` grows by its score |
| Spectral.SpectralModularity.LabelAndSplit | CDMSuite/src/SpectralModularity.cpp:105-132 | after the labelling and the two calls of `split`, MAXK ≥ 2 and every vertex has a label in 1..MAXK, its other fields unchanged |
| Spectral.SpectralModularity.TuneTop | CDMSuite/src/SpectralModularity.cpp:70-103 | the result is `TopTuning` of the split of the eigenvector; `specQ` grows by its score, which is the modularity of the final split unless the loop broke, and then a non-negative score while the final split scores below 0 |
| Spectral.SpectralModularity.SplitHalves | CDMSuite/src/SpectralModularity.cpp:128-132 | the two calls keep labels in 1..MAXK and change labels only |
| Spectral.SpectralModularity.SetMinCn | CDMSuite/src/SpectralModularity.cpp:745-752 | MINCn takes the new value only when it is in 1..N |
| Spectral.SpectralModularity.SetTol | CDMSuite/src/SpectralModularity.cpp:755-762 | tol takes the new value only when it is non-negative |

## Left out

- The eigensolver (`MatDoub`/`Symmeig`, lines 230-244) is a foreign numerical library. It is the function parameter `eig`. Nothing is assumed of it beyond the lengths of its output, so nothing is proved about the eigenvector beyond its use.
- `Spectral.SpectralModularity.CalculateEigenVectors`: for Ng = 0 the source reads `h.d[0]` of an empty result (line 248). The model keeps the `betai = 0` of line 224 instead, so an empty group is not split.
- Memory management is not modelled. This covers `assignSpace`/`freeSpace`, `malloc`/`free`/`usedBgi` (143-175, 712-730) and the NSIZE stack arrays of the header. Every buffer is a freshly allocated Dafny array of the needed size.
- The no-op statements `visited[Ng];`, `u[Ng];`, `si[Ng];` and `SI[KK];` have no effect and are not modelled.
- The reset of `visited` (lines 86 and 599) is modelled as a freshly allocated all-false array.
- Tracing is left out: `PRINT`, `cout`, `setPrint` (764-769), `printVertices`, and the `sum` of entries in `setupMatrices` (193, 205), which is only printed.
- The default constructor (11-29) builds an object without a graph, on which no other method is defined. It is left out.
- Floating point is not modelled: `double` is exact `real`, so rounding is not modelled. `fabs` is `Fabs`, and `floor(k/Ng)` is integer division.
- `Gsi` in `modifySplit` is a `double` array holding ±1 copies of `si`; it is an `int` array here.
- The `network` type is reduced to the array of `Vertex(id, degree, K)` records; `gg->getN()` is N. The model requires `V[k].id == k`, because labels are written through `V[keys[k]]`. It also requires `dummy` to be outside 0..N−1.
- The constructor requires M > 0, since NORM = 1/(2M).
- `calculateSpectralModularity` requires NR_Bgi = N, the state right after construction. A second call would work on the matrix left by the last `split`.
- The flat single loop of the extraction in `split` (542-550) is modelled as a loop over rows with a loop over columns inside, so the visiting order and the values stored are unchanged.
- The constructor requires a symmetric adjacency matrix, as an undirected graph has. The object invariant carries the symmetry of `Bgi` and `Bgi_temp` from there (Matrix.NewmanSymmetric, Matrix.GeneralisedProperties, Spectral.RestrictsSymmetric). Nothing is assumed of the solver, so the symmetry does not reach the eigenpair.
- Spectral.SpectralModularity.Split: for an accepted split, `specQ` grows by the tuned score plus whatever the two recursive calls add. The model states the no-split and the refused cases only, because stating the accepted case needs a specification function for the whole recursion (Accept and SplitChildren state nothing about `specQ` either).
- Spectral.SpectralModularity.CalculateSpectralModularity: states the labels and MAXK, not `specQ`. That `specQ` equals the modularity of the final partition is not claimed. The code only adds the fine-tuned score of each accepted or refused bisection (103, 614).
