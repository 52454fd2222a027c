// The SpectralModularity class: Newman's recursive spectral bisection.  The
// object holds the current modularity matrix, the split being tuned and the
// counters shared by the whole recursion, and updates them in place as the
// C++ class does.  The symmetric eigensolver is a function parameter.

module Spectral {
  import opened Matrix
  import opened Bisection
  import opened FineTuning
  import opened KeyLists

  /** A vertex of the external graph: its id, its degree and its community
      label `K`. */
  datatype Vertex = Vertex(id: int, degree: nat, K: int)

  function Degrees(vs: seq<Vertex>): (deg: seq<nat>)
    ensures |deg| == |vs| && forall k :: 0 <= k < |vs| ==> deg[k] == vs[k].degree
  {
    seq(|vs|, k requires 0 <= k < |vs| => vs[k].degree)
  }

  /** What the eigensolver returns for an n-by-n matrix: the eigenvalues d and
      the eigenvectors as the columns of z (z[k][i] is entry k of vector i). */
  datatype Spectrum = Spectrum(d: seq<real>, z: seq<seq<real>>)

  type Eigensolver = (seq<real>, nat) -> Spectrum

  /** The only thing assumed of the solver: n eigenvalues and an n-by-n
      eigenvector matrix for an n-by-n input. */
  ghost predicate OracleShaped(eig: Eigensolver)
  {
    forall B: seq<real>, n: nat ::
      |eig(B, n).d| == n && |eig(B, n).z| == n &&
      forall k :: 0 <= k < n ==> |eig(B, n).z[k]| == n
  }

  /** i is the first index of a largest entry of d. */
  ghost predicate IsLeading(d: seq<real>, i: int)
  {
    0 <= i < |d| && (forall j :: 0 <= j < |d| ==> d[j] <= d[i]) && (forall j :: 0 <= j < i ==> d[j] < d[i])
  }

  /** The scan of `calculateEigenVectors` over the eigenvalues: the first
      index holding the largest one. */
  method LeadingIndex(d: seq<real>) returns (indx: nat)
    requires |d| > 0
    ensures IsLeading(d, indx)
  {
    indx := 0;
    var beta := d[0];
    for i := 0 to |d|
      invariant indx < |d| && beta == d[indx]
      invariant indx <= i
      invariant forall j :: 0 <= j < i ==> d[j] <= beta
      invariant forall j :: 0 <= j < indx ==> d[j] < beta
    {
      if d[i] > beta {
        beta := d[i];
        indx := i;
      }
    }
  }

  /** `fabs` */
  function Fabs(x: real): (r: real)
    ensures r >= 0.0 && (r == x || r == -x)
  {
    if x < 0.0 then -x else x
  }

  /** Which recursive branch a call of `split` is (its `sign` argument). */
  datatype Side = SplitP | SplitN

  /** The side that receives the new community number in that branch. */
  predicate OnNewSide(side: Side, s: int)
  {
    if side == SplitP then s > 0 else s < 0
  }

  /** The n-by-n matrix Bg over the key list keys is the top-level matrix B0
      (N-by-N, indexed by vertex id) restricted to the keys of the list. */
  ghost predicate Restricts(Bg: seq<real>, n: nat, keys: seq<int>, B0: seq<real>, N: nat, dummy: int)
  {
    |Bg| == n * n && |keys| == n && |B0| == N * N &&
    (forall k :: 0 <= k < n && keys[k] != dummy ==> 0 <= keys[k] < N) &&
    forall i, j :: 0 <= i < n && 0 <= j < n && keys[i] != dummy && keys[j] != dummy ==>
      At(Bg, n, i, j) == At(B0, N, keys[i], keys[j])
  }

  /** Entry p of the flat Newman matrix. */
  ghost function NewmanFlat(A: seq<real>, deg: seq<nat>, norm: real, n: nat, p: nat): real
    requires |A| == n * n && |deg| == n && p < n * n
  {
    FlatSplit(n, p);
    A[p] - (deg[p / n] * deg[p % n]) as real * norm
  }

  /** Entry p of the flat generalised matrix of B. */
  ghost function GeneralisedFlat(B: seq<real>, n: nat, p: nat): real
    requires |B| == n * n && p < n * n
  {
    FlatSplit(n, p);
    At(B, n, p / n, p % n) - Delta(p / n, p % n) as real * RowSum(B, n, p / n, n)
  }

  lemma NewmanFromFlat(A: seq<real>, deg: seq<nat>, norm: real, B: seq<real>, n: nat)
    requires |A| == n * n && |deg| == n && |B| == n * n
    requires forall p :: 0 <= p < n * n ==> B[p] == NewmanFlat(A, deg, norm, n, p)
    ensures IsNewman(A, deg, norm, B, n)
  {
    forall i, j | 0 <= i < n && 0 <= j < n
      ensures At(B, n, i, j) == At(A, n, i, j) - (deg[i] * deg[j]) as real * norm
    {
      FlatBound(n, i, j);
      FlatDivMod(n, i, j);
      assert B[i * n + j] == NewmanFlat(A, deg, norm, n, i * n + j);
    }
  }

  lemma GeneralisedFromFlat(B: seq<real>, G: seq<real>, n: nat)
    requires |B| == n * n && |G| == n * n
    requires forall p :: 0 <= p < n * n ==> G[p] == GeneralisedFlat(B, n, p)
    ensures IsGeneralised(B, G, n)
  {
    forall i, j | 0 <= i < n && 0 <= j < n
      ensures At(G, n, i, j) == At(B, n, i, j) - Delta(i, j) as real * RowSum(B, n, i, n)
    {
      FlatBound(n, i, j);
      FlatDivMod(n, i, j);
      assert G[i * n + j] == GeneralisedFlat(B, n, i * n + j);
    }
  }

  /** The value `deltaModularity` reports, NORM * sum_k SI_k (B SI)_k,
      accumulated term by term over the first m entries of SI. */
  function Modularity(norm: real, B: seq<real>, n: nat, SI: seq<int>, m: nat): real
    requires |B| == n * n && |SI| == 2 * n && m <= 2 * n
  {
    if m == 0 then 0.0
    else Modularity(norm, B, n, SI, m - 1) + norm * IndicatorTerm(B, n, SI, m - 1)
  }

  /** Taking NORM out of the sum. */
  lemma {:induction false} ModularityScales(norm: real, B: seq<real>, n: nat, SI: seq<int>, m: nat)
    requires |B| == n * n && |SI| == 2 * n && m <= 2 * n
    ensures Modularity(norm, B, n, SI, m) == norm * IndicatorSum(B, n, SI, m)
  {
    if m > 0 {
      ModularityScales(norm, B, n, SI, m - 1);
      ghost var x, y := IndicatorSum(B, n, SI, m - 1), IndicatorTerm(B, n, SI, m - 1);
      assert norm * (x + y) == norm * x + norm * y;
    }
  }

  /** For a one-hot encoded split the reported value is NORM times the
      same-side sum of the split. */
  lemma ScoreOfIndicator(B: seq<real>, n: nat, si: seq<int>, SI: seq<int>, norm: real)
    requires |B| == n * n && |SI| == 2 * n
    ensures |si| == n && OneHot(si, SI) ==> Modularity(norm, B, n, SI, 2 * n) == norm * Score(B, n, si)
  {
    ModularityScales(norm, B, n, SI, 2 * n);
    if |si| == n && OneHot(si, SI) {
      IndicatorIsScore(B, n, si, SI);
    }
  }

  /** The sides `maximiseIndexVectors` reads off the eigenvector u: -1 for
      a negative entry, +1 otherwise. */
  function Signs(u: seq<real>): (s: seq<int>)
    ensures |s| == |u| && IsSign(s)
  {
    seq(|u|, k requires 0 <= k < |u| => SignOf(u[k]))
  }

  /** The n-by-2 indicator rows of a sign vector, flat. */
  function Indicator(s: seq<int>): (S: seq<int>)
    requires IsSign(s)
    ensures OneHot(s, S)
  {
    seq(2 * |s|, p requires 0 <= p < 2 * |s| => if (s[p / 2] == 1) == (p % 2 == 0) then 1 else 0)
  }

  /** The state a fine-tuning loop starts from: the split of the eigenvector
      u, its indicator rows, and no node marked. */
  function Initial(u: seq<real>): (st: State)
    ensures Shaped(st, |u|) && OneHot(st.si, st.SI)
  {
    State(Signs(u), Indicator(Signs(u)), seq(|u|, _ => false))
  }

  /** The split `maximiseIndexVectors` reads off u, with `visited`
      cleared, is the state the fine-tuning loops start from. */
  lemma InitialOf(u: seq<real>, si: seq<int>, SI: seq<int>, vis: seq<bool>)
    requires |si| == |u| && |vis| == |u| && OneHot(si, SI)
    requires forall k :: 0 <= k < |u| ==> si[k] == SignOf(u[k]) && !vis[k]
    ensures State(si, SI, vis) == Initial(u)
  {
    assert si == Signs(u);
    OneHotUnique(si, SI, Indicator(si));
    assert vis == seq(|u|, _ => false);
  }

  /** The variables of a fine-tuning loop: the current state and the one
      before the last pass, the score `deltaQ_old` and the score before it,
      the number of passes, and whether the loop stopped on a negative score. */
  datatype Tuning = Tuning(st: State, prev: State, q: real, qprev: real, passes: nat, broke: bool)

  /** What the fine-tuning loops need of a pass over n-node states: it
      keeps the shape and the one-hot encoding, only adds marks, changes a
      side only at a node it marks, and a pass that marks no new node leaves
      the state as it was. */
  ghost predicate PassLaws(pass: State -> State, n: nat)
  {
    forall st {:trigger pass(st)} :: Shaped(st, n) ==>
      Shaped(pass(st), n) &&
      (OneHot(st.si, st.SI) ==> OneHot(pass(st).si, pass(st).SI)) &&
      (forall k :: 0 <= k < n && st.visited[k] ==> pass(st).visited[k]) &&
      (forall k :: 0 <= k < n && pass(st).si[k] != st.si[k] ==> pass(st).visited[k]) &&
      CountTrue(st.visited) <= CountTrue(pass(st).visited) &&
      (CountTrue(pass(st).visited) == CountTrue(st.visited) ==> pass(st) == st)
  }

  /** One call of `modifySplit(n)` over B, as a function of the state. */
  ghost function PassOf(B: seq<real>, n: nat): State -> State
  {
    (st: State) => if |B| == n * n && Shaped(st, n) then Pass(B, n, st) else st
  }

  /** The score `deltaModularity` reports for a state. */
  ghost function ScoreOf(norm: real, B: seq<real>, n: nat): State -> real
  {
    (st: State) => if |B| == n * n && |st.SI| == 2 * n then Modularity(norm, B, n, st.SI, 2 * n) else 0.0
  }

  /** `modifySplit(n)` obeys the laws of a pass. */
  lemma PassOfLaws(B: seq<real>, n: nat)
    requires |B| == n * n
    ensures PassLaws(PassOf(B, n), n)
  {
    forall st | Shaped(st, n)
      ensures var r := PassOf(B, n)(st);
        Shaped(r, n) &&
        (OneHot(st.si, st.SI) ==> OneHot(r.si, r.SI)) &&
        (forall k :: 0 <= k < n && st.visited[k] ==> r.visited[k]) &&
        (forall k :: 0 <= k < n && r.si[k] != st.si[k] ==> r.visited[k]) &&
        CountTrue(st.visited) <= CountTrue(r.visited) &&
        (CountTrue(r.visited) == CountTrue(st.visited) ==> r == st)
    {
      PassFacts(B, n, st);
    }
  }

  /** A fine-tuning loop from t, with test value diff: while diff exceeds
      tol, one pass and the score of the new split, and diff becomes the
      absolute change of the score.  With top set (the loop of
      `calculateSpectralModularity`) the loop stops as soon as a pass scores
      below 0, keeping the score from before that pass. */
  ghost function Tune(pass: State -> State, score: State -> real, n: nat, tol: real, top: bool, t: Tuning, diff: real): Tuning
    requires PassLaws(pass, n) && Shaped(t.st, n) && tol >= 0.0 && t.q == score(t.st)
    decreases n - CountTrue(t.st.visited), if diff > tol then 2 else 0
  {
    if diff <= tol then t else TuneOn(pass, score, n, tol, top, t)
  }

  /** The body of a fine-tuning loop after a passed test: one pass, the
      score of the new split, the break of the top-level loop, and the
      loop again with the absolute change of the score. */
  ghost function TuneOn(pass: State -> State, score: State -> real, n: nat, tol: real, top: bool, t: Tuning): Tuning
    requires PassLaws(pass, n) && Shaped(t.st, n) && tol >= 0.0 && t.q == score(t.st)
    decreases n - CountTrue(t.st.visited), 1
  {
    var next := pass(t.st);
    var qnew := score(next);
    if top && qnew < 0.0 then Tuning(next, t.st, t.q, t.qprev, t.passes + 1, true)
    else Tune(pass, score, n, tol, top, Tuning(next, t.st, qnew, t.q, t.passes + 1, false), Fabs(qnew - t.q))
  }

  /** One turn of a fine-tuning loop that does not stop: the loop goes on
      from the state after the pass, which marked a new node unless it
      leaves the test value within tol. */
  lemma TuneStep(pass: State -> State, score: State -> real, n: nat, tol: real, top: bool, t: Tuning, diff: real)
    requires PassLaws(pass, n) && Shaped(t.st, n) && tol >= 0.0 && t.q == score(t.st)
    requires diff > tol && !(top && score(pass(t.st)) < 0.0)
    ensures var next := pass(t.st); var t' := Tuning(next, t.st, score(next), t.q, t.passes + 1, false);
      var diff' := Fabs(score(next) - t.q);
      Shaped(next, n) && (CountTrue(t.st.visited) < CountTrue(next.visited) || diff' <= tol) &&
      Tune(pass, score, n, tol, top, t, diff) == Tune(pass, score, n, tol, top, t', diff')
  {
  }

  /** One turn of a fine-tuning loop over the modularity matrix B that does
      not stop on a negative score: from the split `next` that `modifySplit`
      leaves and its score `qnew`, the loop goes on, and `next` marked a new
      node unless the score moved by at most tol. */
  lemma PassGoesOn(norm: real, B: seq<real>, n: nat, tol: real, top: bool, t: Tuning, diff: real, next: State, qnew: real)
    requires |B| == n * n && Shaped(t.st, n) && tol >= 0.0 && t.q == Modularity(norm, B, n, t.st.SI, 2 * n)
    requires diff > tol && next == Pass(B, n, t.st) && qnew == Modularity(norm, B, n, next.SI, 2 * n)
    requires !(top && qnew < 0.0)
    ensures var pass, score := PassOf(B, n), ScoreOf(norm, B, n);
      PassLaws(pass, n) && score(t.st) == t.q && Shaped(next, n) && score(next) == qnew &&
      (CountTrue(t.st.visited) < CountTrue(next.visited) || -tol <= qnew - t.q <= tol) &&
      Tune(pass, score, n, tol, top, t, diff) ==
      Tune(pass, score, n, tol, top, Tuning(next, t.st, qnew, t.q, t.passes + 1, false), Fabs(qnew - t.q))
  {
    PassOfLaws(B, n);
    var pass, score := PassOf(B, n), ScoreOf(norm, B, n);
    assert pass(t.st) == next && score(next) == qnew;
    TuneStep(pass, score, n, tol, top, t, diff);
  }

  /** The turn of the top-level loop whose pass scores below 0: the loop
      ends there, keeping the score from before the pass. */
  lemma PassStops(norm: real, B: seq<real>, n: nat, tol: real, t: Tuning, diff: real, next: State, qnew: real)
    requires |B| == n * n && Shaped(t.st, n) && tol >= 0.0 && t.q == Modularity(norm, B, n, t.st.SI, 2 * n)
    requires diff > tol && next == Pass(B, n, t.st) && qnew == Modularity(norm, B, n, next.SI, 2 * n)
    requires qnew < 0.0
    ensures var pass, score := PassOf(B, n), ScoreOf(norm, B, n);
      PassLaws(pass, n) && score(t.st) == t.q &&
      Tune(pass, score, n, tol, true, t, diff) == Tuning(next, t.st, t.q, t.qprev, t.passes + 1, true)
  {
    PassOfLaws(B, n);
    var pass, score := PassOf(B, n), ScoreOf(norm, B, n);
    assert pass(t.st) == next && score(next) == qnew;
  }

  /** A fine-tuning loop runs no pass exactly when the first test fails, and
      then changes nothing. */
  lemma {:induction false} TuneIdle(pass: State -> State, score: State -> real, n: nat, tol: real, top: bool, t: Tuning, diff: real)
    requires PassLaws(pass, n) && Shaped(t.st, n) && tol >= 0.0 && t.q == score(t.st)
    decreases n - CountTrue(t.st.visited), if diff > tol then 1 else 0
    ensures var r := Tune(pass, score, n, tol, top, t, diff); (r.passes == t.passes <==> diff <= tol) && (diff <= tol ==> r == t)
    ensures var r := Tune(pass, score, n, tol, top, t, diff); t.passes <= r.passes
  {
    if diff > tol {
      var next, qnew := pass(t.st), score(pass(t.st));
      if !(top && qnew < 0.0) {
        var t', diff' := Tuning(next, t.st, qnew, t.q, t.passes + 1, false), Fabs(qnew - t.q);
        TuneStep(pass, score, n, tol, top, t, diff);
        TuneIdle(pass, score, n, tol, top, t', diff');
      }
    }
  }

  /** A fine-tuning loop runs at most one pass more than there are unmarked
      nodes. */
  lemma {:induction false} TunePasses(pass: State -> State, score: State -> real, n: nat, tol: real, top: bool, t: Tuning, diff: real)
    requires PassLaws(pass, n) && Shaped(t.st, n) && tol >= 0.0 && t.q == score(t.st)
    decreases n - CountTrue(t.st.visited), if diff > tol then 1 else 0
    ensures var r := Tune(pass, score, n, tol, top, t, diff); r.passes <= t.passes + n - CountTrue(t.st.visited) + 1
  {
    if diff > tol {
      var next, qnew := pass(t.st), score(pass(t.st));
      if !(top && qnew < 0.0) {
        var t', diff' := Tuning(next, t.st, qnew, t.q, t.passes + 1, false), Fabs(qnew - t.q);
        TuneStep(pass, score, n, tol, top, t, diff);
        TunePasses(pass, score, n, tol, top, t', diff');
        TuneIdle(pass, score, n, tol, top, t', diff');
      }
    }
  }

  /** A fine-tuning loop keeps the split one-hot encoded, keeps marks, and
      changes a side only at a node it marks. */
  lemma {:induction false} TuneKeeps(pass: State -> State, score: State -> real, n: nat, tol: real, top: bool, t: Tuning, diff: real)
    requires PassLaws(pass, n) && Shaped(t.st, n) && tol >= 0.0 && t.q == score(t.st)
    decreases n - CountTrue(t.st.visited), if diff > tol then 1 else 0
    ensures var r := Tune(pass, score, n, tol, top, t, diff);
      Shaped(r.st, n) && (OneHot(t.st.si, t.st.SI) ==> OneHot(r.st.si, r.st.SI))
    ensures var r := Tune(pass, score, n, tol, top, t, diff); forall k :: 0 <= k < n && t.st.visited[k] ==> r.st.visited[k]
    ensures var r := Tune(pass, score, n, tol, top, t, diff); forall k :: 0 <= k < n && r.st.si[k] != t.st.si[k] ==> r.st.visited[k]
  {
    if diff > tol {
      var next, qnew := pass(t.st), score(pass(t.st));
      if !(top && qnew < 0.0) {
        var t', diff' := Tuning(next, t.st, qnew, t.q, t.passes + 1, false), Fabs(qnew - t.q);
        TuneStep(pass, score, n, tol, top, t, diff);
        TuneKeeps(pass, score, n, tol, top, t', diff');
      }
    }
  }

  /** After a pass the state is the pass of the state before the last pass. */
  lemma {:induction false} TuneLastPass(pass: State -> State, score: State -> real, n: nat, tol: real, top: bool, t: Tuning, diff: real)
    requires PassLaws(pass, n) && Shaped(t.st, n) && tol >= 0.0 && t.q == score(t.st)
    decreases n - CountTrue(t.st.visited), if diff > tol then 1 else 0
    ensures var r := Tune(pass, score, n, tol, top, t, diff); r.passes > t.passes ==> Shaped(r.prev, n) && pass(r.prev) == r.st
  {
    if diff > tol {
      var next, qnew := pass(t.st), score(pass(t.st));
      if !(top && qnew < 0.0) {
        var t', diff' := Tuning(next, t.st, qnew, t.q, t.passes + 1, false), Fabs(qnew - t.q);
        TuneStep(pass, score, n, tol, top, t, diff);
        TuneLastPass(pass, score, n, tol, top, t', diff');
        TuneIdle(pass, score, n, tol, top, t', diff');
      }
    }
  }

  /** Unless it broke, the loop ends on the score of its split, and after a
      pass its previous score is the score of the split before that pass. */
  lemma {:induction false} TuneStops(pass: State -> State, score: State -> real, n: nat, tol: real, top: bool, t: Tuning, diff: real)
    requires PassLaws(pass, n) && Shaped(t.st, n) && tol >= 0.0 && t.q == score(t.st)
    requires !t.broke
    decreases n - CountTrue(t.st.visited), if diff > tol then 1 else 0
    ensures var r := Tune(pass, score, n, tol, top, t, diff); !r.broke ==> r.q == score(r.st)
    ensures var r := Tune(pass, score, n, tol, top, t, diff); r.passes > t.passes && !r.broke ==> r.qprev == score(r.prev)
  {
    if diff > tol {
      var next, qnew := pass(t.st), score(pass(t.st));
      if !(top && qnew < 0.0) {
        var t', diff' := Tuning(next, t.st, qnew, t.q, t.passes + 1, false), Fabs(qnew - t.q);
        TuneStep(pass, score, n, tol, top, t, diff);
        TuneStops(pass, score, n, tol, top, t', diff');
        TuneIdle(pass, score, n, tol, top, t', diff');
      }
    }
  }

  /** Unless it broke, a loop that ran a pass ends within tol of the score
      before its last pass. */
  lemma {:induction false} TuneSettles(pass: State -> State, score: State -> real, n: nat, tol: real, top: bool, t: Tuning, diff: real)
    requires PassLaws(pass, n) && Shaped(t.st, n) && tol >= 0.0 && t.q == score(t.st)
    decreases n - CountTrue(t.st.visited), if diff > tol then 1 else 0
    ensures var r := Tune(pass, score, n, tol, top, t, diff); r.passes > t.passes && !r.broke ==> -tol <= r.q - r.qprev <= tol
  {
    if diff > tol {
      var next, qnew := pass(t.st), score(pass(t.st));
      if !(top && qnew < 0.0) {
        var t', diff' := Tuning(next, t.st, qnew, t.q, t.passes + 1, false), Fabs(qnew - t.q);
        TuneStep(pass, score, n, tol, top, t, diff);
        TuneSettles(pass, score, n, tol, top, t', diff');
        TuneIdle(pass, score, n, tol, top, t', diff');
      }
    }
  }

  /** Only the loop of `calculateSpectralModularity` breaks, after a pass
      whose split scores below 0, keeping the non-negative score of the
      split before that pass. */
  lemma {:induction false} TuneBreaks(pass: State -> State, score: State -> real, n: nat, tol: real, top: bool, t: Tuning, diff: real)
    requires PassLaws(pass, n) && Shaped(t.st, n) && tol >= 0.0 && t.q == score(t.st)
    requires !t.broke && (top && diff > tol ==> t.q >= 0.0)
    decreases n - CountTrue(t.st.visited), if diff > tol then 1 else 0
    ensures var r := Tune(pass, score, n, tol, top, t, diff); r.broke ==>
      top && r.passes > t.passes && score(r.st) < 0.0 <= r.q && r.q == score(r.prev)
  {
    if diff > tol {
      var next, qnew := pass(t.st), score(pass(t.st));
      if !(top && qnew < 0.0) {
        var t', diff' := Tuning(next, t.st, qnew, t.q, t.passes + 1, false), Fabs(qnew - t.q);
        TuneStep(pass, score, n, tol, top, t, diff);
        TuneBreaks(pass, score, n, tol, top, t', diff');
        TuneIdle(pass, score, n, tol, top, t', diff');
      }
    }
  }

  /** The fine-tuning loop of `split` from the state st (in `split`, the
      split of the eigenvector with no node marked), with the absolute score
      as the first test value. */
  ghost function SplitTuning(norm: real, B: seq<real>, n: nat, tol: real, st: State): Tuning
    requires |B| == n * n && Shaped(st, n) && tol >= 0.0
  {
    PassOfLaws(B, n);
    var score := ScoreOf(norm, B, n);
    var q := score(st);
    Tune(PassOf(B, n), score, n, tol, false, Tuning(st, st, q, q, 0, false), Fabs(q))
  }

  /** The fine-tuning loop of `calculateSpectralModularity` from the state
      st, with the score itself as the first test value, and stopping on a
      negative score. */
  ghost function TopTuning(norm: real, B: seq<real>, n: nat, tol: real, st: State): Tuning
    requires |B| == n * n && Shaped(st, n) && tol >= 0.0
  {
    PassOfLaws(B, n);
    var score := ScoreOf(norm, B, n);
    var q := score(st);
    Tune(PassOf(B, n), score, n, tol, true, Tuning(st, st, q, q, 0, false), q)
  }

  /** The fine-tuning of `split` runs no pass exactly when |Q| <= tol for
      the entry split, which is then kept; it runs at most one pass more
      than there are unmarked nodes. */
  lemma SplitTuningPasses(norm: real, B: seq<real>, n: nat, tol: real, st: State)
    requires |B| == n * n && Shaped(st, n) && tol >= 0.0
    ensures var r := SplitTuning(norm, B, n, tol, st);
      (r.passes == 0 <==> Fabs(Modularity(norm, B, n, st.SI, 2 * n)) <= tol) && (r.passes == 0 ==> r.st == st)
    ensures SplitTuning(norm, B, n, tol, st).passes <= n - CountTrue(st.visited) + 1
  {
    PassOfLaws(B, n);
    var pass, score := PassOf(B, n), ScoreOf(norm, B, n);
    var q := score(st);
    var t := Tuning(st, st, q, q, 0, false);
    TuneIdle(pass, score, n, tol, false, t, Fabs(q));
    TunePasses(pass, score, n, tol, false, t, Fabs(q));
  }

  /** The fine-tuned split of `split` is a one-hot encoded split, marks
      stay, and a node off its entry side has been marked. */
  lemma SplitTuningKeeps(norm: real, B: seq<real>, n: nat, tol: real, st: State)
    requires |B| == n * n && Shaped(st, n) && tol >= 0.0
    ensures var r := SplitTuning(norm, B, n, tol, st); Shaped(r.st, n) && (OneHot(st.si, st.SI) ==> OneHot(r.st.si, r.st.SI))
    ensures var r := SplitTuning(norm, B, n, tol, st); forall k :: 0 <= k < n && st.visited[k] ==> r.st.visited[k]
    ensures var r := SplitTuning(norm, B, n, tol, st);
      forall k :: 0 <= k < n && r.st.si[k] != st.si[k] ==> r.st.visited[k]
  {
    PassOfLaws(B, n);
    var pass, score := PassOf(B, n), ScoreOf(norm, B, n);
    var q := score(st);
    var t := Tuning(st, st, q, q, 0, false);
    TuneKeeps(pass, score, n, tol, false, t, Fabs(q));
  }

  /** The fine-tuning of `split` never breaks and reports the score of its
      split. */
  lemma SplitTuningStops(norm: real, B: seq<real>, n: nat, tol: real, st: State)
    requires |B| == n * n && Shaped(st, n) && tol >= 0.0
    ensures var r := SplitTuning(norm, B, n, tol, st);
      Shaped(r.st, n) && !r.broke && r.q == Modularity(norm, B, n, r.st.SI, 2 * n)
  {
    PassOfLaws(B, n);
    var pass, score := PassOf(B, n), ScoreOf(norm, B, n);
    var q := score(st);
    var t := Tuning(st, st, q, q, 0, false);
    var r := Tune(pass, score, n, tol, false, t, Fabs(q));
    assert r == SplitTuning(norm, B, n, tol, st);
    TuneKeeps(pass, score, n, tol, false, t, Fabs(q));
    TuneStops(pass, score, n, tol, false, t, Fabs(q));
    TuneBreaks(pass, score, n, tol, false, t, Fabs(q));
    assert score(r.st) == Modularity(norm, B, n, r.st.SI, 2 * n);
  }

  /** After a pass, the fine-tuned split of `split` is one pass of
      `modifySplit(n)` from the split before it, whose score is the previous
      score. */
  lemma SplitTuningLast(norm: real, B: seq<real>, n: nat, tol: real, st: State)
    requires |B| == n * n && Shaped(st, n) && tol >= 0.0
    ensures var r := SplitTuning(norm, B, n, tol, st);
      r.passes > 0 ==>
        Shaped(r.prev, n) && Pass(B, n, r.prev) == r.st && r.qprev == Modularity(norm, B, n, r.prev.SI, 2 * n)
  {
    PassOfLaws(B, n);
    var pass, score := PassOf(B, n), ScoreOf(norm, B, n);
    var q := score(st);
    var t := Tuning(st, st, q, q, 0, false);
    var r := Tune(pass, score, n, tol, false, t, Fabs(q));
    assert r == SplitTuning(norm, B, n, tol, st);
    TuneLastPass(pass, score, n, tol, false, t, Fabs(q));
    TuneStops(pass, score, n, tol, false, t, Fabs(q));
    TuneBreaks(pass, score, n, tol, false, t, Fabs(q));
    if r.passes > 0 {
      assert pass(r.prev) == Pass(B, n, r.prev);
      assert score(r.prev) == Modularity(norm, B, n, r.prev.SI, 2 * n);
    }
  }

  /** After a pass, the score of `split` differs by at most tol from the
      previous score. */
  lemma SplitTuningSettles(norm: real, B: seq<real>, n: nat, tol: real, st: State)
    requires |B| == n * n && Shaped(st, n) && tol >= 0.0
    ensures var r := SplitTuning(norm, B, n, tol, st);
      r.passes > 0 ==> -tol <= r.q - r.qprev <= tol
  {
    PassOfLaws(B, n);
    var pass, score := PassOf(B, n), ScoreOf(norm, B, n);
    var q := score(st);
    var t := Tuning(st, st, q, q, 0, false);
    var r := Tune(pass, score, n, tol, false, t, Fabs(q));
    assert r == SplitTuning(norm, B, n, tol, st);
    TuneSettles(pass, score, n, tol, false, t, Fabs(q));
    TuneBreaks(pass, score, n, tol, false, t, Fabs(q));
  }

  /** What the tuning of a fresh split of u scores, and its pass bound. */
  lemma SplitTuned(norm: real, B: seq<real>, n: nat, tol: real, u: seq<real>)
    requires |B| == n * n && |u| == n && tol >= 0.0
    ensures var r := SplitTuning(norm, B, n, tol, Initial(u));
      Shaped(r.st, n) && r.q == Modularity(norm, B, n, r.st.SI, 2 * n) && r.passes <= n + 1
  {
    SplitTuningStops(norm, B, n, tol, Initial(u));
    SplitTuningPasses(norm, B, n, tol, Initial(u));
    NoneMarked(n);
  }

  /** The fine-tuning of `calculateSpectralModularity` runs no pass exactly
      when Q <= tol for the entry split, which is then kept; it runs at most
      one pass more than there are unmarked nodes. */
  lemma TopTuningPasses(norm: real, B: seq<real>, n: nat, tol: real, st: State)
    requires |B| == n * n && Shaped(st, n) && tol >= 0.0
    ensures var r := TopTuning(norm, B, n, tol, st);
      (r.passes == 0 <==> Modularity(norm, B, n, st.SI, 2 * n) <= tol) && (r.passes == 0 ==> r.st == st)
    ensures TopTuning(norm, B, n, tol, st).passes <= n - CountTrue(st.visited) + 1
  {
    PassOfLaws(B, n);
    var pass, score := PassOf(B, n), ScoreOf(norm, B, n);
    var q := score(st);
    var t := Tuning(st, st, q, q, 0, false);
    TuneIdle(pass, score, n, tol, true, t, q);
    TunePasses(pass, score, n, tol, true, t, q);
  }

  /** The fine-tuned split of `calculateSpectralModularity` is a one-hot
      encoded split, marks stay, and a node off its entry side has been
      marked. */
  lemma TopTuningKeeps(norm: real, B: seq<real>, n: nat, tol: real, st: State)
    requires |B| == n * n && Shaped(st, n) && tol >= 0.0
    ensures var r := TopTuning(norm, B, n, tol, st); Shaped(r.st, n) && (OneHot(st.si, st.SI) ==> OneHot(r.st.si, r.st.SI))
    ensures var r := TopTuning(norm, B, n, tol, st); forall k :: 0 <= k < n && st.visited[k] ==> r.st.visited[k]
    ensures var r := TopTuning(norm, B, n, tol, st);
      forall k :: 0 <= k < n && r.st.si[k] != st.si[k] ==> r.st.visited[k]
  {
    PassOfLaws(B, n);
    var pass, score := PassOf(B, n), ScoreOf(norm, B, n);
    var q := score(st);
    var t := Tuning(st, st, q, q, 0, false);
    TuneKeeps(pass, score, n, tol, true, t, q);
  }

  /** After a pass, the fine-tuned split of `calculateSpectralModularity` is
      one pass of `modifySplit(n)` from the split before it. */
  lemma TopTuningLast(norm: real, B: seq<real>, n: nat, tol: real, st: State)
    requires |B| == n * n && Shaped(st, n) && tol >= 0.0
    ensures var r := TopTuning(norm, B, n, tol, st);
      Shaped(r.st, n) && (r.passes > 0 ==> Shaped(r.prev, n) && Pass(B, n, r.prev) == r.st)
  {
    PassOfLaws(B, n);
    var pass, score := PassOf(B, n), ScoreOf(norm, B, n);
    var q := score(st);
    var t := Tuning(st, st, q, q, 0, false);
    var r := Tune(pass, score, n, tol, true, t, q);
    assert r == TopTuning(norm, B, n, tol, st);
    TuneKeeps(pass, score, n, tol, true, t, q);
    TuneLastPass(pass, score, n, tol, true, t, q);
    if r.passes > 0 {
      assert pass(r.prev) == Pass(B, n, r.prev);
    }
  }

  /** Unless it broke, the fine-tuning of `calculateSpectralModularity`
      reports the score of its split, and after a pass the previous score is
      that of the split before the pass. */
  lemma TopTuningScores(norm: real, B: seq<real>, n: nat, tol: real, st: State)
    requires |B| == n * n && Shaped(st, n) && tol >= 0.0
    ensures var r := TopTuning(norm, B, n, tol, st);
      Shaped(r.st, n) && (!r.broke ==> r.q == Modularity(norm, B, n, r.st.SI, 2 * n)) &&
      (r.passes > 0 && !r.broke ==> Shaped(r.prev, n) && r.qprev == Modularity(norm, B, n, r.prev.SI, 2 * n))
  {
    PassOfLaws(B, n);
    var pass, score := PassOf(B, n), ScoreOf(norm, B, n);
    var q := score(st);
    var t := Tuning(st, st, q, q, 0, false);
    var r := Tune(pass, score, n, tol, true, t, q);
    assert r == TopTuning(norm, B, n, tol, st);
    TuneKeeps(pass, score, n, tol, true, t, q);
    TuneLastPass(pass, score, n, tol, true, t, q);
    TuneStops(pass, score, n, tol, true, t, q);
    assert score(r.st) == Modularity(norm, B, n, r.st.SI, 2 * n);
    if r.passes > 0 {
      assert score(r.prev) == Modularity(norm, B, n, r.prev.SI, 2 * n);
    }
  }

  /** Unless it broke, the score of `calculateSpectralModularity` after a
      pass differs by at most tol from the previous score. */
  lemma TopTuningSettles(norm: real, B: seq<real>, n: nat, tol: real, st: State)
    requires |B| == n * n && Shaped(st, n) && tol >= 0.0
    ensures var r := TopTuning(norm, B, n, tol, st);
      r.passes > 0 && !r.broke ==> -tol <= r.q - r.qprev <= tol
  {
    PassOfLaws(B, n);
    var pass, score := PassOf(B, n), ScoreOf(norm, B, n);
    var q := score(st);
    var t := Tuning(st, st, q, q, 0, false);
    var r := Tune(pass, score, n, tol, true, t, q);
    assert r == TopTuning(norm, B, n, tol, st);
    TuneSettles(pass, score, n, tol, true, t, q);
  }

  /** What the tuning of a fresh top-level split of u scores, and its pass
      bound. */
  lemma TopTuned(norm: real, B: seq<real>, n: nat, tol: real, u: seq<real>)
    requires |B| == n * n && |u| == n && tol >= 0.0
    ensures var r := TopTuning(norm, B, n, tol, Initial(u));
      Shaped(r.st, n) && (!r.broke ==> r.q == Modularity(norm, B, n, r.st.SI, 2 * n)) &&
      (r.broke ==> Modularity(norm, B, n, r.st.SI, 2 * n) < 0.0 <= r.q) && r.passes <= n + 1
  {
    TopTuningScores(norm, B, n, tol, Initial(u));
    TopTuningBreaks(norm, B, n, tol, Initial(u));
    TopTuningPasses(norm, B, n, tol, Initial(u));
    NoneMarked(n);
  }

  /** When the fine-tuning of `calculateSpectralModularity` broke, its split
      scores below 0 and the score kept is the non-negative score of the split
      one pass earlier. */
  lemma TopTuningBreaks(norm: real, B: seq<real>, n: nat, tol: real, st: State)
    requires |B| == n * n && Shaped(st, n) && tol >= 0.0
    ensures var r := TopTuning(norm, B, n, tol, st);
      r.broke ==>
        r.passes > 0 && Shaped(r.st, n) && Shaped(r.prev, n) &&
        Modularity(norm, B, n, r.st.SI, 2 * n) < 0.0 <= r.q && r.q == Modularity(norm, B, n, r.prev.SI, 2 * n)
  {
    PassOfLaws(B, n);
    var pass, score := PassOf(B, n), ScoreOf(norm, B, n);
    var q := score(st);
    var t := Tuning(st, st, q, q, 0, false);
    var r := Tune(pass, score, n, tol, true, t, q);
    assert r == TopTuning(norm, B, n, tol, st);
    TuneKeeps(pass, score, n, tol, true, t, q);
    TuneLastPass(pass, score, n, tol, true, t, q);
    TuneBreaks(pass, score, n, tol, true, t, q);
    if r.broke {
      assert score(r.st) == Modularity(norm, B, n, r.st.SI, 2 * n);
      assert score(r.prev) == Modularity(norm, B, n, r.prev.SI, 2 * n);
    }
  }

  /** No node of a cleared `visited` is marked. */
  lemma {:induction false} NoneMarked(n: nat)
    ensures CountTrue(seq(n, _ => false)) == 0
  {
    if n > 0 {
      NoneMarked(n - 1);
      assert seq(n, _ => false)[..n - 1] == seq(n - 1, _ => false);
    }
  }

  /** beta and v are the eigenpair `calculateEigenVectors` takes from h for
      an n-by-n matrix: the first largest eigenvalue and its eigenvector,
      column i of z. */
  ghost predicate LeadingPair(h: Spectrum, n: nat, beta: real, v: seq<real>)
  {
    |v| == n && |h.z| == n &&
    exists i :: IsLeading(h.d, i) && beta == h.d[i] &&
      forall k :: 0 <= k < n ==> i < |h.z[k]| && v[k] == h.z[k][i]
  }

  /** The solver's output determines the eigenpair taken from it. */
  lemma LeadingPairUnique(h: Spectrum, n: nat, b1: real, v1: seq<real>, b2: real, v2: seq<real>)
    requires LeadingPair(h, n, b1, v1) && LeadingPair(h, n, b2, v2)
    ensures b1 == b2 && v1 == v2
  {
    var i1 :| IsLeading(h.d, i1) && b1 == h.d[i1] && forall k :: 0 <= k < n ==> i1 < |h.z[k]| && v1[k] == h.z[k][i1];
    var i2 :| IsLeading(h.d, i2) && b2 == h.d[i2] && forall k :: 0 <= k < n ==> i2 < |h.z[k]| && v2[k] == h.z[k][i2];
    LeadingUnique(h.d, i1, i2);
  }

  /** The first largest entry is unique. */
  lemma LeadingUnique(d: seq<real>, i: int, j: int)
    requires IsLeading(d, i) && IsLeading(d, j)
    ensures i == j
  {
    assert d[j] <= d[i] && d[i] <= d[j];
  }

  /** The zero-filled matrices of `assignSpace` are symmetric. */
  lemma ZeroSymmetric(n: nat)
    ensures Symmetric(seq(n * n, _ => 0.0), n)
  {
    var Z := seq(n * n, _ => 0.0);
    forall i, j | 0 <= i < n && 0 <= j < n
      ensures At(Z, n, i, j) == At(Z, n, j, i)
    {
      FlatBound(n, i, j);
      FlatBound(n, j, i);
    }
  }

  /** A group matrix that restricts a symmetric top-level matrix to keys
      without `dummy` is symmetric. */
  lemma RestrictsSymmetric(Bg: seq<real>, n: nat, kf: seq<int>, B0: seq<real>, N: nat, dummy: int)
    requires Restricts(Bg, n, kf, B0, N, dummy) && Symmetric(B0, N)
    requires forall k :: 0 <= k < n ==> kf[k] != dummy
    ensures Symmetric(Bg, n)
  {
  }

  /** Slot k of the two child key lists (`keysi_p[k]`, `keysi_n[k]`) as the
      relabelling loop of `split` writes them, for the node of side s. */
  function ChildSlots(side: Side, s: int, key: int, dummy: int): (int, int)
  {
    match side
    case SplitP => if s > 0 then (key, dummy) else (dummy, key)
    case SplitN => if s < 0 then (dummy, key) else (key, dummy)
  }

  /** For a sign vector the child lists of `split` partition the filtered
      keys: the key of slot k goes to `keysi_p` when si[k] > 0 and to
      `keysi_n` otherwise, whichever branch wrote them; hence `keysi_p` holds
      `cp` keys and `keysi_n` the rest. */
  lemma ChildLists(side: Side, kf: seq<int>, s: seq<int>, kp: seq<int>, kn: seq<int>, dummy: int)
    requires |kf| == |s| && |kp| == |s| && |kn| == |s| && IsSign(s)
    requires forall k :: 0 <= k < |kf| ==> kf[k] != dummy
    requires forall k :: 0 <= k < |kf| ==> (kp[k], kn[k]) == ChildSlots(side, s[k], kf[k], dummy)
    ensures forall k :: 0 <= k < |kf| ==>
      kp[k] == (if s[k] > 0 then kf[k] else dummy) && kn[k] == (if s[k] > 0 then dummy else kf[k])
    ensures Count(kp, dummy) == CountPositive(s) && Count(kn, dummy) == |s| - CountPositive(s)
  {
    CountBySide(kp, s, dummy, true);
    CountBySide(kn, s, dummy, false);
  }

  /** v is the key of one of the first m slots whose node is on the new side. */
  ghost predicate Relabelled(kf: seq<int>, s: seq<int>, side: Side, m: nat, v: int)
  {
    exists k :: 0 <= k < m && k < |kf| && k < |s| && kf[k] == v && OnNewSide(side, s[k])
  }

  lemma RelabelledNext(kf: seq<int>, s: seq<int>, side: Side, m: nat)
    requires m < |kf| && m < |s|
    ensures forall v :: Relabelled(kf, s, side, m + 1, v) <==>
      Relabelled(kf, s, side, m, v) || (kf[m] == v && OnNewSide(side, s[m]))
  {
    forall v | Relabelled(kf, s, side, m + 1, v)
      ensures Relabelled(kf, s, side, m, v) || (kf[m] == v && OnNewSide(side, s[m]))
    {
      var k :| 0 <= k < m + 1 && k < |kf| && k < |s| && kf[k] == v && OnNewSide(side, s[k]);
      if k < m {
        assert Relabelled(kf, s, side, m, v);
      }
    }
    forall v | Relabelled(kf, s, side, m, v) || (kf[m] == v && OnNewSide(side, s[m]))
      ensures Relabelled(kf, s, side, m + 1, v)
    {
      if Relabelled(kf, s, side, m, v) {
        var k :| 0 <= k < m && k < |kf| && k < |s| && kf[k] == v && OnNewSide(side, s[k]);
        assert 0 <= k < m + 1;
      } else {
        assert 0 <= m < m + 1 && kf[m] == v;
      }
    }
  }

  /** Entry q of the flat submatrix of B0 over the rows and columns P. */
  ghost function SubFlat(B0: seq<real>, n: nat, P: seq<nat>, q: nat): real
  {
    if |B0| == n * n && q < |P| * |P| && forall a :: 0 <= a < |P| ==> P[a] < n then
      FlatSplit(|P|, q);
      At(B0, n, P[q / |P|], P[q % |P|])
    else 0.0
  }

  /** The submatrix of B0 over the rows and columns P, flat. */
  ghost function Submatrix(B0: seq<real>, n: nat, P: seq<nat>): (S: seq<real>)
    ensures |S| == |P| * |P|
  {
    seq(|P| * |P|, q requires 0 <= q => SubFlat(B0, n, P, q))
  }

  /** The generalised matrix of B, flat. */
  ghost function GeneralisedOf(B: seq<real>, n: nat): (G: seq<real>)
    requires |B| == n * n
    ensures |G| == n * n
  {
    seq(n * n, p requires 0 <= p < n * n => GeneralisedFlat(B, n, p))
  }

  /** beta is the value `calculateEigenVectors` takes from the eigenvalues
      d: a largest one, or 0 when there are none. */
  ghost predicate LeadingValue(d: seq<real>, beta: real)
  {
    if |d| == 0 then beta == 0.0 else exists i :: IsLeading(d, i) && beta == d[i]
  }

  /** The entry of row P[a] and column P[b] of B0 lands at a * m + b. */
  lemma SubFlatEntry(B0: seq<real>, n: nat, P: seq<nat>, m: nat, a: nat, b: nat, i: nat, j: nat)
    requires |B0| == n * n && |P| == m && forall k :: 0 <= k < m ==> P[k] < n
    requires a < m && b < m && P[a] == i && P[b] == j
    ensures 0 <= i * n && i * n + j < n * n && a * m + b < m * m
    ensures SubFlat(B0, n, P, a * m + b) == B0[i * n + j]
  {
    FlatBound(m, a, b);
    FlatDivMod(m, a, b);
    FlatBound(n, i, j);
  }

  /** S[0] * X[0] + ... + S[m-1] * X[m-1]. */
  function Dot(S: seq<int>, X: seq<real>, m: nat): real
    requires m <= |S| && m <= |X|
  {
    if m == 0 then 0.0 else Dot(S, X, m - 1) + Weighted(S[m - 1], X[m - 1])
  }

  /** With X the flat product B * S, the dot product of S and X is the
      indicator sum. */
  lemma {:induction false} DotIsIndicator(B: seq<real>, n: nat, S: seq<int>, X: seq<real>, m: nat)
    requires |B| == n * n && |S| == 2 * n && |X| == 2 * n && m <= 2 * n
    requires forall p :: 0 <= p < 2 * n ==> X[p] == Projected(B, n, S, p / 2, p % 2, n)
    ensures Dot(S, X, m) == IndicatorSum(B, n, S, m)
  {
    if m > 0 {
      DotIsIndicator(B, n, S, X, m - 1);
    }
  }

  /** The first p entries of Bg are those of the submatrix of B0 over P. */
  ghost predicate Filled(Bg: seq<real>, B0: seq<real>, n: nat, P: seq<nat>, p: nat)
  {
    p <= |Bg| && forall q :: 0 <= q < p ==> Bg[q] == SubFlat(B0, n, P, q)
  }

  lemma FilledNext(Bg: seq<real>, B0: seq<real>, n: nat, P: seq<nat>, p: nat, v: real)
    requires Filled(Bg, B0, n, P, p) && p < |Bg| && v == SubFlat(B0, n, P, p)
    ensures Filled(Bg[p := v], B0, n, P, p + 1)
  {
  }

  lemma SubFromFlat(B0: seq<real>, n: nat, P: seq<nat>, Bg: seq<real>)
    requires |B0| == n * n && |Bg| == |P| * |P| && forall a :: 0 <= a < |P| ==> P[a] < n
    requires forall q :: 0 <= q < |P| * |P| ==> Bg[q] == SubFlat(B0, n, P, q)
    ensures forall a, b :: 0 <= a < |P| && 0 <= b < |P| ==> At(Bg, |P|, a, b) == At(B0, n, P[a], P[b])
  {
    forall a, b | 0 <= a < |P| && 0 <= b < |P|
      ensures At(Bg, |P|, a, b) == At(B0, n, P[a], P[b])
    {
      FlatBound(|P|, a, b);
      FlatDivMod(|P|, a, b);
      assert Bg[a * |P| + b] == SubFlat(B0, n, P, a * |P| + b);
    }
  }

  /** The submatrix of a group matrix over its keys, with the filtered key
      list, is again the top-level matrix restricted to those keys. */
  lemma ExtractRestricts(B0: seq<real>, n: nat, keys: seq<int>, Bg: seq<real>, BT: seq<real>, N: nat, dummy: int)
    requires Restricts(B0, n, keys, BT, N, dummy)
    requires var P := Positions(keys, dummy);
      |Bg| == |P| * |P| &&
      forall a, b :: 0 <= a < |P| && 0 <= b < |P| ==> At(Bg, |P|, a, b) == At(B0, n, P[a], P[b])
    ensures Restricts(Bg, Count(keys, dummy), Filter(keys, dummy), BT, N, dummy)
  {
    FilterKeys(keys, dummy);
  }

  /** A child list keeps the restriction of its parent's filtered list. */
  lemma RestrictsToChild(Bg: seq<real>, n: nat, kf: seq<int>, child: seq<int>, BT: seq<real>, N: nat, dummy: int)
    requires Restricts(Bg, n, kf, BT, N, dummy)
    requires |child| == n && forall k :: 0 <= k < n ==> child[k] == kf[k] || child[k] == dummy
    ensures Restricts(Bg, n, child, BT, N, dummy)
  {
  }

  /** A top-level key list (slot k holds k or `dummy`) restricts the
      top-level matrix to itself. */
  lemma RestrictsIdentity(BT: seq<real>, N: nat, keys: seq<int>, dummy: int)
    requires |BT| == N * N && |keys| == N && !(0 <= dummy < N)
    requires forall k :: 0 <= k < N ==> keys[k] == k || keys[k] == dummy
    ensures Restricts(BT, N, keys, BT, N, dummy)
  {
  }

  /** From labels V0 to labels V1 only vertices that are keys of the list
      changed, only their label, and only to a number in k0+1..k1. */
  ghost predicate LabelsWithin(V0: seq<Vertex>, V1: seq<Vertex>, keys: seq<int>, dummy: int, k0: int, k1: int)
  {
    |V0| == |V1| &&
    forall v :: 0 <= v < |V0| && V1[v] != V0[v] ==>
      InGroup(keys, dummy, v) && k0 < V1[v].K <= k1 && V1[v] == V0[v].(K := V1[v].K)
  }

  lemma LabelsWithinTrans(V0: seq<Vertex>, V1: seq<Vertex>, V2: seq<Vertex>, keys: seq<int>, dummy: int,
                          k0: int, k1: int, k2: int)
    requires LabelsWithin(V0, V1, keys, dummy, k0, k1) && LabelsWithin(V1, V2, keys, dummy, k1, k2)
    requires k0 <= k1 <= k2
    ensures LabelsWithin(V0, V2, keys, dummy, k0, k2)
  {
    forall v | 0 <= v < |V0| && V2[v] != V0[v]
      ensures InGroup(keys, dummy, v) && k0 < V2[v].K <= k2 && V2[v] == V0[v].(K := V2[v].K)
    {
      if V2[v] == V1[v] {
        assert V1[v] != V0[v];
      }
    }
  }

  /** A change confined to a child list is confined to its parent's keys. */
  lemma LabelsWithinParent(V0: seq<Vertex>, V1: seq<Vertex>, child: seq<int>, kf: seq<int>, dummy: int, k0: int, k1: int)
    requires |child| == |kf| && forall k :: 0 <= k < |kf| ==> child[k] == kf[k] || child[k] == dummy
    requires LabelsWithin(V0, V1, child, dummy, k0, k1)
    ensures LabelsWithin(V0, V1, kf, dummy, k0, k1)
  {
    forall v | 0 <= v < |V0| && V1[v] != V0[v]
      ensures InGroup(kf, dummy, v)
    {
      SubListInGroup(child, kf, dummy, v);
    }
  }

  /** A change confined to the filtered keys is confined to the key list. */
  lemma LabelsWithinFilter(V0: seq<Vertex>, V1: seq<Vertex>, keys: seq<int>, dummy: int, k0: int, k1: int)
    requires LabelsWithin(V0, V1, Filter(keys, dummy), dummy, k0, k1)
    ensures LabelsWithin(V0, V1, keys, dummy, k0, k1)
  {
    forall v | 0 <= v < |V0| && V1[v] != V0[v]
      ensures InGroup(keys, dummy, v)
    {
      FilterSameGroup(keys, dummy, v);
    }
  }

  /** The relabelling of an accepted split changes labels of the group only,
      to the new label k1. */
  lemma LabelsOfRelabel(V0: seq<Vertex>, V1: seq<Vertex>, kf: seq<int>, s: seq<int>, side: Side, dummy: int, k0: int, k1: int)
    requires |V0| == |V1| && k0 < k1
    requires forall k :: 0 <= k < |kf| ==> kf[k] != dummy
    requires forall v :: 0 <= v < |V0| ==>
      V1[v] == if Relabelled(kf, s, side, |kf|, v) then V0[v].(K := k1) else V0[v]
    ensures LabelsWithin(V0, V1, kf, dummy, k0, k1)
  {
    forall v | 0 <= v < |V0| && V1[v] != V0[v]
      ensures InGroup(kf, dummy, v)
    {
      var k :| 0 <= k < |kf| && k < |s| && kf[k] == v && OnNewSide(side, s[k]);
    }
  }

  /** Labels that lay in lo..k0 before lie in lo..k1 after, and the vertices
      still differ from the reference W only in their labels. */
  lemma LabelsBounded(W: seq<Vertex>, V0: seq<Vertex>, V1: seq<Vertex>, keys: seq<int>, dummy: int, lo: int, k0: int, k1: int)
    requires LabelsWithin(V0, V1, keys, dummy, k0, k1) && k0 <= k1 && |W| == |V0|
    requires forall v :: 0 <= v < |V0| ==> lo <= V0[v].K <= k0 && V0[v] == W[v].(K := V0[v].K)
    ensures forall v :: 0 <= v < |V1| ==> lo <= V1[v].K <= k1 && V1[v] == W[v].(K := V1[v].K)
  {
  }

  class SpectralModularity {
    // The graph, owned by the caller (`gg->V`, `A`, `N`, `M`).
    const V: array<Vertex>
    const A: array<real>
    const N: nat
    const M: int
    /** The sentinel that marks an empty slot of a key list. */
    const dummy: int

    // The current modularity matrix, nrBgi by ncBgi, and the top-level copy.
    var bgi: array<real>
    const bgiTemp: array<real>
    var nrBgi: nat
    var ncBgi: nat
    var norm: real

    // The leading eigenpair and the split being tuned.
    var betai: real
    var u: array<real>
    var si: array<int>
    var SI: array<int>
    var visited: array<bool>

    // The two child key lists of the top-level split.
    const keysP: array<int>
    const keysN: array<int>

    // Shared by the whole recursion, and the configuration.
    var specQ: real
    var maxK: int
    var tol: real
    var minCn: int

    ghost predicate Valid()
      reads this`nrBgi, this`ncBgi, this`bgi, this`tol, this`minCn, V, bgi, bgiTemp
    {
      V.Length == N && A.Length == N * N && bgiTemp.Length == N * N && Symmetric(bgiTemp[..], N) &&
      keysP.Length == N && keysN.Length == N && keysP != keysN &&
      (forall k :: 0 <= k < N ==> V[k].id == k) &&
      !(0 <= dummy < N) && M > 0 &&
      nrBgi <= N && ncBgi == nrBgi && bgi.Length == nrBgi * nrBgi && Symmetric(bgi[..], nrBgi) &&
      bgi != bgiTemp && bgi != A && bgiTemp != A &&
      tol >= 0.0 && minCn >= 1
    }

    /** The split arrays are sized for the current matrix. */
    ghost predicate Sized()
      reads this`bgi, this`nrBgi, this`si, this`SI, this`visited
    {
      bgi.Length == nrBgi * nrBgi && si.Length == nrBgi && SI.Length == 2 * nrBgi &&
      visited.Length == nrBgi && si != SI
    }

    /** The state a fine-tuning round works on. */
    ghost function Cur(): State
      reads this`si, this`SI, this`visited, si, SI, visited
    {
      State(si[..], SI[..], visited[..])
    }

    /** The constructor with a graph: zero-filled matrices (`assignSpace`),
        then Newman's matrix (`setupMatrices`). */
    constructor (gg: array<Vertex>, A: array<real>, N: nat, M: int, dummy: int)
      requires gg.Length == N && A.Length == N * N && M > 0
      requires forall k :: 0 <= k < N ==> gg[k].id == k
      requires !(0 <= dummy < N)
      requires Symmetric(A[..], N)
      ensures Valid()
      ensures V == gg && this.A == A && this.N == N && this.M == M && this.dummy == dummy
      ensures nrBgi == N && specQ == 0.0 && maxK == 0 && tol == 0.00001 && minCn == 1
      ensures norm == 1.0 / (2.0 * M as real)
      ensures IsNewman(A[..], Degrees(gg[..]), norm, bgi[..], N) && bgiTemp[..] == bgi[..]
      ensures gg[..] == old(gg[..]) && A[..] == old(A[..])
    {
      V := gg;
      this.A := A;
      this.N := N;
      this.M := M;
      this.dummy := dummy;
      bgi := new real[N * N](_ => 0.0);
      bgiTemp := new real[N * N](_ => 0.0);
      nrBgi, ncBgi := N, N;
      norm := 0.0;
      betai := 0.0;
      u := new real[0];
      si := new int[0];
      SI := new int[0];
      visited := new bool[0];
      keysP := new int[N](_ => 0);
      keysN := new int[N](_ => 0);
      specQ := 0.0;
      maxK := 0;
      tol := 0.00001;
      minCn := 1;
      new;
      ZeroSymmetric(N);
      assert bgi[..] == bgiTemp[..] == seq(N * N, _ => 0.0);
      SetupMatrices();
    }

    /** Newman's matrix B = A - deg * deg^T * NORM with NORM = 1 / (2M),
        written into both `Bgi` and `Bgi_temp`. */
    method SetupMatrices()
      requires Valid() && nrBgi == N && Symmetric(A[..], N)
      modifies this`norm, bgi, bgiTemp
      ensures Valid() && norm == 1.0 / (2.0 * M as real)
      ensures IsNewman(A[..], Degrees(V[..]), norm, bgi[..], N) && bgiTemp[..] == bgi[..]
    {
      var nrm := 1.0 / (2.0 * M as real);
      FillNewman(A, V, nrm, nrBgi, bgi, bgiTemp);
      norm := nrm;
      NewmanFromFlat(A[..], Degrees(V[..]), nrm, bgi[..], N);
      NewmanSymmetric(A[..], Degrees(V[..]), nrm, bgi[..], N);
    }

    /** The loop of `setupMatrices`: B and its copy B0 receive, entry by
        entry, Newman's matrix of A for the degrees in V. */
    static method FillNewman(A: array<real>, V: array<Vertex>, nrm: real, Ng: nat, B: array<real>, B0: array<real>)
      requires A.Length == Ng * Ng && V.Length == Ng && B.Length == Ng * Ng && B0.Length == Ng * Ng
      requires B != B0 && B != A && B0 != A
      modifies B, B0
      ensures B0[..] == B[..]
      ensures forall p :: 0 <= p < Ng * Ng ==> B[p] == NewmanFlat(A[..], Degrees(V[..]), nrm, Ng, p)
    {
      var KK := Ng * Ng;
      ghost var deg := Degrees(V[..]);
      for k := 0 to KK
        invariant forall p :: 0 <= p < k ==> B[p] == NewmanFlat(A[..], deg, nrm, Ng, p) && B0[p] == B[p]
      {
        FlatSplit(Ng, k);
        var i := k / Ng;
        var j := k % Ng;
        var val := A[(i * Ng) + j] - (V[i].degree * V[j].degree) as real * nrm;
        B[(i * Ng) + j] := val;
        B0[(i * Ng) + j] := val;
      }
      assert B0[..] == B[..];
    }

    /** The generalised matrix of the n-by-n matrix B becomes the current
        matrix: `Bgi[i][j] = B[i][j] - delta(i, j) * sum_k B[i][k]`. */
    method CalculateB(B: array<real>, n: nat)
      requires B.Length == n * n
      modifies this`bgi, this`nrBgi, this`ncBgi
      ensures fresh(bgi) && nrBgi == n && ncBgi == n && bgi.Length == n * n
      ensures IsGeneralised(B[..], bgi[..], n) && bgi[..] == GeneralisedOf(B[..], n)
    {
      var Ng := n;
      var KK := Ng * Ng;
      var G := new real[KK];
      for i := 0 to Ng
        invariant i * Ng <= KK
        invariant forall p :: 0 <= p < i * Ng ==> G[p] == GeneralisedFlat(B[..], Ng, p)
      {
        FlatBound(Ng, i, Ng - 1);
        for j := 0 to Ng
          invariant forall p :: 0 <= p < i * Ng + j ==> G[p] == GeneralisedFlat(B[..], Ng, p)
        {
          var sum := RowTotal(B, Ng, i);
          FlatBound(Ng, i, j);
          FlatDivMod(Ng, i, j);
          G[(i * Ng) + j] := B[(i * Ng) + j] - 1.0 * Delta(i, j) as real * sum;
        }
        assert i * Ng + Ng == (i + 1) * Ng;
      }
      GeneralisedFromFlat(B[..], G[..], n);
      assert G[..] == GeneralisedOf(B[..], n);
      bgi := G;
      nrBgi := Ng;
      ncBgi := Ng;
    }

    /** The sum of row i of B (the innermost loop of `calculateB`). */
    static method RowTotal(B: array<real>, n: nat, i: nat) returns (sum: real)
      requires B.Length == n * n && i < n
      ensures sum == RowSum(B[..], n, i, n)
    {
      sum := 0.0;
      for k := 0 to n
        invariant sum == RowSum(B[..], n, i, k)
      {
        FlatBound(n, i, k);
        sum := sum + B[(i * n) + k];
      }
    }

    /** The leading eigenpair of the current matrix from the solver: `betai`
        is the first largest eigenvalue and `u` its eigenvector.  For an
        empty matrix `betai` keeps the 0 it is reset to. */
    method CalculateEigenVectors(eig: Eigensolver)
      requires Valid() && OracleShaped(eig)
      modifies this`betai, this`u
      ensures fresh(u) && u.Length == nrBgi
      ensures var h := eig(bgi[..], nrBgi);
        if nrBgi == 0 then betai == 0.0
        else exists indx :: (IsLeading(h.d, indx) && betai == h.d[indx] &&
          forall k :: 0 <= k < nrBgi ==> u[k] == h.z[k][indx])
      ensures LeadingValue(eig(bgi[..], nrBgi).d, betai)
      ensures nrBgi > 0 ==> LeadingPair(eig(bgi[..], nrBgi), nrBgi, betai, u[..])
    {
      var Ng := nrBgi;
      var beta := 0.0;
      var w := new real[Ng];
      var h := eig(bgi[..], Ng);
      if Ng > 0 {
        var indxMax := LeadingIndex(h.d);
        beta := h.d[indxMax];
        for k := 0 to Ng
          invariant forall p :: 0 <= p < k ==> w[p] == h.z[p][indxMax]
        {
          w[k] := h.z[k][indxMax];
        }
        assert IsLeading(h.d, indxMax) && beta == h.d[indxMax] && forall k :: 0 <= k < Ng ==> w[k] == h.z[k][indxMax];
        assert LeadingValue(h.d, beta);
        assert LeadingPair(h, Ng, beta, w[..]);
      }
      betai := beta;
      u := w;
    }

    /** The initial split from the eigenvector: `si[k] = -1` when `u[k] < 0`
        and +1 otherwise, and `SI` its one-hot encoding. */
    method MaximiseIndexVectors()
      requires u.Length == nrBgi
      modifies this`si, this`SI
      ensures fresh(si) && fresh(SI) && si != SI && si.Length == nrBgi && SI.Length == 2 * nrBgi
      ensures forall k :: 0 <= k < nrBgi ==> si[k] == SignOf(u[k])
      ensures OneHot(si[..], SI[..])
    {
      var s := SignsOf(u);
      var S := IndicatorOf(u);
      si, SI := s, S;
    }

    /** The first loop of `maximiseIndexVectors`: -1 for a negative entry of
        the eigenvector, +1 otherwise. */
    static method SignsOf(u: array<real>) returns (s: array<int>)
      ensures fresh(s) && s.Length == u.Length
      ensures forall p :: 0 <= p < u.Length ==> s[p] == SignOf(u[p])
    {
      s := new int[u.Length];
      for k := 0 to u.Length
        invariant forall p :: 0 <= p < k ==> s[p] == SignOf(u[p])
      {
        if u[k] < 0.0 {
          s[k] := -1;
        } else {
          s[k] := 1;
        }
      }
    }

    /** The second loop of `maximiseIndexVectors`: row k of the n-by-2
        matrix `SI` is (0, 1) for a negative entry of the eigenvector and
        (1, 0) otherwise. */
    static method IndicatorOf(u: array<real>) returns (S: array<int>)
      ensures fresh(S) && S.Length == 2 * u.Length
      ensures forall k :: 0 <= k < u.Length ==>
        S[2 * k] == (if SignOf(u[k]) == 1 then 1 else 0) && S[2 * k + 1] == (if SignOf(u[k]) == 1 then 0 else 1)
    {
      var Ng := u.Length;
      var KK := 2 * Ng;
      S := new int[KK];
      for k := 0 to KK
        invariant forall p :: 0 <= p < k ==>
          S[p] == if u[p / 2] < 0.0 then (if p % 2 == 0 then 0 else 1) else (if p % 2 == 0 then 1 else 0)
      {
        var i := k / 2;
        var j := k % 2;
        assert i < Ng && i * 2 + j == k;
        if u[i] < 0.0 {
          if j == 0 { S[(i * 2) + j] := 0; }
          if j == 1 { S[(i * 2) + j] := 1; }
        } else {
          if j == 0 { S[(i * 2) + j] := 1; }
          if j == 1 { S[(i * 2) + j] := 0; }
        }
      }
      forall k | 0 <= k < Ng
        ensures S[2 * k] == (if SignOf(u[k]) == 1 then 1 else 0) && S[2 * k + 1] == (if SignOf(u[k]) == 1 then 0 else 1)
      {
        assert (2 * k) / 2 == k && (2 * k + 1) / 2 == k;
      }
    }

    /** The split score `NORM * sum(SI .* (Bgi * SI))`: NORM times the sum of
        `Bgi[i][j]` over the pairs of nodes on the same side. */
    method DeltaModularity() returns (mod: real)
      requires bgi.Length == nrBgi * nrBgi && SI.Length == 2 * nrBgi
      ensures mod == Modularity(norm, bgi[..], nrBgi, SI[..], 2 * nrBgi)
      ensures si.Length == nrBgi && OneHot(si[..], SI[..]) ==> mod == norm * Score(bgi[..], nrBgi, si[..])
    {
      var sum := IndicatorTotal(bgi, SI, nrBgi);
      mod := norm * sum;
      ModularityScales(norm, bgi[..], nrBgi, SI[..], 2 * nrBgi);
      ScoreOfIndicator(bgi[..], nrBgi, si[..], SI[..], norm);
    }

    /** `sum(SI .* (Bgi * SI))`, the two loops of `deltaModularity`. */
    static method IndicatorTotal(B: array<real>, S: array<int>, n: nat) returns (sum: real)
      requires B.Length == n * n && S.Length == 2 * n
      ensures sum == IndicatorSum(B[..], n, S[..], 2 * n)
    {
      var SIt := Project(B, S, n);
      sum := DotTotal(S, SIt, n);
      DotIsIndicator(B[..], n, S[..], SIt[..], 2 * n);
    }

    /** The second loop of `deltaModularity`: the sum of `SI[k] * SIt[k]`
        over the 2n flat entries, read as row k / 2 and column k % 2. */
    static method DotTotal(S: array<int>, SIt: array<real>, n: nat) returns (sum: real)
      requires S.Length == 2 * n && SIt.Length == 2 * n
      ensures sum == Dot(S[..], SIt[..], 2 * n)
    {
      sum := 0.0;
      for k := 0 to 2 * n
        invariant sum == Dot(S[..], SIt[..], k)
      {
        var i := k / 2;
        var j := k % 2;
        assert i < n && i * 2 + j == k;
        sum := sum + S[(i * 2) + j] as real * SIt[(i * 2) + j];
      }
    }

    /** `SIt = Bgi * SI`, the n-by-2 product, flat. */
    static method Project(B: array<real>, S: array<int>, n: nat) returns (SIt: array<real>)
      requires B.Length == n * n && S.Length == 2 * n
      ensures SIt.Length == 2 * n
      ensures forall p :: 0 <= p < 2 * n ==> SIt[p] == Projected(B[..], n, S[..], p / 2, p % 2, n)
    {
      SIt := new real[2 * n];
      for i := 0 to n
        invariant forall p :: 0 <= p < 2 * i ==> SIt[p] == Projected(B[..], n, S[..], p / 2, p % 2, n)
      {
        var sum1, sum2 := ProjectRow(B, S, n, i);
        SIt[(i * 2) + 0] := sum1;
        SIt[(i * 2) + 1] := sum2;
        assert (2 * i) / 2 == i && (2 * i + 1) / 2 == i;
      }
    }

    /** Row i of `Bgi * SI` (the inner loop of `deltaModularity`). */
    static method ProjectRow(B: array<real>, S: array<int>, n: nat, i: nat) returns (sum1: real, sum2: real)
      requires B.Length == n * n && S.Length == 2 * n && i < n
      ensures sum1 == Projected(B[..], n, S[..], i, 0, n) && sum2 == Projected(B[..], n, S[..], i, 1, n)
    {
      sum1, sum2 := 0.0, 0.0;
      for j := 0 to n
        invariant sum1 == Projected(B[..], n, S[..], i, 0, j)
        invariant sum2 == Projected(B[..], n, S[..], i, 1, j)
      {
        FlatBound(n, i, j);
        sum1 := sum1 + B[(i * n) + j] * S[(j * 2) + 0] as real;
        sum2 := sum2 + B[(i * n) + j] * S[(j * 2) + 1] as real;
      }
    }

    /** The closed-form gain of moving node K, read from column K. */
    method DeltaModularityMax(K: nat) returns (mod: real)
      requires bgi.Length == nrBgi * nrBgi && si.Length == nrBgi && K < nrBgi
      ensures mod == Gain(bgi[..], nrBgi, si[..], K)
    {
      var Ng := nrBgi;
      var B, s := bgi, si;
      ghost var Bs, ss := B[..], s[..];
      var sumi := 0.0;
      for k := 0 to Ng
        invariant sumi == ColumnExcl(Bs, Ng, K, ss, k)
      {
        if k != K {
          FlatBound(Ng, k, K);
          assert B[(k * Ng) + K] == At(Bs, Ng, k, K) && s[k] == ss[k];
          sumi := sumi + B[(k * Ng) + K] * s[k] as real;
        }
      }
      mod := -4.0 * s[K] as real * sumi;
    }

    /** One greedy round: the unvisited node with the largest positive gain
        (the first one on a tie) is moved and marked visited; `qmax` is its
        gain, or 0 when no node moves. */
    method MaxModularity() returns (qmax: real)
      requires Sized()
      modifies si, SI, visited
      ensures Cur() == Step(bgi[..], nrBgi, old(Cur()))
      ensures qmax == StepGain(bgi[..], nrBgi, old(Cur()))
    {
      var qstored := StoreGains();
      var indMax;
      indMax, qmax := BestIndex(qstored);
      if indMax != -1 {
        MoveNode(indMax);
      }
    }

    /** The first loop of `maxModularity`: `qstored[k]` is the gain of
        moving node k, or 0 for a visited node. */
    method StoreGains() returns (qstored: array<real>)
      requires Sized()
      ensures fresh(qstored) && qstored[..] == Scores(bgi[..], nrBgi, Cur())
    {
      var Ng := nrBgi;
      qstored := new real[Ng];
      for k := 0 to Ng
        invariant forall p :: 0 <= p < k ==> qstored[p] == Scores(bgi[..], Ng, Cur())[p]
      {
        qstored[k] := 0.0;
        if !visited[k] {
          var Q := DeltaModularityMax(k);
          qstored[k] := Q;
        }
      }
    }

    /** The second loop of `maxModularity`: the first index of the strictly
        largest positive gain, or -1 and 0 when no gain is positive. */
    static method BestIndex(qstored: array<real>) returns (indMax: int, qmax: real)
      ensures (indMax, qmax) == BestPrefix(qstored[..], qstored.Length)
      ensures IsBestMove(qstored[..], indMax, qmax)
    {
      qmax := 0.0;
      indMax := -1;
      for k := 0 to qstored.Length
        invariant (indMax, qmax) == BestPrefix(qstored[..], k)
      {
        if qstored[k] > qmax {
          qmax := qstored[k];
          indMax := k;
        }
      }
      BestPrefixIsBestMove(qstored[..], qstored.Length);
      assert qstored[..qstored.Length] == qstored[..];
    }

    /** Node indMax changes side in `si` and `SI` and is marked visited. */
    method MoveNode(indMax: nat)
      requires Sized() && indMax < nrBgi
      modifies si, SI, visited
      ensures Cur() == Move(old(Cur()), indMax)
    {
      visited[indMax] := true;
      if si[indMax] == 1 {
        si[indMax] := -1;
        SI[(indMax * 2) + 0] := 0;
        SI[(indMax * 2) + 1] := 1;
      } else {
        si[indMax] := 1;
        SI[(indMax * 2) + 0] := 1;
        SI[(indMax * 2) + 1] := 0;
      }
    }

    /** countmax + 1 greedy rounds; the split returned is the snapshot taken
        after the last round whose gain beat the previous round's (or the
        entry split), while `visited` keeps every move. */
    method ModifySplit(countmax: nat)
      requires Sized()
      modifies si, SI, visited
      ensures visited[..] == Rounds(bgi[..], nrBgi, old(Cur()), countmax + 1).visited
      ensures var r := SnapshotRound(bgi[..], nrBgi, old(Cur()), countmax);
        si[..] == Rounds(bgi[..], nrBgi, old(Cur()), r).si && SI[..] == Rounds(bgi[..], nrBgi, old(Cur()), r).SI
    {
      ghost var st := Cur();
      ghost var B := bgi[..];
      var count := 0;
      var Ng := nrBgi;
      var KK := 2 * Ng;
      var qmax := 0.0;
      var qold := 0.0;
      var Gsi := new int[Ng];
      var GSI := new int[KK];
      Copy(si, Gsi);
      Copy(SI, GSI);
      qmax := MaxModularity();
      SearchAfterFirst(B, Ng, st);
      while count < countmax
        invariant 0 <= count <= countmax
        invariant var s := SearchAfter(B, Ng, st, count);
          Cur() == s.cur && qmax == s.qmax && qold == s.qold && Gsi[..] == s.snap.si && GSI[..] == s.snap.SI
      {
        qmax, qold := ModifyPass(B, st, count, Gsi, GSI, qmax, qold);
        count := count + 1;
      }
      ghost var after := SearchAfter(B, Ng, st, countmax);
      ghost var vis := visited[..];
      assert vis == after.cur.visited && Gsi[..] == after.snap.si && GSI[..] == after.snap.SI;
      Copy(Gsi, si);
      Copy(GSI, SI);
      SearchResult(B, Ng, st, countmax, State(si[..], SI[..], vis));
    }

    /** One pass of the loop of `modifySplit`: the current split is saved
        when the last round gained more than the one before, then one more
        round runs. */
    method ModifyPass(ghost B: seq<real>, ghost st: State, ghost count: nat, Gsi: array<int>, GSI: array<int>, qmax: real, qold: real)
      returns (qmax': real, qold': real)
      requires Sized() && B == bgi[..] && Shaped(st, nrBgi)
      requires Gsi.Length == nrBgi && GSI.Length == 2 * nrBgi
      requires Gsi != si && Gsi != SI && GSI != si && GSI != SI && Gsi != GSI
      requires var s := SearchAfter(B, nrBgi, st, count);
        Cur() == s.cur && qmax == s.qmax && qold == s.qold && Gsi[..] == s.snap.si && GSI[..] == s.snap.SI
      modifies si, SI, visited, Gsi, GSI
      ensures var s := SearchAfter(B, nrBgi, st, count + 1);
        Cur() == s.cur && qmax' == s.qmax && qold' == s.qold && Gsi[..] == s.snap.si && GSI[..] == s.snap.SI
    {
      SearchAfterNext(B, nrBgi, st, count);
      if qmax > qold {
        Copy(si, Gsi);
        Copy(SI, GSI);
      }
      qold' := qmax;
      qmax' := 0.0;
      qmax' := MaxModularity();
    }

    /** The element-wise copy loops of `modifySplit`. */
    static method Copy(src: array<int>, dst: array<int>)
      requires src.Length == dst.Length && src != dst
      modifies dst
      ensures dst[..] == src[..]
    {
      for k := 0 to src.Length
        invariant dst[..k] == src[..k]
      {
        dst[k] := src[k];
      }
      assert dst[..] == dst[..src.Length];
    }

    /** The number of keys of a list (the first loop of `split`). */
    static method CountKeys(keys: array<int>, dummy: int) returns (Ng: nat)
      ensures Ng == Count(keys[..], dummy)
    {
      Ng := 0;
      for k := 0 to keys.Length
        invariant Ng == Count(keys[..k], dummy)
      {
        CountNext(keys[..], dummy, k);
        assert keys[..][..k] == keys[..k] && keys[..][..k + 1] == keys[..k + 1];
        if keys[k] != dummy {
          Ng := Ng + 1;
        }
      }
      assert keys[..keys.Length] == keys[..];
    }

    /** `Bgii`: the entries of the n-by-n matrix B0 whose row and column both
        hold a key, row by row, as an Ng-by-Ng matrix. */
    static method ExtractGroup(B0: array<real>, n: nat, keys: array<int>, dummy: int, Ng: nat) returns (Bg: array<real>)
      requires B0.Length == n * n && keys.Length == n && Ng == Count(keys[..], dummy)
      ensures fresh(Bg) && Bg.Length == Ng * Ng
      ensures Bg[..] == Submatrix(B0[..], n, Positions(keys[..], dummy))
      ensures forall a, b :: 0 <= a < Ng && 0 <= b < Ng ==>
        At(Bg[..], Ng, a, b) == At(B0[..], n, Positions(keys[..], dummy)[a], Positions(keys[..], dummy)[b])
    {
      Bg := new real[Ng * Ng];
      var p := 0;
      for i := 0 to n
        invariant p == Count(keys[..i], dummy) * Ng && p <= Ng * Ng
        invariant Filled(Bg[..], B0[..], n, Positions(keys[..], dummy), p)
      {
        p := ExtractRow(B0, n, keys, dummy, Ng, i, Bg, p);
      }
      assert keys[..n] == keys[..];
      assert Bg[..] == Submatrix(B0[..], n, Positions(keys[..], dummy));
      SubFromFlat(B0[..], n, Positions(keys[..], dummy), Bg[..]);
    }

    /** `Bgii[k] = v`, seen as an update of the whole buffer. */
    static method Store(Bg: array<real>, k: nat, v: real)
      requires k < Bg.Length
      modifies Bg
      ensures Bg[..] == old(Bg[..])[k := v]
    {
      Bg[k] := v;
    }

    /** Row i of the extraction loop of `split`: when slot i holds a key,
        the entries of row i in the key columns are appended at p. */
    static method ExtractRow(B0: array<real>, n: nat, keys: array<int>, dummy: int, Ng: nat, i: nat, Bg: array<real>, p0: nat)
      returns (p: nat)
      requires B0.Length == n * n && keys.Length == n && Ng == Count(keys[..], dummy) && i < n
      requires Bg.Length == Ng * Ng && B0 != Bg
      requires p0 == Count(keys[..i], dummy) * Ng && p0 <= Ng * Ng
      requires Filled(Bg[..], B0[..], n, Positions(keys[..], dummy), p0)
      modifies Bg
      ensures p == Count(keys[..i + 1], dummy) * Ng && p <= Ng * Ng
      ensures Filled(Bg[..], B0[..], n, Positions(keys[..], dummy), p)
    {
      ghost var a := Count(keys[..i], dummy);
      CountNext(keys[..], dummy, i);
      assert keys[..][..i] == keys[..i] && keys[..][..i + 1] == keys[..i + 1];
      p := p0;
      if keys[i] == dummy {
        return;
      }
      PositionOfSlot(keys[..], dummy, i);
      MulMono(a + 1, Ng, Ng);
      MulSucc(a, Ng);
      for j := 0 to n
        invariant p == a * Ng + Count(keys[..j], dummy) && p <= Ng * Ng
        invariant Filled(Bg[..], B0[..], n, Positions(keys[..], dummy), p)
      {
        p := ExtractEntry(B0, n, keys, dummy, Ng, i, j, Bg, a, p);
      }
      assert keys[..n] == keys[..];
    }

    /** Column j of row i of the extraction loop: when slot j holds a key,
        entry (i, j) of B0 is stored at p. */
    static method ExtractEntry(B0: array<real>, n: nat, keys: array<int>, dummy: int, Ng: nat, i: nat, j: nat,
                               Bg: array<real>, ghost a: nat, p0: nat)
      returns (p: nat)
      requires B0.Length == n * n && keys.Length == n && Ng == Count(keys[..], dummy) && i < n && j < n
      requires Bg.Length == Ng * Ng && B0 != Bg
      requires keys[i] != dummy && a == Count(keys[..i], dummy) && (a + 1) * Ng == a * Ng + Ng && (a + 1) * Ng <= Ng * Ng
      requires p0 == a * Ng + Count(keys[..j], dummy) && p0 <= Ng * Ng
      requires Filled(Bg[..], B0[..], n, Positions(keys[..], dummy), p0)
      modifies Bg
      ensures p == a * Ng + Count(keys[..j + 1], dummy) && p <= Ng * Ng
      ensures Filled(Bg[..], B0[..], n, Positions(keys[..], dummy), p)
    {
      ghost var P := Positions(keys[..], dummy);
      ghost var b0 := B0[..];
      CountNext(keys[..], dummy, j);
      assert keys[..][..j] == keys[..j] && keys[..][..j + 1] == keys[..j + 1];
      p := p0;
      if keys[j] != dummy {
        ghost var b := Count(keys[..j], dummy);
        PositionOfSlot(keys[..], dummy, i);
        PositionOfSlot(keys[..], dummy, j);
        assert P[a] == i && P[b] == j && p == a * Ng + b;
        SubFlatEntry(b0, n, P, Ng, a, b, i, j);
        FilledNext(Bg[..], b0, n, P, p, B0[(i * n) + j]);
        Store(Bg, p, B0[(i * n) + j]);
        p := p + 1;
      }
    }

    /** The keys of a list with the sentinels squeezed out (the filter loops
        of `split`). */
    static method FilterInto(keys: array<int>, dummy: int, dst: array<int>)
      requires dst.Length == Count(keys[..], dummy) && keys != dst
      modifies dst
      ensures dst[..] == Filter(keys[..], dummy)
    {
      var i := 0;
      for k := 0 to keys.Length
        invariant i == Count(keys[..k], dummy) && i <= dst.Length
        invariant dst[..i] == Filter(keys[..k], dummy)
      {
        CountNext(keys[..], dummy, k);
        assert keys[..][..k] == keys[..k] && keys[..][..k + 1] == keys[..k + 1];
        if keys[k] != dummy {
          PositionOfSlot(keys[..], dummy, k);
          dst[i] := keys[k];
          i := i + 1;
        }
      }
      assert keys[..keys.Length] == keys[..];
      assert dst[..] == dst[..i];
    }

    /** `modifySplit(Ng)` as the fine-tuning loops call it: one pass. */
    method ModifySplitEffect()
      requires Sized()
      modifies si, SI, visited
      ensures Sized() && Cur() == Pass(bgi[..], nrBgi, old(Cur()))
    {
      ModifySplit(nrBgi);
    }

    /** One pass of a fine-tuning loop, `modifySplit(Ng)` followed by
        `deltaModularity()`: the state is the pass of the entry state, qnew
        is the score of the new split, and a pass that marks no new node
        leaves the score as it was. */
    method FineTunePass(q: real) returns (qnew: real)
      requires Sized() && OneHot(si[..], SI[..])
      requires q == Modularity(norm, bgi[..], nrBgi, SI[..], 2 * nrBgi)
      modifies si, SI, visited
      ensures Sized() && OneHot(si[..], SI[..]) && bgi[..] == old(bgi[..]) && Cur() == Pass(bgi[..], nrBgi, old(Cur()))
      ensures qnew == Modularity(norm, bgi[..], nrBgi, SI[..], 2 * nrBgi)
      ensures forall k :: 0 <= k < nrBgi && old(visited[k]) ==> visited[k]
      ensures forall k :: 0 <= k < nrBgi && si[k] != old(si[k]) ==> visited[k]
      ensures CountTrue(old(visited[..])) <= CountTrue(visited[..])
      ensures CountTrue(visited[..]) == CountTrue(old(visited[..])) ==> qnew == q
    {
      ghost var B, S, sum := bgi[..], SI[..], Modularity(norm, bgi[..], nrBgi, SI[..], 2 * nrBgi);
      ghost var st := Cur();
      ModifySplitEffect();
      assert bgi[..] == B;
      PassFacts(B, nrBgi, st);
      qnew := DeltaModularity();
      if CountTrue(visited[..]) == CountTrue(old(visited[..])) {
        assert SI[..] == S;
        assert Modularity(norm, bgi[..], nrBgi, SI[..], 2 * nrBgi) == sum;
      }
    }

    /** The reset of `visited` before a fine-tuning loop: no node is marked. */
    method ResetVisited()
      modifies this`visited
      ensures fresh(visited) && visited.Length == nrBgi && forall k :: 0 <= k < nrBgi ==> !visited[k]
    {
      visited := new bool[nrBgi](_ => false);
    }

    /** The fine-tuning loop of `split`: `modifySplit(Ng)` and
        `deltaModularity` run until the score changes by at most `tol`.  The
        loop variables end as `SplitTuning` from the entry state says: the
        split it leaves, its score `q` (`deltaQ_old`), the score one pass
        earlier and the number of passes. */
    method FineTuneSplit(q0: real) returns (q: real, ghost t: Tuning)
      requires Sized() && OneHot(si[..], SI[..]) && tol >= 0.0
      requires q0 == Modularity(norm, bgi[..], nrBgi, SI[..], 2 * nrBgi)
      modifies visited, si, SI
      ensures Sized() && OneHot(si[..], SI[..])
      ensures t == SplitTuning(norm, bgi[..], nrBgi, tol, old(Cur())) && Cur() == t.st && q == t.q
    {
      ghost var B, n, st0 := bgi[..], nrBgi, Cur();
      PassOfLaws(B, n);
      ghost var pass, score := PassOf(B, n), ScoreOf(norm, B, n);
      ghost var T := SplitTuning(norm, B, n, tol, st0);
      q := q0;
      t := Tuning(st0, st0, q0, q0, 0, false);
      var diff := Fabs(q0);
      assert T == Tune(pass, score, n, tol, false, t, diff);
      while diff > tol
        invariant Sized() && OneHot(si[..], SI[..]) && bgi[..] == B
        invariant Shaped(t.st, n) && Cur() == t.st && q == t.q && q == score(t.st)
        invariant q == Modularity(norm, B, n, SI[..], 2 * n)
        invariant Tune(pass, score, n, tol, false, t, diff) == T
        decreases n - CountTrue(t.st.visited), if diff > tol then 1 else 0
      {
        var qnew := FineTunePass(q);
        PassGoesOn(norm, B, n, tol, false, t, diff, Cur(), qnew);
        diff := Fabs(qnew - q);
        t := Tuning(Cur(), t.st, qnew, t.q, t.passes + 1, false);
        q := qnew;
      }
    }

    /** The fine-tuning loop of `calculateSpectralModularity`: as in `split`,
        except that the first test compares the score itself (not its
        absolute value) with `tol`, and the loop stops at once when a pass
        gives a negative score.  The loop variables end as `TopTuning` from
        the entry state says; after a break `q` is the last non-negative
        score while the split is the one that scored below zero. */
    method FineTuneTop(q0: real) returns (q: real, ghost t: Tuning)
      requires Sized() && OneHot(si[..], SI[..]) && tol >= 0.0
      requires q0 == Modularity(norm, bgi[..], nrBgi, SI[..], 2 * nrBgi)
      modifies visited, si, SI
      ensures Sized() && OneHot(si[..], SI[..])
      ensures t == TopTuning(norm, bgi[..], nrBgi, tol, old(Cur())) && Cur() == t.st && q == t.q
    {
      ghost var B, n, st0 := bgi[..], nrBgi, Cur();
      PassOfLaws(B, n);
      ghost var pass, score := PassOf(B, n), ScoreOf(norm, B, n);
      ghost var T := TopTuning(norm, B, n, tol, st0);
      q := q0;
      t := Tuning(st0, st0, q0, q0, 0, false);
      var diff := q0;
      assert T == Tune(pass, score, n, tol, true, t, diff);
      while diff > tol
        invariant Sized() && OneHot(si[..], SI[..]) && bgi[..] == B
        invariant Shaped(t.st, n) && Cur() == t.st && q == t.q && q == score(t.st)
        invariant q == Modularity(norm, B, n, SI[..], 2 * n)
        invariant Tune(pass, score, n, tol, true, t, diff) == T
        decreases n - CountTrue(t.st.visited), if diff > tol then 1 else 0
      {
        var qnew := FineTunePass(q);
        if qnew < 0.0 {
          PassStops(norm, B, n, tol, t, diff, Cur(), qnew);
          t := Tuning(Cur(), t.st, t.q, t.qprev, t.passes + 1, true);
          break;
        }
        PassGoesOn(norm, B, n, tol, true, t, diff, Cur(), qnew);
        diff := Fabs(qnew - q);
        t := Tuning(Cur(), t.st, qnew, t.q, t.passes + 1, false);
        q := qnew;
      }
      assert t == T;
    }

    /** The sizes of the two sides of the split: `cp` nodes with si > 0 and
        `cn` with si <= 0. */
    method CountSides() returns (cp: nat, cn: nat)
      requires si.Length == nrBgi
      ensures cp == CountPositive(si[..]) && cp + cn == nrBgi
    {
      cp, cn := 0, 0;
      for k := 0 to nrBgi
        invariant cp == CountPositive(si[..k]) && cp + cn == k
      {
        assert si[..k + 1][..k] == si[..k];
        if si[k] > 0 {
          cp := cp + 1;
        } else {
          cn := cn + 1;
        }
      }
      assert si[..nrBgi] == si[..];
    }

    /** An accepted split in `split`: `MAXK` goes up by one, the nodes of
        the new side (si > 0 in splitP, si < 0 in splitN) get label `MAXK`,
        and the filtered keys are dealt into the two child lists. */
    method Relabel(side: Side, kp: array<int>, kn: array<int>, ghost kf: seq<int>)
      requires Valid() && si.Length == kp.Length && kn.Length == kp.Length && |kf| == kp.Length
      requires kp != kn && si != kp && si != kn
      requires (if side == SplitP then kp[..] else kn[..]) == kf
      requires forall k :: 0 <= k < |kf| ==> 0 <= kf[k] < N
      modifies V, kp, kn, this`maxK
      ensures Valid() && maxK == old(maxK) + 1
      ensures forall k :: 0 <= k < |kf| ==> (kp[k], kn[k]) == ChildSlots(side, si[k], kf[k], dummy)
      ensures forall v :: 0 <= v < N ==>
        V[v] == if Relabelled(kf, si[..], side, |kf|, v) then old(V[v]).(K := maxK) else old(V[v])
    {
      var ncomp := maxK + 1;
      maxK := ncomp;
      if side == SplitP {
        DealP(kp, kn, kf, ncomp);
      } else {
        DealN(kp, kn, kf, ncomp);
      }
    }

    /** The relabelling loop of `split` for "splitP": a node with si > 0
        keeps its key in `keysi_p` and gets label ncomp, any other node has
        its key moved to `keysi_n`. */
    method DealP(kp: array<int>, kn: array<int>, ghost kf: seq<int>, ncomp: int)
      requires V.Length == N && si.Length == kp.Length && kn.Length == kp.Length && |kf| == kp.Length
      requires kp != kn && si != kp && si != kn && kp[..] == kf
      requires forall k :: 0 <= k < |kf| ==> 0 <= kf[k] < N
      modifies V, kp, kn
      ensures forall k :: 0 <= k < |kf| ==> (kp[k], kn[k]) == ChildSlots(SplitP, si[k], kf[k], dummy)
      ensures forall v :: 0 <= v < N ==>
        V[v] == if Relabelled(kf, si[..], SplitP, |kf|, v) then old(V[v]).(K := ncomp) else old(V[v])
    {
      ghost var V0 := V[..];
      for k := 0 to kp.Length
        invariant forall p :: k <= p < |kf| ==> kp[p] == kf[p]
        invariant forall p :: 0 <= p < k ==> (kp[p], kn[p]) == ChildSlots(SplitP, si[p], kf[p], dummy)
        invariant forall v :: 0 <= v < N ==>
          V[v] == if Relabelled(kf, si[..], SplitP, k, v) then V0[v].(K := ncomp) else V0[v]
      {
        RelabelledNext(kf, si[..], SplitP, k);
        if si[k] > 0 {
          kn[k] := dummy;
          V[kp[k]] := V[kp[k]].(K := ncomp);
        } else {
          kn[k] := kp[k];
          kp[k] := dummy;
        }
      }
    }

    /** The relabelling loop of `split` for "splitN": a node with si < 0
        keeps its key in `keysi_n` and gets label ncomp, any other node has
        its key moved to `keysi_p`. */
    method DealN(kp: array<int>, kn: array<int>, ghost kf: seq<int>, ncomp: int)
      requires V.Length == N && si.Length == kp.Length && kn.Length == kp.Length && |kf| == kp.Length
      requires kp != kn && si != kp && si != kn && kn[..] == kf
      requires forall k :: 0 <= k < |kf| ==> 0 <= kf[k] < N
      modifies V, kp, kn
      ensures forall k :: 0 <= k < |kf| ==> (kp[k], kn[k]) == ChildSlots(SplitN, si[k], kf[k], dummy)
      ensures forall v :: 0 <= v < N ==>
        V[v] == if Relabelled(kf, si[..], SplitN, |kf|, v) then old(V[v]).(K := ncomp) else old(V[v])
    {
      ghost var V0 := V[..];
      for k := 0 to kn.Length
        invariant forall p :: k <= p < |kf| ==> kn[p] == kf[p]
        invariant forall p :: 0 <= p < k ==> (kp[p], kn[p]) == ChildSlots(SplitN, si[p], kf[p], dummy)
        invariant forall v :: 0 <= v < N ==>
          V[v] == if Relabelled(kf, si[..], SplitN, k, v) then V0[v].(K := ncomp) else V0[v]
      {
        RelabelledNext(kf, si[..], SplitN, k);
        if si[k] < 0 {
          kp[k] := dummy;
          V[kn[k]] := V[kn[k]].(K := ncomp);
        } else {
          kp[k] := kn[k];
          kn[k] := dummy;
        }
      }
    }

    /** The labelling of `calculateSpectralModularity`: label 1 and a slot
        in `keys_p` for the nodes with si > 0, label 2 and a slot in
        `keys_n` for the others. */
    method LabelTopLevel()
      requires Valid() && si.Length == N && si != keysP && si != keysN
      modifies keysP, keysN, V
      ensures Valid()
      ensures forall k :: 0 <= k < N ==>
        keysP[k] == (if si[k] > 0 then k else dummy) && keysN[k] == (if si[k] > 0 then dummy else k)
      ensures forall k :: 0 <= k < N ==> V[k] == old(V[k]).(K := if si[k] > 0 then 1 else 2)
    {
      ghost var V0 := V[..];
      for k := 0 to N
        invariant forall p :: 0 <= p < k ==>
          keysP[p] == (if si[p] > 0 then p else dummy) && keysN[p] == (if si[p] > 0 then dummy else p)
        invariant forall p :: 0 <= p < N ==>
          V[p] == if p < k then V0[p].(K := if si[p] > 0 then 1 else 2) else V0[p]
      {
        if si[k] > 0 {
          keysP[k] := V[k].id;
          keysN[k] := dummy;
          V[k] := V[k].(K := 1);
        } else {
          keysP[k] := dummy;
          keysN[k] := V[k].id;
          V[k] := V[k].(K := 2);
        }
      }
    }

    /** `split(Bgiii, NR_Bgiii, keys, sign)`: the group of the keys of
        `keys` is bisected when the leading eigenvalue of its generalised
        matrix exceeds `tol` and both sides of the fine-tuned split have at
        least `MINCn` nodes; then the new side gets label `MAXK + 1` and both
        sides are split in turn, on the submatrix of the group.  Only labels
        of the group change, only to numbers above the entry `MAXK`, and
        `MAXK` rises exactly when the split is accepted. */
    method Split(B0: array<real>, n: nat, keys: array<int>, side: Side, eig: Eigensolver)
      returns (ghost accepted: bool, ghost beta: real, ghost cp: nat, ghost cn: nat)
      requires Valid() && OracleShaped(eig)
      requires B0.Length == n * n && keys.Length == n && n <= N
      requires Restricts(B0[..], n, keys[..], bgiTemp[..], N, dummy)
      modifies this, V
      decreases Count(keys[..], dummy), 4
      ensures Valid() && tol == old(tol) && minCn == old(minCn) && norm == old(norm) && old(maxK) <= maxK
      ensures accepted ==> old(maxK) < maxK
      ensures !accepted ==> maxK == old(maxK) && V[..] == old(V[..])
      ensures LabelsWithin(old(V[..]), V[..], keys[..], dummy, old(maxK), maxK)
      ensures var Ng := Count(keys[..], dummy);
        LeadingValue(eig(GeneralisedOf(Submatrix(B0[..], n, Positions(keys[..], dummy)), Ng), Ng).d, beta)
      ensures accepted <==> beta > tol && minCn <= cp && minCn <= cn
      ensures var Ng := Count(keys[..], dummy); var G := GeneralisedOf(Submatrix(B0[..], n, Positions(keys[..], dummy)), Ng);
        beta > tol ==>
          exists v :: LeadingPair(eig(G, Ng), Ng, beta, v) &&
            cp == CountPositive(SplitTuning(norm, G, Ng, tol, Initial(v)).st.si) && cn == Ng - cp &&
            (!accepted ==> specQ == old(specQ) + SplitTuning(norm, G, Ng, tol, Initial(v)).q)
      ensures !(beta > tol) ==> specQ == old(specQ)
    {
      ghost var B, ks := B0[..], keys[..];
      var Ng, Bgii, kp, kn := Prepare(B0, n, keys, side, eig);
      assert B0[..] == B && keys[..] == ks;
      ghost var kf := Filter(ks, dummy);
      ghost var G, v := bgi[..], u[..];
      assert G == GeneralisedOf(Submatrix(B, n, Positions(ks, dummy)), Ng);
      beta := betai;
      if betai > tol {
        accepted, cp, cn := Bisect(Bgii, Ng, kp, kn, side, kf, eig);
        assert B0[..] == B && keys[..] == ks;
        LabelsWithinFilter(old(V[..]), V[..], ks, dummy, old(maxK), maxK);
        assert LeadingPair(eig(G, Ng), Ng, beta, v);
      } else {
        accepted, cp, cn := false, 0, 0;
      }
    }

    /** The part of `split` before the eigenvalue test: the group matrix
        `Bgii` and its key lists, then the generalised matrix of `Bgii` as
        the current matrix and its leading eigenpair. */
    method Prepare(B0: array<real>, n: nat, keys: array<int>, side: Side, eig: Eigensolver)
      returns (Ng: nat, Bgii: array<real>, kp: array<int>, kn: array<int>)
      requires Valid() && OracleShaped(eig)
      requires B0.Length == n * n && keys.Length == n && n <= N
      requires Restricts(B0[..], n, keys[..], bgiTemp[..], N, dummy)
      modifies this`bgi, this`nrBgi, this`ncBgi, this`betai, this`u
      ensures Valid() && Ng == Count(keys[..], dummy) && nrBgi == Ng && u.Length == Ng
      ensures fresh(Bgii) && fresh(kp) && fresh(kn) && kp != kn
      ensures Bgii.Length == Ng * Ng && kp.Length == Ng && kn.Length == Ng
      ensures (if side == SplitP then kp[..] else kn[..]) == Filter(keys[..], dummy)
      ensures forall k :: 0 <= k < Ng ==> Filter(keys[..], dummy)[k] != dummy
      ensures Restricts(Bgii[..], Ng, Filter(keys[..], dummy), bgiTemp[..], N, dummy)
      ensures bgi[..] == GeneralisedOf(Submatrix(B0[..], n, Positions(keys[..], dummy)), Ng)
      ensures LeadingValue(eig(bgi[..], Ng).d, betai)
      ensures Ng > 0 ==> LeadingPair(eig(bgi[..], Ng), Ng, betai, u[..])
    {
      Ng, Bgii, kp, kn := Group(B0, n, keys, side);
      ghost var G := GeneralisedOf(Submatrix(B0[..], n, Positions(keys[..], dummy)), Ng);
      RestrictsSymmetric(Bgii[..], Ng, Filter(keys[..], dummy), bgiTemp[..], N, dummy);
      CalculateB(Bgii, Ng);
      GeneralisedProperties(Bgii[..], bgi[..], Ng);
      assert bgi[..] == G;
      CalculateEigenVectors(eig);
    }

    /** The group matrix `Bgii` of `split` (the entries of B0 whose row and
        column hold a key) and its two key lists, the list of the calling
        side holding the filtered keys. */
    method Group(B0: array<real>, n: nat, keys: array<int>, side: Side)
      returns (Ng: nat, Bgii: array<real>, kp: array<int>, kn: array<int>)
      requires B0.Length == n * n && keys.Length == n
      requires Restricts(B0[..], n, keys[..], bgiTemp[..], N, dummy)
      ensures Ng == Count(keys[..], dummy) && Ng <= n
      ensures fresh(Bgii) && fresh(kp) && fresh(kn) && kp != kn
      ensures Bgii.Length == Ng * Ng && kp.Length == Ng && kn.Length == Ng
      ensures Bgii[..] == Submatrix(B0[..], n, Positions(keys[..], dummy))
      ensures (if side == SplitP then kp[..] else kn[..]) == Filter(keys[..], dummy)
      ensures forall k :: 0 <= k < Ng ==> Filter(keys[..], dummy)[k] != dummy
      ensures Restricts(Bgii[..], Ng, Filter(keys[..], dummy), bgiTemp[..], N, dummy)
    {
      Ng := CountKeys(keys, dummy);
      Bgii := ExtractGroup(B0, n, keys, dummy, Ng);
      kp := new int[Ng];
      kn := new int[Ng];
      if side == SplitP {
        FilterInto(keys, dummy, kp);
      } else {
        FilterInto(keys, dummy, kn);
      }
      FilterKeys(keys[..], dummy);
      ExtractRestricts(B0[..], n, keys[..], Bgii[..], bgiTemp[..], N, dummy);
    }

    /** The part of `split` past the eigenvalue test, on the current
        (generalised) matrix of the group with filtered keys kf: the split
        is tuned, refused when a side is below `MINCn`, and otherwise
        relabelled and both sides split in turn. */
    method Bisect(Bgii: array<real>, Ng: nat, kp: array<int>, kn: array<int>, side: Side,
                  ghost kf: seq<int>, eig: Eigensolver)
      returns (ghost accepted: bool, ghost sizeP: nat, ghost sizeN: nat)
      requires Valid() && OracleShaped(eig) && nrBgi == Ng && u.Length == Ng
      requires Bgii.Length == Ng * Ng && kp.Length == Ng && kn.Length == Ng && kp != kn && |kf| == Ng
      requires (if side == SplitP then kp[..] else kn[..]) == kf
      requires forall k :: 0 <= k < Ng ==> kf[k] != dummy
      requires Restricts(Bgii[..], Ng, kf, bgiTemp[..], N, dummy)
      modifies this, V, kp, kn
      decreases Ng, 3
      ensures Valid() && tol == old(tol) && minCn == old(minCn) && norm == old(norm)
      ensures accepted ==> old(maxK) < maxK
      ensures !accepted ==> maxK == old(maxK) && V[..] == old(V[..])
      ensures LabelsWithin(old(V[..]), V[..], kf, dummy, old(maxK), maxK)
      ensures accepted <==> minCn <= sizeP && minCn <= sizeN
      ensures var t := SplitTuning(old(norm), old(bgi[..]), Ng, old(tol), Initial(old(u[..])));
        sizeP == CountPositive(t.st.si) && sizeN == Ng - sizeP && (!accepted ==> specQ == old(specQ) + t.q)
    {
      var cp, cn := TunedSides();
      sizeP, sizeN := cp, cn;
      accepted := Settle(Bgii, Ng, kp, kn, side, kf, eig, cp, cn);
    }

    /** The tuned split of `split` and the sizes of its two sides. */
    method TunedSides() returns (cp: nat, cn: nat)
      requires Valid() && u.Length == nrBgi
      modifies this`si, this`SI, this`visited, this`specQ
      ensures Valid() && fresh(si) && si.Length == nrBgi && IsSign(si[..])
      ensures cp == CountPositive(si[..]) && cp + cn == nrBgi
      ensures var t := SplitTuning(old(norm), old(bgi[..]), nrBgi, old(tol), Initial(old(u[..])));
        cp == CountPositive(t.st.si) && specQ == old(specQ) + t.q
    {
      ghost var t := TuneSplit();
      assert t.st.si == si[..];
      cp, cn := CountSides();
    }

    /** The size test of `split` on the tuned split, with `cp` nodes on the
        positive side and `cn` on the other: below `MINCn` on either side
        nothing changes, otherwise the split is accepted. */
    method Settle(Bgii: array<real>, Ng: nat, kp: array<int>, kn: array<int>, side: Side,
                  ghost kf: seq<int>, eig: Eigensolver, cp: nat, cn: nat)
      returns (ghost accepted: bool)
      requires Valid() && OracleShaped(eig) && Ng <= N
      requires Bgii.Length == Ng * Ng && kp.Length == Ng && kn.Length == Ng && kp != kn && |kf| == Ng
      requires si.Length == Ng && si != kp && si != kn && IsSign(si[..])
      requires cp == CountPositive(si[..]) && cp + cn == Ng
      requires (if side == SplitP then kp[..] else kn[..]) == kf
      requires forall k :: 0 <= k < Ng ==> kf[k] != dummy
      requires Restricts(Bgii[..], Ng, kf, bgiTemp[..], N, dummy)
      modifies this, V, kp, kn
      decreases Ng, 2
      ensures Valid() && tol == old(tol) && minCn == old(minCn) && norm == old(norm)
      ensures accepted <==> minCn <= cp && minCn <= cn
      ensures accepted ==> old(maxK) < maxK
      ensures !accepted ==> maxK == old(maxK) && V[..] == old(V[..]) && specQ == old(specQ)
      ensures LabelsWithin(old(V[..]), V[..], kf, dummy, old(maxK), maxK)
    {
      if cp < minCn || cn < minCn {
        return false;
      }
      Accept(Bgii, Ng, kp, kn, side, kf, eig);
      return true;
    }

    /** `maximiseIndexVectors()` then `deltaModularity(deltaQ_old)`: the
        split read off the eigenvector and its score. */
    method InitialSplit() returns (q: real)
      requires u.Length == nrBgi && bgi.Length == nrBgi * nrBgi
      modifies this`si, this`SI
      ensures fresh(si) && fresh(SI) && si != SI && si.Length == nrBgi && SI.Length == 2 * nrBgi
      ensures forall k :: 0 <= k < nrBgi ==> si[k] == SignOf(u[k])
      ensures OneHot(si[..], SI[..])
      ensures q == Modularity(norm, bgi[..], nrBgi, SI[..], 2 * nrBgi)
    {
      MaximiseIndexVectors();
      q := DeltaModularity();
    }

    /** What both fine-tuning loops start from: the split of the
        eigenvector, its score `deltaQ_old`, and `visited` cleared. */
    method StartTuning() returns (q: real)
      requires Valid() && u.Length == nrBgi
      modifies this`si, this`SI, this`visited
      ensures Valid() && fresh(si) && fresh(SI) && fresh(visited) && Sized() && OneHot(si[..], SI[..])
      ensures Cur() == Initial(u[..])
      ensures q == Modularity(norm, bgi[..], nrBgi, SI[..], 2 * nrBgi)
    {
      q := InitialSplit();
      ResetVisited();
      assert Valid();
      InitialOf(u[..], si[..], SI[..], visited[..]);
    }

    /** The bisection of a group in `split`: the leading eigenvector gives
        the split, which is fine-tuned from a cleared `visited` as
        `SplitTuning` says and whose score is added to `specQ`. */
    method TuneSplit() returns (ghost t: Tuning)
      requires Valid() && u.Length == nrBgi
      modifies this`si, this`SI, this`visited, this`specQ
      ensures Valid() && fresh(si) && Sized() && OneHot(si[..], SI[..])
      ensures t == SplitTuning(norm, bgi[..], nrBgi, tol, Initial(u[..])) && Cur() == t.st
      ensures t == SplitTuning(old(norm), old(bgi[..]), nrBgi, old(tol), Initial(old(u[..])))
      ensures specQ == old(specQ) + t.q && t.q == Modularity(norm, bgi[..], nrBgi, SI[..], 2 * nrBgi)
      ensures t.passes <= nrBgi + 1
    {
      var dQold := StartTuning();
      var dQ;
      dQ, t := FineTuneSplit(dQold);
      assert Valid();
      specQ := specQ + dQ;
      SplitTuned(norm, bgi[..], nrBgi, tol, u[..]);
      assert t.st.SI == SI[..];
    }

    /** An accepted split: the new side is relabelled with `MAXK + 1`, the
        keys are dealt into the two child lists, and both children are
        split in turn. */
    method Accept(Bgii: array<real>, Ng: nat, kp: array<int>, kn: array<int>, side: Side,
                  ghost kf: seq<int>, eig: Eigensolver)
      requires Valid() && OracleShaped(eig) && Ng <= N
      requires Bgii.Length == Ng * Ng && kp.Length == Ng && kn.Length == Ng && kp != kn && |kf| == Ng
      requires si.Length == Ng && si != kp && si != kn && IsSign(si[..]) && 0 < CountPositive(si[..]) < Ng
      requires (if side == SplitP then kp[..] else kn[..]) == kf
      requires forall k :: 0 <= k < Ng ==> kf[k] != dummy
      requires Restricts(Bgii[..], Ng, kf, bgiTemp[..], N, dummy)
      modifies this, V, kp, kn
      decreases Ng, 1
      ensures Valid() && tol == old(tol) && minCn == old(minCn) && norm == old(norm) && old(maxK) < maxK
      ensures LabelsWithin(old(V[..]), V[..], kf, dummy, old(maxK), maxK)
    {
      Relabel(side, kp, kn, kf);
      LabelsOfRelabel(old(V[..]), V[..], kf, si[..], side, dummy, old(maxK), maxK);
      ChildLists(side, kf, si[..], kp[..], kn[..], dummy);
      RestrictsToChild(Bgii[..], Ng, kf, kp[..], bgiTemp[..], N, dummy);
      RestrictsToChild(Bgii[..], Ng, kf, kn[..], bgiTemp[..], N, dummy);
      ghost var V1, k1 := V[..], maxK;
      SplitChildren(Bgii, Ng, kp, kn, kf, eig);
      LabelsWithinTrans(old(V[..]), V1, V[..], kf, dummy, old(maxK), k1, maxK);
    }

    /** The two recursive calls of an accepted split, on the group matrix
        with the two child key lists. */
    method SplitChildren(Bgii: array<real>, Ng: nat, kp: array<int>, kn: array<int>, ghost kf: seq<int>, eig: Eigensolver)
      requires Valid() && OracleShaped(eig) && Ng <= N
      requires Bgii.Length == Ng * Ng && kp.Length == Ng && kn.Length == Ng && |kf| == Ng
      requires forall k :: 0 <= k < Ng ==> (kp[k] == kf[k] || kp[k] == dummy) && (kn[k] == kf[k] || kn[k] == dummy)
      requires Count(kp[..], dummy) < Ng && Count(kn[..], dummy) < Ng
      requires Restricts(Bgii[..], Ng, kp[..], bgiTemp[..], N, dummy)
      requires Restricts(Bgii[..], Ng, kn[..], bgiTemp[..], N, dummy)
      modifies this, V
      decreases Ng, 0
      ensures Valid() && tol == old(tol) && minCn == old(minCn) && norm == old(norm) && old(maxK) <= maxK
      ensures LabelsWithin(old(V[..]), V[..], kf, dummy, old(maxK), maxK)
    {
      ghost var k0 := maxK;
      ghost var _, _, _, _ := Split(Bgii, Ng, kp, SplitP, eig);
      ghost var V1, k1 := V[..], maxK;
      LabelsWithinParent(old(V[..]), V1, kp[..], kf, dummy, k0, k1);
      ghost var _, _, _, _ := Split(Bgii, Ng, kn, SplitN, eig);
      LabelsWithinParent(V1, V[..], kn[..], kf, dummy, k1, maxK);
      LabelsWithinTrans(old(V[..]), V1, V[..], kf, dummy, k0, k1, maxK);
    }

    /** `calculateSpectralModularity`: bisect the whole graph (labels 1 and
        2, without the eigenvalue and size tests of `split`), then split both
        halves recursively.  Every vertex ends with a label in 1..MAXK. */
    method CalculateSpectralModularity(eig: Eigensolver) returns (status: int)
      requires Valid() && nrBgi == N && OracleShaped(eig)
      modifies this, V, keysP, keysN
      ensures Valid() && status == 0 && maxK >= 2
      ensures forall v :: 0 <= v < N ==> 1 <= V[v].K <= maxK && V[v] == old(V[v]).(K := V[v].K)
    {
      ghost var t := BisectTop(eig);
      LabelAndSplit(eig);
      status := 0;
    }

    /** What follows the first bisection in `calculateSpectralModularity`:
        the two halves get labels 1 and 2 and are split recursively. */
    method LabelAndSplit(eig: Eigensolver)
      requires Valid() && OracleShaped(eig) && si.Length == N && si != keysP && si != keysN
      modifies this, V, keysP, keysN
      ensures Valid() && maxK >= 2
      ensures forall v :: 0 <= v < N ==> 1 <= V[v].K <= maxK && V[v] == old(V[v]).(K := V[v].K)
    {
      LabelTopLevel();
      maxK := 2;
      SplitHalves(eig);
    }

    /** The first bisection of `calculateSpectralModularity`, on the whole
        graph: the leading eigenvector gives the split, which is fine-tuned
        and whose score is added to `specQ`. */
    method BisectTop(eig: Eigensolver) returns (ghost t: Tuning)
      requires Valid() && nrBgi == N && OracleShaped(eig)
      modifies this`betai, this`u, this`si, this`SI, this`visited, this`specQ
      ensures Valid() && fresh(si) && si.Length == N && u.Length == N
      ensures N > 0 ==> LeadingPair(eig(bgi[..], N), N, betai, u[..])
      ensures t == TopTuning(norm, bgi[..], N, tol, Initial(u[..])) && Cur() == t.st
      ensures specQ == old(specQ) + t.q
    {
      CalculateEigenVectors(eig);
      t := TuneTop();
    }

    /** The fine-tuned split of the whole graph, whose score is added to
        `specQ`: the score of the final split, or, when the loop broke on a
        negative score, the last non-negative one. */
    method TuneTop() returns (ghost t: Tuning)
      requires Valid() && u.Length == nrBgi
      modifies this`si, this`SI, this`visited, this`specQ
      ensures Valid() && fresh(si) && Sized() && OneHot(si[..], SI[..])
      ensures t == TopTuning(norm, bgi[..], nrBgi, tol, Initial(u[..])) && Cur() == t.st
      ensures specQ == old(specQ) + t.q
      ensures !t.broke ==> t.q == Modularity(norm, bgi[..], nrBgi, SI[..], 2 * nrBgi)
      ensures t.broke ==> Modularity(norm, bgi[..], nrBgi, SI[..], 2 * nrBgi) < 0.0 <= t.q
      ensures t.passes <= nrBgi + 1
    {
      var dQold := StartTuning();
      var dQ;
      dQ, t := FineTuneTop(dQold);
      assert Valid();
      specQ := specQ + dQ;
      TopTuned(norm, bgi[..], nrBgi, tol, u[..]);
      assert t.st.SI == SI[..];
    }

    /** The two calls `split(Bgi_temp, Ng, keys_p, "splitP")` and
        `split(Bgi_temp, Ng, keys_n, "splitN")` that end
        `calculateSpectralModularity`: labels in 1..MAXK stay in 1..MAXK. */
    method SplitHalves(eig: Eigensolver)
      requires Valid() && OracleShaped(eig)
      requires forall k :: 0 <= k < N ==> (keysP[k] == k || keysP[k] == dummy) && (keysN[k] == k || keysN[k] == dummy)
      requires forall v :: 0 <= v < N ==> 1 <= V[v].K <= maxK
      modifies this, V
      ensures Valid() && old(maxK) <= maxK
      ensures forall v :: 0 <= v < N ==> 1 <= V[v].K <= maxK && V[v] == old(V[v]).(K := V[v].K)
    {
      RestrictsIdentity(bgiTemp[..], N, keysP[..], dummy);
      RestrictsIdentity(bgiTemp[..], N, keysN[..], dummy);
      ghost var V0, k0, A, kP, kN := V[..], maxK, bgiTemp[..], keysP[..], keysN[..];
      ghost var _, _, _, _ := Split(bgiTemp, N, keysP, SplitP, eig);
      assert Valid() && bgiTemp[..] == A && keysP[..] == kP && keysN[..] == kN;
      ghost var V1, k1 := V[..], maxK;
      LabelsBounded(V0, V0, V1, kP, dummy, 1, k0, k1);
      ghost var _, _, _, _ := Split(bgiTemp, N, keysN, SplitN, eig);
      assert keysN[..] == kN;
      LabelsBounded(V0, V1, V[..], kN, dummy, 1, k1, maxK);
    }

    /** `setMinCn`: a new minimum group size is taken only in 1..N. */
    method SetMinCn(x: int)
      requires Valid()
      modifies this`minCn
      ensures Valid() && minCn == if 0 < x <= N then x else old(minCn)
    {
      if x > 0 && x <= N {
        minCn := x;
      }
    }

    /** `settol`: a negative tolerance is refused. */
    method SetTol(x: real)
      requires Valid()
      modifies this`tol
      ensures Valid() && tol == if x >= 0.0 then x else old(tol)
    {
      if x >= 0.0 {
        tol := x;
      }
    }
  }

}
