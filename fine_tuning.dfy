// The greedy fine-tuning of a split, as specification functions: one round
// of `maxModularity` (move the best unvisited node with a positive gain),
// repeated rounds, and the snapshot rule of `modifySplit`.

module FineTuning {
  import opened Matrix
  import opened Bisection

  /** What a round reads and writes: the sides `si`, the indicator matrix
      `SI`, and the nodes already moved in this pass (`visited`). */
  datatype State = State(si: seq<int>, SI: seq<int>, visited: seq<bool>)

  predicate Shaped(st: State, n: nat)
  {
    |st.si| == n && |st.SI| == 2 * n && |st.visited| == n
  }

  /** The candidate scores of a round (`qstored`): the gain of each unvisited
      node, and 0 for a visited one. */
  function Scores(B: seq<real>, n: nat, st: State): (q: seq<real>)
    requires |B| == n * n && Shaped(st, n)
    ensures |q| == n
  {
    seq(n, k requires 0 <= k < n => if !st.visited[k] then Gain(B, n, st.si, k) else 0.0)
  }

  /** ind is the first index holding the strictly largest positive entry of
      q and qmax is that entry; or no entry is positive, ind = -1 and qmax = 0. */
  ghost predicate IsBestMove(q: seq<real>, ind: int, qmax: real)
  {
    if ind == -1 then
      qmax == 0.0 && forall k :: 0 <= k < |q| ==> q[k] <= 0.0
    else
      0 <= ind < |q| && qmax == q[ind] && qmax > 0.0 &&
      (forall k :: 0 <= k < ind ==> q[k] < qmax) &&
      (forall k :: 0 <= k < |q| ==> q[k] <= qmax)
  }

  /** The left-to-right scan of `maxModularity` over q[..m], starting from
      (-1, 0) and replacing the candidate only on a strictly larger entry. */
  function BestPrefix(q: seq<real>, m: nat): (r: (int, real))
    requires m <= |q|
    ensures -1 <= r.0 < m
  {
    if m == 0 then (-1, 0.0)
    else
      var (i, v) := BestPrefix(q, m - 1);
      if q[m - 1] > v then (m - 1, q[m - 1]) else (i, v)
  }

  lemma {:induction false} BestPrefixIsBestMove(q: seq<real>, m: nat)
    requires m <= |q|
    ensures IsBestMove(q[..m], BestPrefix(q, m).0, BestPrefix(q, m).1)
  {
    if m > 0 {
      BestPrefixIsBestMove(q, m - 1);
      assert q[..m][..m - 1] == q[..m - 1];
    }
  }

  /** The scan over the whole sequence finds the best move. */
  lemma BestIsBestMove(q: seq<real>)
    ensures IsBestMove(q, BestPrefix(q, |q|).0, BestPrefix(q, |q|).1)
  {
    BestPrefixIsBestMove(q, |q|);
    assert q[..|q|] == q;
  }

  /** The best move is determined by the scores. */
  lemma BestMoveUnique(q: seq<real>, a: int, x: real, b: int, y: real)
    requires IsBestMove(q, a, x) && IsBestMove(q, b, y)
    ensures a == b && x == y
  {
  }

  /** Node k moved to the other side: `si` flipped, row k of `SI` rewritten
      to match, and k marked visited. */
  function Move(st: State, k: nat): (r: State)
    requires k < |st.si| && |st.SI| == 2 * |st.si| && |st.visited| == |st.si|
    ensures Shaped(r, |st.si|)
  {
    State(Flipped(st.si, k),
          st.SI[2 * k := if st.si[k] == 1 then 0 else 1][2 * k + 1 := if st.si[k] == 1 then 1 else 0],
          st.visited[k := true])
  }

  /** The node one round moves, or -1 when it moves none. */
  function Choice(B: seq<real>, n: nat, st: State): int
    requires |B| == n * n && Shaped(st, n)
  {
    BestPrefix(Scores(B, n, st), n).0
  }

  /** The value one round leaves in `qmax`. */
  function StepGain(B: seq<real>, n: nat, st: State): real
    requires |B| == n * n && Shaped(st, n)
  {
    BestPrefix(Scores(B, n, st), n).1
  }

  /** The state after one round of `maxModularity`. */
  function Step(B: seq<real>, n: nat, st: State): (r: State)
    requires |B| == n * n && Shaped(st, n)
    ensures Shaped(r, n)
  {
    var ind := Choice(B, n, st);
    if ind == -1 then st else Move(st, ind)
  }

  /** The state after r rounds. */
  function Rounds(B: seq<real>, n: nat, st: State, r: nat): (s: State)
    requires |B| == n * n && Shaped(st, n)
    ensures Shaped(s, n)
  {
    if r == 0 then st else Step(B, n, Rounds(B, n, st, r - 1))
  }

  /** The `qmax` of round r (rounds counted from 1); 0 stands for "round 0",
      the value `modifySplit` starts `qold` from. */
  function RoundGain(B: seq<real>, n: nat, st: State, r: nat): real
    requires |B| == n * n && Shaped(st, n)
  {
    if r == 0 then 0.0 else StepGain(B, n, Rounds(B, n, st, r - 1))
  }

  /** The last r <= m at which g rises (g(r) > g(r - 1)), or 0 when g never
      rises up to m. */
  function LastRise(g: nat -> real, m: nat): (r: nat)
    ensures r <= m
  {
    if m == 0 then 0
    else if g(m) > g(m - 1) then m
    else LastRise(g, m - 1)
  }

  lemma {:induction false} LastRiseRises(g: nat -> real, m: nat)
    ensures LastRise(g, m) == 0 || g(LastRise(g, m)) > g(LastRise(g, m) - 1)
  {
    if m > 0 && g(m) <= g(m - 1) {
      LastRiseRises(g, m - 1);
    }
  }

  lemma {:induction false} LastRiseIsLast(g: nat -> real, m: nat, p: nat)
    requires LastRise(g, m) < p <= m
    ensures g(p) <= g(p - 1)
  {
    if p < m {
      LastRiseIsLast(g, m - 1, p);
    }
  }

  /** The gain of every round, as a function of the round number. */
  function RoundGains(B: seq<real>, n: nat, st: State): nat -> real
  {
    (r: nat) => if |B| == n * n && Shaped(st, n) then RoundGain(B, n, st, r) else 0.0
  }

  /** The round whose state `modifySplit` keeps when it runs m + 1 rounds:
      the last round r <= m whose gain is larger than the gain of round
      r - 1, or 0 (the entry state) when there is none. */
  function SnapshotRound(B: seq<real>, n: nat, st: State, m: nat): (r: nat)
    requires |B| == n * n && Shaped(st, n)
    ensures r <= m
  {
    LastRise(RoundGains(B, n, st), m)
  }

  /** The snapshot round is the entry state or a round whose gain rose. */
  lemma SnapshotRoundRises(B: seq<real>, n: nat, st: State, m: nat)
    requires |B| == n * n && Shaped(st, n)
    ensures var r, g := SnapshotRound(B, n, st, m), RoundGains(B, n, st);
      r == 0 || g(r) > g(r - 1)
  {
    LastRiseRises(RoundGains(B, n, st), m);
  }

  /** No round after the snapshot round, up to round m, gains more than the
      round before it. */
  lemma SnapshotRoundIsLast(B: seq<real>, n: nat, st: State, m: nat, p: nat)
    requires |B| == n * n && Shaped(st, n)
    requires SnapshotRound(B, n, st, m) < p <= m
    ensures RoundGains(B, n, st)(p) <= RoundGains(B, n, st)(p - 1)
  {
    LastRiseIsLast(RoundGains(B, n, st), m, p);
  }

  /** One round: when some unvisited node has a positive gain, the first node
      with the strictly largest gain is moved and marked and nothing else
      changes; otherwise nothing changes and the reported gain is 0.  A node
      visited before stays visited; the sides stay one-hot encoded. */
  lemma StepSpec(B: seq<real>, n: nat, st: State)
    requires |B| == n * n && Shaped(st, n)
    ensures IsBestMove(Scores(B, n, st), Choice(B, n, st), StepGain(B, n, st))
    ensures Choice(B, n, st) == -1 ==> Step(B, n, st) == st && StepGain(B, n, st) == 0.0
    ensures Choice(B, n, st) != -1 ==>
      var k := Choice(B, n, st);
      !st.visited[k] && StepGain(B, n, st) == Gain(B, n, st.si, k) > 0.0 &&
      Step(B, n, st) == Move(st, k)
    ensures forall k :: 0 <= k < n && st.visited[k] ==> Step(B, n, st).visited[k]
    ensures forall k :: 0 <= k < n && Step(B, n, st).si[k] != st.si[k] ==>
      !st.visited[k] && Step(B, n, st).visited[k]
    ensures OneHot(st.si, st.SI) ==> OneHot(Step(B, n, st).si, Step(B, n, st).SI)
  {
    var q := Scores(B, n, st);
    BestIsBestMove(q);
    var k := Choice(B, n, st);
    if k != -1 {
      assert !st.visited[k];
      if OneHot(st.si, st.SI) {
        var r := Move(st, k);
        forall j | 0 <= j < n
          ensures r.SI[2 * j] == (if r.si[j] == 1 then 1 else 0)
          ensures r.SI[2 * j + 1] == (if r.si[j] == 1 then 0 else 1)
        {
          if j != k {
            assert r.SI[2 * j] == st.SI[2 * j] && r.SI[2 * j + 1] == st.SI[2 * j + 1];
          }
        }
      }
    }
  }

  /** A round moves an unvisited node, or none. */
  lemma ChoiceUnvisited(B: seq<real>, n: nat, st: State)
    requires |B| == n * n && Shaped(st, n)
    ensures Choice(B, n, st) == -1 || (0 <= Choice(B, n, st) < n && !st.visited[Choice(B, n, st)])
  {
    StepSpec(B, n, st);
  }

  /** Rounds only ever add to `visited`, and a node whose side has changed
      after r rounds was unvisited at the start and is visited after any
      r' >= r rounds.  The sides stay one-hot encoded. */
  lemma {:induction false} RoundsFrame(B: seq<real>, n: nat, st: State, r: nat, r': nat)
    requires |B| == n * n && Shaped(st, n) && r <= r'
    ensures forall k :: 0 <= k < n && st.visited[k] ==> Rounds(B, n, st, r').visited[k]
    ensures forall k :: 0 <= k < n && Rounds(B, n, st, r).si[k] != st.si[k] ==>
      !st.visited[k] && Rounds(B, n, st, r').visited[k]
    ensures OneHot(st.si, st.SI) ==> OneHot(Rounds(B, n, st, r).si, Rounds(B, n, st, r).SI)
  {
    if r' > r {
      RoundsFrame(B, n, st, r, r' - 1);
      StepSpec(B, n, Rounds(B, n, st, r' - 1));
    } else if r > 0 {
      RoundsFrame(B, n, st, r - 1, r - 1);
      StepSpec(B, n, Rounds(B, n, st, r - 1));
    }
  }

  /** Number of nodes marked visited. */
  function CountTrue(v: seq<bool>): (c: nat)
    ensures c <= |v|
  {
    if v == [] then 0 else CountTrue(v[..|v| - 1]) + (if v[|v| - 1] then 1 else 0)
  }

  /** Marking more nodes never lowers the count, and marking a new one raises it. */
  lemma {:induction false} CountTrueGrows(a: seq<bool>, b: seq<bool>)
    requires |a| == |b| && forall k :: 0 <= k < |a| && a[k] ==> b[k]
    ensures CountTrue(a) <= CountTrue(b)
    ensures (exists k :: 0 <= k < |a| && !a[k] && b[k]) ==> CountTrue(a) < CountTrue(b)
  {
    if a != [] {
      var m := |a| - 1;
      CountTrueGrows(a[..m], b[..m]);
      if exists k :: 0 <= k < |a| && !a[k] && b[k] {
        var k :| 0 <= k < |a| && !a[k] && b[k];
        if k < m {
          assert a[..m][k] == a[k] && b[..m][k] == b[k];
        }
      }
    }
  }

  /** The state after every round, as a function of the round number. */
  function RoundStates(B: seq<real>, n: nat, st: State): nat -> State
  {
    (r: nat) => if |B| == n * n && Shaped(st, n) then Rounds(B, n, st, r) else st
  }

  /** Either no round up to r has moved a node, or more nodes are marked
      visited after r' >= r rounds than at the start. */
  lemma {:induction false} StuckOrGrows(B: seq<real>, n: nat, st: State, r: nat, r': nat)
    requires |B| == n * n && Shaped(st, n) && r <= r'
    ensures Rounds(B, n, st, r) == st || CountTrue(st.visited) < CountTrue(Rounds(B, n, st, r').visited)
  {
    if r > 0 {
      StuckOrGrows(B, n, st, r - 1, r');
      if Rounds(B, n, st, r - 1) == st {
        ChoiceUnvisited(B, n, st);
        var k := Choice(B, n, st);
        assert Rounds(B, n, st, r) == Step(B, n, st);
        if k != -1 {
          assert Step(B, n, st).si[k] != st.si[k];
          RoundsFrame(B, n, st, r, r');
          CountTrueGrows(st.visited, Rounds(B, n, st, r').visited);
          assert CountTrue(st.visited) < CountTrue(Rounds(B, n, st, r').visited);
        } else {
          assert Rounds(B, n, st, r) == st;
        }
      }
    }
  }

  /** The variables of the `modifySplit` loop after c passes: the current
      state, the snapshot and the round it was taken after, and the gains of
      the last two rounds. */
  datatype Search = Search(cur: State, snap: State, at: nat, qmax: real, qold: real)

  /** The `modifySplit` loop over the states x(r) and gains g(r) of its
      rounds: the pass after rounds c and c + 1 keeps x(c) as the snapshot
      when g(c) > g(c - 1), then round c + 1 runs. */
  function Track(x: nat -> State, g: nat -> real, c: nat): Search
  {
    if c == 0 then Search(x(1), x(0), 0, g(1), g(0))
    else
      var s := Track(x, g, c - 1);
      if s.qmax > s.qold then Search(x(c + 1), s.cur, c, g(c + 1), s.qmax)
      else Search(x(c + 1), s.snap, s.at, g(c + 1), s.qmax)
  }

  /** After c passes the loop holds round c + 1, the gains of rounds c + 1
      and c, and the snapshot of the last round up to c whose gain rose. */
  lemma {:induction false} TrackFacts(x: nat -> State, g: nat -> real, c: nat)
    ensures var s := Track(x, g, c);
      s.cur == x(c + 1) && s.qmax == g(c + 1) && s.qold == g(c) &&
      s.at == LastRise(g, c) && s.snap == x(s.at)
  {
    if c > 0 {
      TrackFacts(x, g, c - 1);
    }
  }

  /** The `modifySplit` loop after c passes, from the entry state st. */
  function SearchAfter(B: seq<real>, n: nat, st: State, c: nat): Search
  {
    Track(RoundStates(B, n, st), RoundGains(B, n, st), c)
  }

  /** The loop starts after one round, with the entry state as snapshot. */
  lemma SearchAfterFirst(B: seq<real>, n: nat, st: State)
    requires |B| == n * n && Shaped(st, n)
    ensures SearchAfter(B, n, st, 0) == Search(Step(B, n, st), st, 0, StepGain(B, n, st), 0.0)
  {
    assert Rounds(B, n, st, 1) == Step(B, n, Rounds(B, n, st, 0));
  }

  /** One pass: save the current state when the last gain beat the one
      before, then run one more round. */
  lemma SearchAfterNext(B: seq<real>, n: nat, st: State, c: nat)
    requires |B| == n * n && Shaped(st, n)
    ensures var s := SearchAfter(B, n, st, c);
      Shaped(s.cur, n) &&
      SearchAfter(B, n, st, c + 1) ==
        if s.qmax > s.qold then Search(Step(B, n, s.cur), s.cur, c + 1, StepGain(B, n, s.cur), s.qmax)
        else Search(Step(B, n, s.cur), s.snap, s.at, StepGain(B, n, s.cur), s.qmax)
  {
    var x, g := RoundStates(B, n, st), RoundGains(B, n, st);
    TrackFacts(x, g, c);
    assert x(c + 2) == Rounds(B, n, st, c + 2) == Step(B, n, Rounds(B, n, st, c + 1));
    assert g(c + 2) == RoundGain(B, n, st, c + 2) == StepGain(B, n, Rounds(B, n, st, c + 1));
  }

  /** What `modifySplit` leaves: `visited` from the last round, the sides
      from the snapshot. */
  lemma SearchResult(B: seq<real>, n: nat, st: State, c: nat, r: State)
    requires |B| == n * n && Shaped(st, n)
    requires r.visited == SearchAfter(B, n, st, c).cur.visited
    requires r.si == SearchAfter(B, n, st, c).snap.si && r.SI == SearchAfter(B, n, st, c).snap.SI
    ensures r.visited == Rounds(B, n, st, c + 1).visited
    ensures r.si == Rounds(B, n, st, SnapshotRound(B, n, st, c)).si
    ensures r.SI == Rounds(B, n, st, SnapshotRound(B, n, st, c)).SI
  {
    TrackFacts(RoundStates(B, n, st), RoundGains(B, n, st), c);
  }

  /** What one call of `modifySplit(n)` from st leaves: the sides of the
      snapshot, and `visited` after its n + 1 rounds. */
  function Pass(B: seq<real>, n: nat, st: State): (r: State)
    requires |B| == n * n && Shaped(st, n)
    ensures Shaped(r, n)
  {
    var snap := Rounds(B, n, st, SnapshotRound(B, n, st, n));
    State(snap.si, snap.SI, Rounds(B, n, st, n + 1).visited)
  }

  /** One pass as the fine-tuning loops see it: the split stays one-hot
      encoded, `visited` only grows, a side changes only at a node that was
      unvisited and is now visited, and a pass that marks no new node leaves
      the state exactly as it was. */
  lemma PassFacts(B: seq<real>, n: nat, st: State)
    requires |B| == n * n && Shaped(st, n)
    ensures OneHot(st.si, st.SI) ==> OneHot(Pass(B, n, st).si, Pass(B, n, st).SI)
    ensures forall k :: 0 <= k < n && st.visited[k] ==> Pass(B, n, st).visited[k]
    ensures forall k :: 0 <= k < n && Pass(B, n, st).si[k] != st.si[k] ==>
      !st.visited[k] && Pass(B, n, st).visited[k]
    ensures CountTrue(st.visited) <= CountTrue(Pass(B, n, st).visited)
    ensures CountTrue(Pass(B, n, st).visited) == CountTrue(st.visited) ==> Pass(B, n, st) == st
  {
    var r := Pass(B, n, st);
    var m := SnapshotRound(B, n, st, n);
    RoundsFrame(B, n, st, m, n + 1);
    CountTrueGrows(st.visited, r.visited);
    StuckOrGrows(B, n, st, m, n + 1);
    if CountTrue(r.visited) == CountTrue(st.visited) {
      assert r.visited == st.visited;
    }
  }

  /** For a symmetric matrix the candidate score of an unvisited node is
      twice the change its move makes to the same-side score of the split. */
  lemma ScoresAreFlipChanges(B: seq<real>, n: nat, st: State, k: nat)
    requires |B| == n * n && Shaped(st, n) && IsSign(st.si) && Symmetric(B, n)
    requires k < n && !st.visited[k]
    ensures Scores(B, n, st)[k] == 2.0 * (Score(B, n, Flipped(st.si, k)) - Score(B, n, st.si))
  {
    GainIsScoreChange(B, n, st.si, k);
  }

  /** For a symmetric matrix a round that moves a node raises the same-side
      score by half the gain it reports, so strictly. */
  lemma StepRaisesScore(B: seq<real>, n: nat, st: State)
    requires |B| == n * n && Shaped(st, n) && IsSign(st.si) && Symmetric(B, n)
    ensures Choice(B, n, st) != -1 ==>
      Score(B, n, Step(B, n, st).si) == Score(B, n, st.si) + StepGain(B, n, st) / 2.0 &&
      Score(B, n, Step(B, n, st).si) > Score(B, n, st.si)
  {
    StepSpec(B, n, st);
    var k := Choice(B, n, st);
    if k != -1 {
      GainIsScoreChange(B, n, st.si, k);
    }
  }
}
