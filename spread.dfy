/** One step of the main map's fire spread, as a function of the fire flags
    before the step and of the random stream (script.js:153-196).

    `startSimulation` collects the burning cells in index order, then
    `spreadToNeighbors` visits each one's four candidates in the order up,
    down, left, right. A candidate that passes the guard and is not burning
    costs one draw; if that draw is below 0.7 the ignition is scheduled with
    `setTimeout`, whose delay `Math.random() * 1000` costs a second draw. The
    scheduled ignitions only run after the whole scan, so every test reads the
    flags as they were before the step. */
module Spread {
  import opened Grid

  const IgniteBelow: real := 0.7

  /** The ignitions scheduled so far and the position reached in the stream. */
  datatype Outcome = Outcome(scheduled: seq<int>, next: nat)

  /** Whether a candidate is tested at all: admitted by the guard and not burning. */
  predicate Eligible(cells: seq<bool>, index: int, n: int) {
    Admissible(n, index, |cells|) && !cells[n]
  }

  /** Number of eligible entries of `cands`. */
  function CountEligible(cells: seq<bool>, index: int, cands: seq<int>): (m: nat)
    ensures m <= |cands|
    decreases |cands|
  {
    if cands == [] then 0
    else CountEligible(cells, index, cands[..|cands| - 1]) + (if Eligible(cells, index, cands[|cands| - 1]) then 1 else 0)
  }

  /** One candidate `n` of source `index`, tested with the stream at position `k`. */
  function Attempt(cells: seq<bool>, index: int, n: int, draws: nat -> real, k: nat): Outcome {
    if !Eligible(cells, index, n) then Outcome([], k)
    else if draws(k) < IgniteBelow then Outcome([n], k + 2)
    else Outcome([], k + 1)
  }

  /** The candidates `cands` of source `index`, visited left to right. */
  function Scan(cells: seq<bool>, index: int, cands: seq<int>, draws: nat -> real, k: nat): (r: Outcome)
    ensures |r.scheduled| <= |cands|
    ensures r.next == k + CountEligible(cells, index, cands) + |r.scheduled|
    decreases |cands|
  {
    if cands == [] then Outcome([], k)
    else
      var prev := Scan(cells, index, cands[..|cands| - 1], draws, k);
      var a := Attempt(cells, index, cands[|cands| - 1], draws, prev.next);
      Outcome(prev.scheduled + a.scheduled, a.next)
  }

  lemma PrefixSnoc<T>(s: seq<T>, i: nat)
    requires i < |s|
    ensures s[..i + 1] == s[..i] + [s[i]]
  {
  }

  /** Visiting one more candidate appends its attempt to the outcome. */
  lemma ScanSnoc(cells: seq<bool>, index: int, cands: seq<int>, n: int, draws: nat -> real, k: nat)
    ensures var prev := Scan(cells, index, cands, draws, k);
            var a := Attempt(cells, index, n, draws, prev.next);
            Scan(cells, index, cands + [n], draws, k) == Outcome(prev.scheduled + a.scheduled, a.next)
  {
    assert (cands + [n])[..|cands|] == cands;
  }

  /** `spreadToNeighbors(cells, index)`. */
  function SpreadToNeighbors(cells: seq<bool>, index: int, draws: nat -> real, k: nat): (r: Outcome)
    ensures |r.scheduled| <= 4 && k <= r.next <= k + 8
  {
    Scan(cells, index, Candidates(index), draws, k)
  }

  /** The indices of the burning cells below `m`, in increasing order: the
      `fireCells` list of script.js:155-162. */
  function BurningBelow(cells: seq<bool>, m: nat): (b: seq<int>)
    requires m <= |cells|
    ensures forall i :: i in b <==> 0 <= i < m && cells[i]
    ensures forall p, q :: 0 <= p < q < |b| ==> b[p] < b[q]
  {
    if m == 0 then []
    else
      var prev := BurningBelow(cells, m - 1);
      assert forall p :: 0 <= p < |prev| ==> prev[p] in prev;
      prev + (if cells[m - 1] then [m - 1] else [])
  }

  function Burning(cells: seq<bool>): seq<int> {
    BurningBelow(cells, |cells|)
  }

  /** The sources `sources`, each spread from in turn. */
  function SpreadAll(cells: seq<bool>, sources: seq<int>, draws: nat -> real, k: nat): (r: Outcome)
    ensures k <= r.next
    decreases |sources|
  {
    if sources == [] then Outcome([], k)
    else
      var prev := SpreadAll(cells, sources[..|sources| - 1], draws, k);
      var s := sources[|sources| - 1];
      var here := SpreadToNeighbors(cells, s, draws, prev.next);
      Outcome(prev.scheduled + here.scheduled, here.next)
  }

  /** Spreading from one more source appends its scan to the outcome. */
  lemma SpreadAllSnoc(cells: seq<bool>, sources: seq<int>, s: int, draws: nat -> real, k: nat)
    ensures var prev := SpreadAll(cells, sources, draws, k);
            var here := SpreadToNeighbors(cells, s, draws, prev.next);
            SpreadAll(cells, sources + [s], draws, k) == Outcome(prev.scheduled + here.scheduled, here.next)
  {
    assert (sources + [s])[..|sources|] == sources;
  }

  /** Every ignition a scan schedules is an eligible candidate at some position
      `p`, won by its own test draw: the draw at the stream position reached
      after the candidates before `p` is below 0.7. */
  lemma {:induction false} ScanWinner(cells: seq<bool>, index: int, cands: seq<int>, draws: nat -> real, k: nat, n: int)
    requires n in Scan(cells, index, cands, draws, k).scheduled
    ensures exists p :: 0 <= p < |cands| && cands[p] == n && Eligible(cells, index, n) &&
                        draws(Scan(cells, index, cands[..p], draws, k).next) < IgniteBelow
  {
    var last := |cands| - 1;
    var init := cands[..last];
    var prev := Scan(cells, index, init, draws, k);
    if n in prev.scheduled {
      ScanWinner(cells, index, init, draws, k, n);
      var p :| 0 <= p < |init| && init[p] == n && Eligible(cells, index, n) &&
               draws(Scan(cells, index, init[..p], draws, k).next) < IgniteBelow;
      assert cands[..p] == init[..p];
      assert p < |cands| && cands[p] == n;
    } else {
      var a := Attempt(cells, index, cands[last], draws, prev.next);
      assert n in a.scheduled;
      assert cands[..last] == init;
      assert last < |cands| && cands[last] == n && draws(Scan(cells, index, cands[..last], draws, k).next) < IgniteBelow;
    }
  }

  /** Hence every ignition a scan schedules is an eligible candidate, and a
      draw below 0.7 was taken during the scan. */
  lemma {:induction false} ScanSound(cells: seq<bool>, index: int, cands: seq<int>, draws: nat -> real, k: nat, n: int)
    requires n in Scan(cells, index, cands, draws, k).scheduled
    ensures n in cands && Eligible(cells, index, n)
    ensures exists d :: k <= d < Scan(cells, index, cands, draws, k).next && draws(d) < IgniteBelow
  {
    ScanWinner(cells, index, cands, draws, k, n);
    var last := |cands| - 1;
    var init := cands[..last];
    var prev := Scan(cells, index, init, draws, k);
    if n in prev.scheduled {
      ScanSound(cells, index, init, draws, k, n);
    } else {
      assert draws(prev.next) < IgniteBelow;
    }
  }

  /** An eligible candidate whose own test draw, taken at the stream position
      reached after the earlier candidates, is below 0.7 is scheduled. */
  lemma {:induction false} ScanComplete(cells: seq<bool>, index: int, cands: seq<int>, draws: nat -> real, k: nat, p: nat)
    requires p < |cands| && Eligible(cells, index, cands[p])
    requires draws(Scan(cells, index, cands[..p], draws, k).next) < IgniteBelow
    ensures cands[p] in Scan(cells, index, cands, draws, k).scheduled
  {
    var last := |cands| - 1;
    var init := cands[..last];
    if p < last {
      assert init[..p] == cands[..p] && init[p] == cands[p];
      ScanComplete(cells, index, init, draws, k, p);
    } else {
      assert cands[..p] == init;
    }
  }

  /** So a scan schedules `n` exactly when `n` is an eligible candidate at some
      position `p` whose own test draw is below 0.7. */
  lemma ScanExact(cells: seq<bool>, index: int, cands: seq<int>, draws: nat -> real, k: nat, n: int)
    ensures n in Scan(cells, index, cands, draws, k).scheduled <==>
              exists p :: 0 <= p < |cands| && cands[p] == n && Eligible(cells, index, n) &&
                          draws(Scan(cells, index, cands[..p], draws, k).next) < IgniteBelow
  {
    if n in Scan(cells, index, cands, draws, k).scheduled {
      ScanWinner(cells, index, cands, draws, k, n);
    }
    if exists p :: 0 <= p < |cands| && cands[p] == n && Eligible(cells, index, n) &&
                   draws(Scan(cells, index, cands[..p], draws, k).next) < IgniteBelow {
      var p :| 0 <= p < |cands| && cands[p] == n && Eligible(cells, index, n) &&
               draws(Scan(cells, index, cands[..p], draws, k).next) < IgniteBelow;
      ScanComplete(cells, index, cands, draws, k, p);
    }
  }

  /** The stream position at which candidate `p` of the `q`-th source is tested. */
  function TestAt(cells: seq<bool>, sources: seq<int>, q: nat, p: nat, draws: nat -> real, k: nat): nat
    requires q < |sources| && p <= 4
  {
    Scan(cells, sources[q], Candidates(sources[q])[..p], draws, SpreadAll(cells, sources[..q], draws, k).next).next
  }

  /** Test positions of earlier sources do not depend on later ones. */
  lemma TestAtInit(cells: seq<bool>, sources: seq<int>, q: nat, p: nat, draws: nat -> real, k: nat)
    requires q + 1 < |sources| && p <= 4
    ensures sources[..|sources| - 1][q] == sources[q]
    ensures TestAt(cells, sources[..|sources| - 1], q, p, draws, k) == TestAt(cells, sources, q, p, draws, k)
  {
    assert sources[..|sources| - 1][..q] == sources[..q];
  }

  /** Every ignition the scans schedule is an eligible candidate, at some
      position `p`, of some source `q`, won by its own test draw below 0.7. */
  lemma {:induction false} SpreadAllWinner(cells: seq<bool>, sources: seq<int>, draws: nat -> real, k: nat, n: int)
    requires n in SpreadAll(cells, sources, draws, k).scheduled
    ensures exists q, p :: 0 <= q < |sources| && 0 <= p < 4 && Candidates(sources[q])[p] == n &&
                           Eligible(cells, sources[q], n) && draws(TestAt(cells, sources, q, p, draws, k)) < IgniteBelow
  {
    var last := |sources| - 1;
    var init := sources[..last];
    var prev := SpreadAll(cells, init, draws, k);
    var s := sources[last];
    var here := SpreadToNeighbors(cells, s, draws, prev.next);
    assert SpreadAll(cells, sources, draws, k).scheduled == prev.scheduled + here.scheduled;
    if n in prev.scheduled {
      SpreadAllWinner(cells, init, draws, k, n);
      var q, p :| 0 <= q < |init| && 0 <= p < 4 && Candidates(init[q])[p] == n &&
                  Eligible(cells, init[q], n) && draws(TestAt(cells, init, q, p, draws, k)) < IgniteBelow;
      TestAtInit(cells, sources, q, p, draws, k);
    } else {
      ScanWinner(cells, s, Candidates(s), draws, prev.next, n);
      var p :| 0 <= p < 4 && Candidates(s)[p] == n && Eligible(cells, s, n) &&
               draws(Scan(cells, s, Candidates(s)[..p], draws, prev.next).next) < IgniteBelow;
      assert sources[..last] == init;
      assert TestAt(cells, sources, last, p, draws, k) == Scan(cells, s, Candidates(s)[..p], draws, prev.next).next;
    }
  }

  /** Hence every ignition the scans schedule is an eligible candidate of a
      listed source, and a draw below 0.7 was taken during the scans. */
  lemma {:induction false} SpreadAllSound(cells: seq<bool>, sources: seq<int>, draws: nat -> real, k: nat, n: int)
    requires n in SpreadAll(cells, sources, draws, k).scheduled
    ensures exists s :: s in sources && n in Candidates(s) && Eligible(cells, s, n)
    ensures exists d :: k <= d < SpreadAll(cells, sources, draws, k).next && draws(d) < IgniteBelow
  {
    var last := |sources| - 1;
    var init := sources[..last];
    var prev := SpreadAll(cells, init, draws, k);
    var s := sources[last];
    var here := SpreadToNeighbors(cells, s, draws, prev.next);
    assert SpreadAll(cells, sources, draws, k) == Outcome(prev.scheduled + here.scheduled, here.next);
    if n in prev.scheduled {
      SpreadAllSound(cells, init, draws, k, n);
      var s' :| s' in init && n in Candidates(s') && Eligible(cells, s', n);
      assert s' in sources;
    } else {
      ScanSound(cells, s, Candidates(s), draws, prev.next, n);
      assert s in sources;
    }
  }

  /** An eligible candidate of a source whose own test draw is below 0.7 is
      scheduled. */
  lemma {:induction false} SpreadAllComplete(cells: seq<bool>, sources: seq<int>, draws: nat -> real, k: nat, q: nat, p: nat)
    requires q < |sources| && p < 4 && Eligible(cells, sources[q], Candidates(sources[q])[p])
    requires draws(TestAt(cells, sources, q, p, draws, k)) < IgniteBelow
    ensures Candidates(sources[q])[p] in SpreadAll(cells, sources, draws, k).scheduled
  {
    var last := |sources| - 1;
    var init := sources[..last];
    var prev := SpreadAll(cells, init, draws, k);
    var s := sources[last];
    var here := SpreadToNeighbors(cells, s, draws, prev.next);
    assert SpreadAll(cells, sources, draws, k).scheduled == prev.scheduled + here.scheduled;
    if q < last {
      TestAtInit(cells, sources, q, p, draws, k);
      SpreadAllComplete(cells, init, draws, k, q, p);
    } else {
      assert sources[..last] == init;
      assert TestAt(cells, sources, last, p, draws, k) == Scan(cells, s, Candidates(s)[..p], draws, prev.next).next;
      ScanComplete(cells, s, Candidates(s), draws, prev.next, p);
    }
  }

  /** So the scans from a list of sources schedule `n` exactly when `n` is an
      eligible candidate, at some position `p`, of some source `q`, and the
      draw taken when it is tested is below 0.7. */
  lemma SpreadAllExact(cells: seq<bool>, sources: seq<int>, draws: nat -> real, k: nat, n: int)
    ensures n in SpreadAll(cells, sources, draws, k).scheduled <==>
              exists q, p :: 0 <= q < |sources| && 0 <= p < 4 && Candidates(sources[q])[p] == n &&
                             Eligible(cells, sources[q], n) && draws(TestAt(cells, sources, q, p, draws, k)) < IgniteBelow
  {
    if n in SpreadAll(cells, sources, draws, k).scheduled {
      SpreadAllWinner(cells, sources, draws, k, n);
    }
    if exists q, p :: 0 <= q < |sources| && 0 <= p < 4 && Candidates(sources[q])[p] == n &&
                      Eligible(cells, sources[q], n) && draws(TestAt(cells, sources, q, p, draws, k)) < IgniteBelow {
      var q, p :| 0 <= q < |sources| && 0 <= p < 4 && Candidates(sources[q])[p] == n &&
                  Eligible(cells, sources[q], n) && draws(TestAt(cells, sources, q, p, draws, k)) < IgniteBelow;
      SpreadAllComplete(cells, sources, draws, k, q, p);
    }
  }

  /** The fire flags after every scheduled timer has set its cell burning. */
  function Apply(cells: seq<bool>, writes: seq<int>): (r: seq<bool>)
    ensures |r| == |cells|
  {
    seq(|cells|, j requires 0 <= j < |cells| => cells[j] || j in writes)
  }

  /** Running one more timer sets exactly its cell on fire. */
  lemma ApplyOneMore(cells: seq<bool>, writes: seq<int>, n: int)
    requires 0 <= n < |cells|
    ensures Apply(cells, writes + [n]) == Apply(cells, writes)[n := true]
  {
  }

  /** The timers may run in any order, any number of times: only the set of
      cells they name matters. */
  lemma ApplyInAnyOrder(cells: seq<bool>, w1: seq<int>, w2: seq<int>)
    requires forall n :: n in w1 <==> n in w2
    ensures Apply(cells, w1) == Apply(cells, w2)
  {
  }

  datatype StepResult = StepResult(cells: seq<bool>, next: nat)

  /** One press of the simulate button, followed by all of its timers. */
  function Step(cells: seq<bool>, draws: nat -> real, k: nat): (r: StepResult)
    ensures |r.cells| == |cells| && k <= r.next
    ensures forall j :: 0 <= j < |cells| && cells[j] ==> r.cells[j]
  {
    var w := SpreadAll(cells, Burning(cells), draws, k);
    StepResult(Apply(cells, w.scheduled), w.next)
  }

  /** A cell already on fire is never tested and costs no draw: the `&&` of
      script.js:189 evaluates `Math.random()` only for a cell not burning. */
  lemma BurningNeighbourCostsNothing(cells: seq<bool>, index: int, n: int, draws: nat -> real, k: nat)
    requires 0 <= n < |cells| && cells[n]
    ensures Attempt(cells, index, n, draws, k) == Outcome([], k)
  {
  }

  /** A step leaves cell `j` burning exactly when it burned before, or it is an
      eligible candidate, at some position `p`, of the `q`-th burning cell and
      the draw taken when it is tested is below 0.7. */
  lemma StepExact(cells: seq<bool>, draws: nat -> real, k: nat, j: int)
    requires 0 <= j < |cells|
    ensures Step(cells, draws, k).cells[j] <==>
              cells[j] ||
              exists q, p :: 0 <= q < |Burning(cells)| && 0 <= p < 4 && Candidates(Burning(cells)[q])[p] == j &&
                             Eligible(cells, Burning(cells)[q], j) &&
                             draws(TestAt(cells, Burning(cells), q, p, draws, k)) < IgniteBelow
  {
    SpreadAllExact(cells, Burning(cells), draws, k, j);
  }

  /** Every cell a step sets on fire was not burning, shares a side with a cell
      that was burning before the step, and was won by its own test draw below 0.7. */
  lemma {:induction false} StepIgnitesOnlyNeighbours(cells: seq<bool>, draws: nat -> real, k: nat, j: int)
    requires |cells| == Size && 0 <= j < Size
    requires Step(cells, draws, k).cells[j] && !cells[j]
    ensures exists s :: 0 <= s < Size && cells[s] && Adjacent(s, j)
    ensures exists d :: k <= d < Step(cells, draws, k).next && draws(d) < IgniteBelow
    ensures exists q, p :: 0 <= q < |Burning(cells)| && 0 <= p < 4 && Candidates(Burning(cells)[q])[p] == j &&
                           draws(TestAt(cells, Burning(cells), q, p, draws, k)) < IgniteBelow
  {
    var w := SpreadAll(cells, Burning(cells), draws, k);
    assert j in w.scheduled;
    SpreadAllSound(cells, Burning(cells), draws, k, j);
    SpreadAllWinner(cells, Burning(cells), draws, k, j);
    var s :| s in Burning(cells) && j in Candidates(s) && Eligible(cells, s, j);
    AdmissibleIffAdjacent(s, j);
  }

  /** When every draw is below 0.7, each cell sharing a side with a burning
      cell is on fire after the step. */
  lemma {:induction false} WinningDrawsIgniteNeighbour(cells: seq<bool>, draws: nat -> real, k: nat, s: int, j: int)
    requires |cells| == Size && 0 <= s < Size && 0 <= j < Size
    requires cells[s] && Adjacent(s, j)
    requires forall d :: k <= d ==> draws(d) < IgniteBelow
    ensures Step(cells, draws, k).cells[j]
  {
    if !cells[j] {
      AdmissibleIffAdjacent(s, j);
      var burning := Burning(cells);
      assert s in burning;
      var q :| 0 <= q < |burning| && burning[q] == s;
      var p :| 0 <= p < 4 && Candidates(s)[p] == j;
      assert TestAt(cells, burning, q, p, draws, k) >= k;
      SpreadAllComplete(cells, burning, draws, k, q, p);
    }
  }

  /** So when every draw is below 0.7, a step sets on fire exactly the cells
      that share a side with a burning cell. */
  lemma StepWithWinningDraws(cells: seq<bool>, draws: nat -> real, k: nat, j: int)
    requires |cells| == Size && 0 <= j < Size
    requires forall d :: k <= d ==> draws(d) < IgniteBelow
    ensures Step(cells, draws, k).cells[j] <==>
              cells[j] || exists s :: 0 <= s < Size && cells[s] && Adjacent(s, j)
  {
    if Step(cells, draws, k).cells[j] && !cells[j] {
      StepIgnitesOnlyNeighbours(cells, draws, k, j);
    }
    forall s | 0 <= s < Size && cells[s] && Adjacent(s, j)
      ensures Step(cells, draws, k).cells[j]
    {
      WinningDrawsIgniteNeighbour(cells, draws, k, s, j);
    }
  }

  /** When no draw is below 0.7, a step changes nothing. */
  lemma {:induction false} StepWithLosingDraws(cells: seq<bool>, draws: nat -> real, k: nat)
    requires forall d :: k <= d ==> draws(d) >= IgniteBelow
    ensures Step(cells, draws, k).cells == cells
  {
    var w := SpreadAll(cells, Burning(cells), draws, k);
    forall n | n in w.scheduled
      ensures false
    {
      SpreadAllSound(cells, Burning(cells), draws, k, n);
    }
    assert Apply(cells, w.scheduled) == cells;
  }

  /** Without any fire on the map a step changes nothing and draws nothing. */
  lemma StepWithoutFire(cells: seq<bool>, draws: nat -> real, k: nat)
    requires forall j :: 0 <= j < |cells| ==> !cells[j]
    ensures Step(cells, draws, k) == StepResult(cells, k)
  {
    assert forall i :: 0 <= i < |Burning(cells)| ==> Burning(cells)[i] in Burning(cells);
    assert Apply(cells, []) == cells;
  }
}
