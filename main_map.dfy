/** The main map of the page: 900 cells, each with a random danger class and a
    fire flag the user toggles by clicking, and the simulate button that spreads
    the fire one step (script.js:19-51, 153-196). */
module MainMap {
  import opened Grid
  import opened Levels
  import opened Draws
  import Spread

  /** The four classes `initMap` gives a cell: 'low', 'medium', 'high', 'extreme'. */
  datatype CellDanger = Low | Medium | High | Extreme

  function Rank(c: CellDanger): nat {
    match c
    case Low => 0
    case Medium => 1
    case High => 2
    case Extreme => 3
  }

  const DrawThresholds: seq<real> := [0.6, 0.8, 0.95]

  /** The class a uniform draw picks for a cell (script.js:29-38). */
  function DrawClass(x: real): (c: CellDanger)
    ensures Rank(c) == Reached(DrawThresholds, x)
  {
    DrawThresholdsAscending();
    if x < 0.6 then
      ReachedBetween(DrawThresholds, x, 0);
      Low
    else if x < 0.8 then
      ReachedBetween(DrawThresholds, x, 1);
      Medium
    else if x < 0.95 then
      ReachedBetween(DrawThresholds, x, 2);
      High
    else
      ReachedBetween(DrawThresholds, x, 3);
      Extreme
  }

  lemma DrawThresholdsAscending()
    ensures Ascending(DrawThresholds)
  {
  }

  /** A larger draw never gives a lower class. */
  lemma DrawClassMonotone(x: real, y: real)
    requires x <= y
    ensures Rank(DrawClass(x)) <= Rank(DrawClass(y))
  {
    ReachedMonotone(DrawThresholds, x, y);
  }

  /** Each class is exactly a half-open interval of draws. */
  lemma DrawClassIntervals(x: real)
    ensures DrawClass(x) == Low <==> x < 0.6
    ensures DrawClass(x) == Medium <==> 0.6 <= x < 0.8
    ensures DrawClass(x) == High <==> 0.8 <= x < 0.95
    ensures DrawClass(x) == Extreme <==> 0.95 <= x
  {
  }

  /** The effect of one click on cell `i`: its fire flag flips, no other changes. */
  function Toggle(cells: seq<bool>, i: int): (r: seq<bool>)
    requires 0 <= i < |cells|
    ensures |r| == |cells| && r[i] == !cells[i]
    ensures forall j :: 0 <= j < |cells| && j != i ==> r[j] == cells[j]
  {
    cells[i := !cells[i]]
  }

  /** Two clicks on the same cell restore the map. */
  lemma ToggleTwice(cells: seq<bool>, i: int)
    requires 0 <= i < |cells|
    ensures Toggle(Toggle(cells, i), i) == cells
  {
  }

  class FireMap {
    /** The 'fire' class of each cell. */
    var fire: array<bool>
    /** The danger class of each cell, drawn once by `initMap`. */
    var danger: array<CellDanger>
    /** Ignitions scheduled with `setTimeout` that have not run yet. */
    var timers: seq<int>

    ghost predicate Valid()
      reads this
    {
      fire.Length == Size && danger.Length == Size &&
      forall n :: n in timers ==> 0 <= n < Size
    }

    /** `initMap`: 900 fresh cells, none burning, the i-th drawing its class
        from the i-th draw of the stream. */
    constructor InitMap(rng: Random)
      modifies rng
      ensures Valid() && fresh(fire) && fresh(danger) && timers == []
      ensures forall i :: 0 <= i < Size ==> !fire[i]
      ensures forall i :: 0 <= i < Size ==> danger[i] == DrawClass(rng.draws(old(rng.next) + i))
      ensures rng.next == old(rng.next) + Size
    {
      var d := new CellDanger[Size];
      for i := 0 to Size
        invariant rng.next == old(rng.next) + i
        invariant forall j :: 0 <= j < i ==> d[j] == DrawClass(rng.draws(old(rng.next) + j))
      {
        var x := rng.Next();
        d[i] := DrawClass(x);
      }
      fire := new bool[Size](_ => false);
      danger := d;
      timers := [];
    }

    /** The click handler of a cell (script.js:41-47). */
    method Click(i: int)
      requires Valid() && 0 <= i < Size
      modifies fire
      ensures fire[..] == Toggle(old(fire[..]), i)
    {
      if !fire[i] {
        fire[i] := true;
      } else {
        fire[i] := false;
      }
    }

    /** `spreadToNeighbors(cells, index)`: schedules the ignitions of the
        candidates of `index` whose draw wins. */
    method SpreadToNeighbors(index: int, rng: Random)
      requires Valid()
      modifies this`timers, rng
      ensures Valid()
      ensures var r := Spread.SpreadToNeighbors(fire[..], index, rng.draws, old(rng.next));
              timers == old(timers) + r.scheduled && rng.next == r.next
    {
      var neighbors := Candidates(index);
      ghost var cells, t0, k0 := fire[..], timers, rng.next;
      for i := 0 to |neighbors|
        invariant Valid()
        invariant timers == t0 + Spread.Scan(cells, index, neighbors[..i], rng.draws, k0).scheduled
        invariant rng.next == Spread.Scan(cells, index, neighbors[..i], rng.draws, k0).next
      {
        var n := neighbors[i];
        ghost var t1 := timers;
        ghost var a := Spread.Attempt(cells, index, n, rng.draws, rng.next);
        Spread.ScanSnoc(cells, index, neighbors[..i], n, rng.draws, k0);
        Spread.PrefixSnoc(neighbors, i);
        assert Spread.Eligible(cells, index, n) <==>
          0 <= n < fire.Length && Abs(JsRem(n, Cols) - JsRem(index, Cols)) <= 1 && !fire[n];
        if 0 <= n < fire.Length && Abs(JsRem(n, Cols) - JsRem(index, Cols)) <= 1 {
          if !fire[n] {
            var x := rng.Next();
            if x < Spread.IgniteBelow {
              var delay := rng.Next();
              timers := timers + [n];
            }
          }
        }
        assert timers == t1 + a.scheduled && rng.next == a.next;
        ghost var prev := Spread.Scan(cells, index, neighbors[..i], rng.draws, k0);
        assert t1 + a.scheduled == t0 + (prev.scheduled + a.scheduled);
      }
      assert neighbors[..|neighbors|] == neighbors;
    }

    /** The first loop of `startSimulation`: the indices of the burning cells,
        in increasing order. */
    method CollectBurning() returns (fireCells: seq<int>)
      requires Valid()
      ensures fireCells == Spread.Burning(fire[..])
    {
      fireCells := [];
      for i := 0 to fire.Length
        invariant fireCells == Spread.BurningBelow(fire[..], i)
      {
        if fire[i] {
          fireCells := fireCells + [i];
        }
      }
    }

    /** `startSimulation`: collects the burning cells, then spreads from each;
        the map itself is not changed until the timers run. */
    method StartSimulation(rng: Random)
      requires Valid()
      modifies this`timers, rng
      ensures Valid()
      ensures var r := Spread.SpreadAll(fire[..], Spread.Burning(fire[..]), rng.draws, old(rng.next));
              timers == old(timers) + r.scheduled && rng.next == r.next
    {
      ghost var cells, t0, k0 := fire[..], timers, rng.next;
      var fireCells := CollectBurning();
      for j := 0 to |fireCells|
        invariant Valid() && fire[..] == cells
        invariant timers == t0 + Spread.SpreadAll(cells, fireCells[..j], rng.draws, k0).scheduled
        invariant rng.next == Spread.SpreadAll(cells, fireCells[..j], rng.draws, k0).next
      {
        var source := fireCells[j];
        ghost var prefix := fireCells[..j];
        ghost var prev := Spread.SpreadAll(cells, prefix, rng.draws, k0);
        SpreadToNeighbors(source, rng);
        ghost var here := Spread.SpreadToNeighbors(cells, source, rng.draws, prev.next);
        assert timers == (t0 + prev.scheduled) + here.scheduled && rng.next == here.next;
        assert (t0 + prev.scheduled) + here.scheduled == t0 + (prev.scheduled + here.scheduled);
        Spread.SpreadAllSnoc(cells, prefix, source, rng.draws, k0);
        Spread.PrefixSnoc(fireCells, j);
      }
      assert fireCells[..|fireCells|] == fireCells;
    }

    /** The event loop running every pending ignition timer: each sets its cell
        on fire. */
    method FireTimers()
      requires Valid()
      modifies this`timers, fire
      ensures Valid() && timers == []
      ensures fire[..] == Spread.Apply(old(fire[..]), old(timers))
    {
      var pending := timers;
      assert forall p :: 0 <= p < |pending| ==> pending[p] in timers;
      for i := 0 to |pending|
        invariant forall p :: 0 <= p < |pending| ==> 0 <= pending[p] < fire.Length
        invariant fire[..] == Spread.Apply(old(fire[..]), pending[..i])
      {
        Spread.ApplyOneMore(old(fire[..]), pending[..i], pending[i]);
        Spread.PrefixSnoc(pending, i);
        fire[pending[i]] := true;
      }
      assert pending[..|pending|] == pending;
      timers := [];
    }

    /** A press of the simulate button on a map with no pending timer,
        followed by its timers: exactly one step of the spread. */
    method RunStep(rng: Random)
      requires Valid() && timers == []
      modifies this`timers, fire, rng
      ensures Valid() && timers == []
      ensures var r := Spread.Step(old(fire[..]), rng.draws, old(rng.next));
              fire[..] == r.cells && rng.next == r.next
    {
      StartSimulation(rng);
      FireTimers();
    }
  }
}
