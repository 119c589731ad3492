/** The 10 x 10 mini-map under the calculator's result: cleared, lit at its
    centre, then lit on the eight cells around the centre (script.js:54-64,
    105-133). The eight `setTimeout` calls are run in the order of their delays
    (300 ms to 1700 ms); `AnyOrderLightsBlock` shows that the order does not
    matter. */
module MiniMap {

  const MiniSize: nat := 100
  const CentreIndex: int := 45

  /** The effect of `spreadFire(cells, index)`: an index outside the list is
      ignored, any other cell is set on fire. */
  function SetFire(cells: seq<bool>, index: int): (r: seq<bool>)
    ensures |r| == |cells|
    ensures 0 <= index < |cells| ==> r[index]
    ensures forall j :: 0 <= j < |cells| && j != index ==> r[j] == cells[j]
  {
    if 0 <= index < |cells| then cells[index := true] else cells
  }

  /** Setting the same cell on fire twice is the same as once. */
  lemma SetFireIdempotent(cells: seq<bool>, index: int)
    ensures SetFire(SetFire(cells, index), index) == SetFire(cells, index)
  {
  }

  /** Two calls of `spreadFire` commute. */
  lemma SetFireCommutes(cells: seq<bool>, a: int, b: int)
    ensures SetFire(SetFire(cells, a), b) == SetFire(SetFire(cells, b), a)
  {
  }

  /** The cells after `spreadFire` has run for each index of `order`, first to last. */
  function SetFireAll(cells: seq<bool>, order: seq<int>): (r: seq<bool>)
    ensures |r| == |cells|
    decreases |order|
  {
    if order == [] then cells
    else SetFire(SetFireAll(cells, order[..|order| - 1]), order[|order| - 1])
  }

  /** After a series of `spreadFire` calls a cell burns exactly when it burned
      before or one of the calls named it. */
  lemma {:induction false} SetFireAllAt(cells: seq<bool>, order: seq<int>, j: int)
    requires 0 <= j < |cells|
    ensures SetFireAll(cells, order)[j] == (cells[j] || j in order)
  {
    if order != [] {
      var init := order[..|order| - 1];
      SetFireAllAt(cells, init, j);
      assert order == init + [order[|order| - 1]];
    }
  }

  /** The eight calls scheduled by `simulateFireSpread`, in the order of their delays. */
  function Scheduled(): seq<int> {
    [CentreIndex - 1, CentreIndex + 1, CentreIndex - 10, CentreIndex + 10,
     CentreIndex - 11, CentreIndex - 9, CentreIndex + 9, CentreIndex + 11]
  }

  /** The centre and the eight cells around it. */
  function Block(): set<int> {
    {34, 35, 36, 44, 45, 46, 54, 55, 56}
  }

  /** A cleared map of `n` cells with only the centre lit. */
  function Seeded(n: nat): (s: seq<bool>)
    requires CentreIndex < n
  {
    seq(n, j => false)[CentreIndex := true]
  }

  /** Whatever order the eight calls run in, and however often each runs, the
      cells burning at the end are exactly the 3 x 3 block around the centre. */
  lemma AnyOrderLightsBlock(n: nat, order: seq<int>, j: int)
    requires CentreIndex < n && 0 <= j < n
    requires forall x :: x in order <==> x in Scheduled()
    ensures SetFireAll(Seeded(n), order)[j] == (j in Block())
  {
    SetFireAllAt(Seeded(n), order, j);
  }

  /** `initMiniMap`: 100 fresh cells, none burning. */
  method InitMiniMap() returns (cells: array<bool>)
    ensures fresh(cells) && cells.Length == MiniSize
    ensures forall j :: 0 <= j < MiniSize ==> !cells[j]
  {
    cells := new bool[MiniSize](_ => false);
  }

  /** `spreadFire(cells, index)` (script.js:129-133). */
  method SpreadFire(cells: array<bool>, index: int)
    modifies cells
    ensures cells[..] == SetFire(old(cells[..]), index)
  {
    if 0 <= index < cells.Length {
      cells[index] := true;
    }
  }

  /** `simulateFireSpread` followed by its eight timers. The source reads
      `miniCells[45]` unchecked, so the map must have more than 45 cells. */
  method SimulateFireSpread(cells: array<bool>)
    requires CentreIndex < cells.Length
    modifies cells
    ensures cells[..] == SetFireAll(Seeded(cells.Length), Scheduled())
    ensures forall j :: 0 <= j < cells.Length ==> cells[j] == (j in Block())
  {
    for i := 0 to cells.Length
      invariant forall j :: 0 <= j < i ==> !cells[j]
    {
      cells[i] := false;
    }
    cells[CentreIndex] := true;
    assert cells[..] == Seeded(cells.Length);
    var spreads := Scheduled();
    for i := 0 to |spreads|
      invariant cells[..] == SetFireAll(Seeded(cells.Length), spreads[..i])
    {
      SpreadFire(cells, spreads[i]);
      assert spreads[..i + 1][..i] == spreads[..i];
    }
    assert spreads[..|spreads|] == spreads;
    forall j | 0 <= j < cells.Length
      ensures cells[j] == (j in Block())
    {
      AnyOrderLightsBlock(cells.Length, spreads, j);
    }
  }
}
