/** The piece controller of src/tetris.rs: a `Tetrimino` holds its rotation
    states and its position, and moves and rotates only through the collision
    test. The pure functions describe where each operation leaves the piece. */
module Piece {
  import opened Wrappers
  import opened Catalog
  import opened Grid

  /** Rotation index and anchor: a signed column and an unsigned row. */
  datatype Pose = Pose(state: nat, x: int, y: nat)

  /** The horizontal corrections `rotate` tries, in order. */
  const Offsets: seq<int> := [0, -1, 1, -2, 2, -3]

  /** The state after `state`, wrapping to 0 past the last one. */
  function NextState(states: seq<Shape>, state: nat): (r: nat)
    requires |states| > 0
    ensures r < |states|
    ensures state + 1 < |states| ==> r == state + 1
    ensures state + 1 >= |states| ==> r == 0
  {
    if state + 1 >= |states| then 0 else state + 1
  }

  /** Index of the first offset at which the shape fits beside column x. */
  function FirstFit(m: Map, s: Shape, x: int, y: nat, offsets: seq<int>): (r: Option<nat>)
    ensures r.Some? ==> r.value < |offsets| && Fits(m, s, x + offsets[r.value], y)
    ensures r.Some? ==> forall j :: 0 <= j < r.value ==> !Fits(m, s, x + offsets[j], y)
    ensures r.None? ==> forall j :: 0 <= j < |offsets| ==> !Fits(m, s, x + offsets[j], y)
  {
    if offsets == [] then None
    else if Fits(m, s, x + offsets[0], y) then Some(0)
    else match FirstFit(m, s, x, y, offsets[1..])
      case None => None
      case Some(i) => Some(i + 1)
  }

  /** Where `rotate` leaves the piece. */
  function Rotated(m: Map, states: seq<Shape>, p: Pose): (r: Pose)
    requires |states| > 0
    ensures p.state < |states| ==> r.state < |states|
  {
    var t := NextState(states, p.state);
    match FirstFit(m, states[t], p.x, p.y, Offsets)
    case None => p
    case Some(i) => Pose(t, p.x + Offsets[i], p.y)
  }

  /** `rotate`'s rule, when some correction works: the candidate state is
      the next one, and the first correction in [0, -1, 1, -2, 2, -3] at
      which it fits is committed; the row never changes. */
  lemma RotatedFirstFit(m: Map, states: seq<Shape>, p: Pose, i: nat)
    requires |states| > 0 && i < |Offsets|
    requires Fits(m, states[NextState(states, p.state)], p.x + Offsets[i], p.y)
    requires forall j :: 0 <= j < i ==> !Fits(m, states[NextState(states, p.state)], p.x + Offsets[j], p.y)
    ensures Rotated(m, states, p) == Pose(NextState(states, p.state), p.x + Offsets[i], p.y)
  {
    var f := FirstFit(m, states[NextState(states, p.state)], p.x, p.y, Offsets);
    assert f.Some?;
    assert f.value == i;
  }

  /** `rotate`'s rule, when no correction works: the piece is unchanged. */
  lemma RotatedNoFit(m: Map, states: seq<Shape>, p: Pose)
    requires |states| > 0
    requires forall j :: 0 <= j < |Offsets| ==> !Fits(m, states[NextState(states, p.state)], p.x + Offsets[j], p.y)
    ensures Rotated(m, states, p) == p
  {
  }

  /** A rotation never takes a fitting piece to a place where it does not fit. */
  lemma RotatedFits(m: Map, states: seq<Shape>, p: Pose)
    requires |states| > 0 && p.state < |states| && Fits(m, states[p.state], p.x, p.y)
    ensures var r := Rotated(m, states, p); r.state < |states| && Fits(m, states[r.state], r.x, r.y)
  {
  }

  /** The row a hard drop reaches from row y: moving down one row at a time
      while the shape still fits one row lower. */
  function Dropped(m: Map, s: Shape, x: int, y: nat): (r: nat)
    requires HasCell(s)
    ensures y <= r && !Fits(m, s, x, r + 1)
    ensures forall k :: y < k <= r ==> Fits(m, s, x, k)
    ensures Fits(m, s, x, y) ==> Fits(m, s, x, r)
    decreases |m| - y
  {
    if Fits(m, s, x, y + 1) then
      FitsAboveFloor(m, s, x, y + 1);
      Dropped(m, s, x, y + 1)
    else y
  }

  class Tetrimino {
    const states: seq<Shape>
    var x: int
    var y: nat
    var currentState: nat

    ghost predicate Valid()
      reads this
    {
      ValidStates(states) && currentState < |states|
    }

    function Placement(): Pose
      reads this
    {
      Pose(currentState, x, y)
    }

    /** The piece fits in `m` where it is. */
    ghost predicate FitsIn(m: Map)
      reads this
      requires Valid()
    {
      Fits(m, states[currentState], x, y)
    }

    /** One of the seven generators: the kind's states, row 0, state 0 and the
        kind's spawn column. */
    constructor (k: Kind)
      ensures Valid() && states == Shapes(k) && Placement() == Pose(0, SpawnX(k), 0)
    {
      CatalogWellFormed(k);
      states := Shapes(k);
      x := SpawnX(k);
      y := 0;
      currentState := 0;
    }

    /** `test_position`: the collision test of state `state` at (x, y). */
    method TestPosition(m: Map, state: nat, x: int, y: nat) returns (ok: bool)
      requires state < |states|
      ensures ok == Fits(m, states[state], x, y)
    {
      var s := states[state];
      for shiftY := 0 to 4
        invariant forall r, c :: 0 <= r < shiftY && 0 <= c < 4 ==> CellFits(m, s, x, y, r, c)
      {
        for shiftX := 0 to 4
          invariant forall r, c :: 0 <= r < shiftY && 0 <= c < 4 ==> CellFits(m, s, x, y, r, c)
          invariant forall c :: 0 <= c < shiftX ==> CellFits(m, s, x, y, shiftY, c)
        {
          var col := x + shiftX;
          if s[shiftY][shiftX] != 0 &&
             (y + shiftY >= |m| || col < 0 || col >= |m[y + shiftY]| || m[y + shiftY][col] != 0)
          {
            assert !CellFits(m, s, x, y, shiftY, shiftX);
            return false;
          }
        }
      }
      return true;
    }

    /** `test_current_position`. */
    method TestCurrentPosition(m: Map) returns (ok: bool)
      requires Valid()
      ensures ok == FitsIn(m)
    {
      ok := TestPosition(m, currentState, x, y);
    }

    /** `change_position`: moves to (newX, newY) exactly when the piece fits
        there; otherwise nothing changes. */
    method ChangePosition(m: Map, newX: int, newY: nat) returns (ok: bool)
      requires Valid()
      modifies this
      ensures Valid() && currentState == old(currentState)
      ensures ok == Fits(m, states[currentState], newX, newY)
      ensures Placement() == if ok then Pose(currentState, newX, newY) else old(Placement())
    {
      ok := TestPosition(m, currentState, newX, newY);
      if ok {
        x := newX;
        y := newY;
      }
    }

    /** `rotate`: commits the next state at the first correction that fits. */
    method Rotate(m: Map)
      requires Valid()
      modifies this
      ensures Valid() && Placement() == Rotated(m, states, old(Placement()))
    {
      var tmpState := currentState + 1;
      if tmpState >= |states| {
        tmpState := 0;
      }
      assert tmpState == NextState(states, currentState);
      for i := 0 to |Offsets|
        invariant Placement() == old(Placement())
        invariant forall j :: 0 <= j < i ==> !Fits(m, states[tmpState], x + Offsets[j], y)
      {
        var d := Offsets[i];
        var fits := TestPosition(m, tmpState, x + d, y);
        if fits {
          RotatedFirstFit(m, states, Placement(), i);
          currentState := tmpState;
          x := x + d;
          return;
        }
      }
      RotatedNoFit(m, states, Placement());
    }
  }
}
