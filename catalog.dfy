/** The piece catalog of src/tetris.rs: seven kinds of tetrimino, each a list
    of 4x4 rotation states whose non-zero cells carry the kind's colour id. */
module Catalog {

  /** A grid or shape cell: a Rust `u8`, 0 for empty. */
  type Cell = c: int | 0 <= c < 256

  /** One rotation state: a 4x4 matrix of cells. */
  type Shape = s: seq<seq<Cell>> | |s| == 4 && |s[0]| == 4 && |s[1]| == 4 && |s[2]| == 4 && |s[3]| == 4
    witness [[0, 0, 0, 0], [0, 0, 0, 0], [0, 0, 0, 0], [0, 0, 0, 0]]

  datatype Kind = I | J | L | O | S | Z | T

  /** The draw `rand_nb` (already reduced modulo 7) selects a kind; any other
      value is `unreachable!()` in the source. */
  function KindOf(n: nat): (k: Kind)
    requires n < 7
    ensures KindIndex(k) == n
  {
    match n
    case 0 => I
    case 1 => J
    case 2 => L
    case 3 => O
    case 4 => S
    case 5 => Z
    case 6 => T
  }

  function KindIndex(k: Kind): nat
  {
    match k
    case I => 0
    case J => 1
    case L => 2
    case O => 3
    case S => 4
    case Z => 5
    case T => 6
  }

  /** The colour written into the grid by every cell of a kind's shapes. */
  function ColourId(k: Kind): nat
  {
    KindIndex(k) + 1
  }

  /** Spawn column of each generator; every piece spawns at row 0, state 0. */
  function SpawnX(k: Kind): int
  {
    if k == O then 5 else 4
  }

  /** The rotation states of each kind, exactly as the seven generators list them. */
  function Shapes(k: Kind): seq<Shape>
  {
    match k
    case I => [[[1, 1, 1, 1], [0, 0, 0, 0], [0, 0, 0, 0], [0, 0, 0, 0]],
               [[0, 1, 0, 0], [0, 1, 0, 0], [0, 1, 0, 0], [0, 1, 0, 0]]]
    case J => [[[2, 2, 2, 0], [2, 0, 0, 0], [0, 0, 0, 0], [0, 0, 0, 0]],
               [[2, 2, 0, 0], [0, 2, 0, 0], [0, 2, 0, 0], [0, 0, 0, 0]],
               [[0, 0, 2, 0], [2, 2, 2, 0], [0, 0, 0, 0], [0, 0, 0, 0]],
               [[2, 0, 0, 0], [2, 0, 0, 0], [2, 2, 0, 0], [0, 0, 0, 0]]]
    case L => [[[3, 3, 3, 0], [0, 0, 3, 0], [0, 0, 0, 0], [0, 0, 0, 0]],
               [[0, 3, 0, 0], [0, 3, 0, 0], [3, 3, 0, 0], [0, 0, 0, 0]],
               [[3, 0, 0, 0], [3, 3, 3, 0], [0, 0, 0, 0], [0, 0, 0, 0]],
               [[3, 3, 0, 0], [3, 0, 0, 0], [3, 0, 0, 0], [0, 0, 0, 0]]]
    case O => [[[4, 4, 0, 0], [4, 4, 0, 0], [0, 0, 0, 0], [0, 0, 0, 0]]]
    case S => [[[0, 5, 5, 0], [5, 5, 0, 0], [0, 0, 0, 0], [0, 0, 0, 0]],
               [[0, 5, 0, 0], [0, 5, 5, 0], [0, 0, 5, 0], [0, 0, 0, 0]]]
    case Z => [[[6, 6, 0, 0], [0, 6, 6, 0], [0, 0, 0, 0], [0, 0, 0, 0]],
               [[0, 0, 6, 0], [0, 6, 6, 0], [0, 6, 0, 0], [0, 0, 0, 0]]]
    case T => [[[7, 7, 7, 0], [0, 7, 0, 0], [0, 0, 0, 0], [0, 0, 0, 0]],
               [[0, 7, 0, 0], [7, 7, 0, 0], [0, 7, 0, 0], [0, 0, 0, 0]],
               [[0, 7, 0, 0], [7, 7, 7, 0], [0, 0, 0, 0], [0, 0, 0, 0]],
               [[0, 7, 0, 0], [0, 7, 7, 0], [0, 7, 0, 0], [0, 0, 0, 0]]]
  }

  /** Number of non-zero cells in a row. */
  function RowCells(row: seq<Cell>): nat
  {
    if row == [] then 0 else (if row[0] != 0 then 1 else 0) + RowCells(row[1..])
  }

  /** Number of non-zero cells in a shape. */
  function CellCount(s: Shape): nat
  {
    RowCells(s[0]) + RowCells(s[1]) + RowCells(s[2]) + RowCells(s[3])
  }

  /** Every cell of the row is empty or carries `id`. */
  predicate RowUniform(row: seq<Cell>, id: nat)
  {
    row == [] || ((row[0] == 0 || row[0] == id) && RowUniform(row[1..], id))
  }

  /** What the catalog promises of one state, checked cell by cell. */
  predicate ShapeOk(s: Shape, id: nat)
  {
    CellCount(s) == 4 &&
    RowUniform(s[0], id) && RowUniform(s[1], id) && RowUniform(s[2], id) && RowUniform(s[3], id)
  }

  /** A shape has at least one occupied cell. */
  ghost predicate HasCell(s: Shape)
  {
    exists r, c :: 0 <= r < 4 && 0 <= c < 4 && s[r][c] != 0
  }

  /** Every cell of the shape is empty or carries `id`. */
  ghost predicate Uniform(s: Shape, id: nat)
  {
    forall r, c :: 0 <= r < 4 && 0 <= c < 4 ==> s[r][c] == 0 || s[r][c] == id
  }

  /** What a tetrimino needs of its `states`: at least one, each with a cell. */
  ghost predicate ValidStates(states: seq<Shape>)
  {
    |states| > 0 && forall i :: 0 <= i < |states| ==> HasCell(states[i])
  }

  lemma {:induction false} RowUniformAt(row: seq<Cell>, id: nat, c: nat)
    requires RowUniform(row, id) && c < |row|
    ensures row[c] == 0 || row[c] == id
  {
    if c > 0 {
      RowUniformAt(row[1..], id, c - 1);
    }
  }

  lemma {:induction false} RowCellsWitness(row: seq<Cell>) returns (c: nat)
    requires RowCells(row) > 0
    ensures c < |row| && row[c] != 0
  {
    if row[0] == 0 {
      c := RowCellsWitness(row[1..]);
      c := c + 1;
    } else {
      c := 0;
    }
  }

  lemma CellCountHasCell(s: Shape)
    requires CellCount(s) > 0
    ensures HasCell(s)
  {
    var r := if RowCells(s[0]) > 0 then 0 else if RowCells(s[1]) > 0 then 1
             else if RowCells(s[2]) > 0 then 2 else 3;
    var c := RowCellsWitness(s[r]);
    assert s[r][c] != 0;
  }

  lemma ShapeOkMeans(s: Shape, id: nat)
    requires ShapeOk(s, id)
    ensures HasCell(s) && Uniform(s, id)
  {
    CellCountHasCell(s);
    forall r, c | 0 <= r < 4 && 0 <= c < 4
      ensures s[r][c] == 0 || s[r][c] == id
    {
      RowUniformAt(s[r], id, c);
    }
  }

  lemma KindShapeOk(k: Kind, i: nat)
    requires i < |Shapes(k)|
    ensures ShapeOk(Shapes(k)[i], ColourId(k))
  {
    match k {
      case I => IShapesOk(i);
      case J => JShapesOk(i);
      case L => LShapesOk(i);
      case O => OShapesOk(i);
      case S => SShapesOk(i);
      case Z => ZShapesOk(i);
      case T => TShapesOk(i);
    }
  }

  lemma IShapesOk(i: nat)
    requires i < |Shapes(I)|
    ensures ShapeOk(Shapes(I)[i], 1)
  {
    if i == 0 { assert ShapeOk(Shapes(I)[0], 1); }
    else { assert ShapeOk(Shapes(I)[1], 1); }
  }

  lemma JShapesOk(i: nat)
    requires i < |Shapes(J)|
    ensures ShapeOk(Shapes(J)[i], 2)
  {
    if i == 0 { assert ShapeOk(Shapes(J)[0], 2); }
    else if i == 1 { assert ShapeOk(Shapes(J)[1], 2); }
    else if i == 2 { assert ShapeOk(Shapes(J)[2], 2); }
    else { assert ShapeOk(Shapes(J)[3], 2); }
  }

  lemma LShapesOk(i: nat)
    requires i < |Shapes(L)|
    ensures ShapeOk(Shapes(L)[i], 3)
  {
    if i == 0 { assert ShapeOk(Shapes(L)[0], 3); }
    else if i == 1 { assert ShapeOk(Shapes(L)[1], 3); }
    else if i == 2 { assert ShapeOk(Shapes(L)[2], 3); }
    else { assert ShapeOk(Shapes(L)[3], 3); }
  }

  lemma OShapesOk(i: nat)
    requires i < |Shapes(O)|
    ensures ShapeOk(Shapes(O)[i], 4)
  {
    assert ShapeOk(Shapes(O)[0], 4);
  }

  lemma SShapesOk(i: nat)
    requires i < |Shapes(S)|
    ensures ShapeOk(Shapes(S)[i], 5)
  {
    if i == 0 { assert ShapeOk(Shapes(S)[0], 5); }
    else { assert ShapeOk(Shapes(S)[1], 5); }
  }

  lemma ZShapesOk(i: nat)
    requires i < |Shapes(Z)|
    ensures ShapeOk(Shapes(Z)[i], 6)
  {
    if i == 0 { assert ShapeOk(Shapes(Z)[0], 6); }
    else { assert ShapeOk(Shapes(Z)[1], 6); }
  }

  lemma TShapesOk(i: nat)
    requires i < |Shapes(T)|
    ensures ShapeOk(Shapes(T)[i], 7)
  {
    if i == 0 { assert ShapeOk(Shapes(T)[0], 7); }
    else if i == 1 { assert ShapeOk(Shapes(T)[1], 7); }
    else if i == 2 { assert ShapeOk(Shapes(T)[2], 7); }
    else { assert ShapeOk(Shapes(T)[3], 7); }
  }

  /** The catalog's promise: every kind has at least one state, every state of
      kind k has exactly four occupied cells and all of them carry ColourId(k),
      and the state counts are those of the generators. */
  lemma CatalogWellFormed(k: Kind)
    ensures ValidStates(Shapes(k))
    ensures |Shapes(k)| == (match k case O => 1 case I => 2 case S => 2 case Z => 2 case _ => 4)
    ensures forall i :: 0 <= i < |Shapes(k)| ==>
              CellCount(Shapes(k)[i]) == 4 && Uniform(Shapes(k)[i], ColourId(k))
  {
    forall i | 0 <= i < |Shapes(k)|
      ensures CellCount(Shapes(k)[i]) == 4 && Uniform(Shapes(k)[i], ColourId(k)) && HasCell(Shapes(k)[i])
    {
      KindShapeOk(k, i);
      ShapeOkMeans(Shapes(k)[i], ColourId(k));
    }
  }
}
