/** The game map of src/tetris.rs (16 rows of 10 `u8` cells) and the pure rules
    over it: the collision test, what locking a piece writes, and what line
    clearing leaves behind. */
module Grid {
  import opened Wrappers
  import opened Catalog

  const Height: nat := 16
  const Width: nat := 10

  type Row = seq<Cell>
  /** The map is indexed `map[row][column]`, row 0 at the top. */
  type Map = seq<Row>

  /** The shape every map has between operations: 16 rows of 10 cells. */
  ghost predicate WellFormed(m: Map)
  {
    |m| == Height && forall i :: 0 <= i < |m| ==> |m[i]| == Width
  }

  function EmptyRow(): (r: Row)
    ensures |r| == Width && forall c :: 0 <= c < |r| ==> r[c] == 0
  {
    [0, 0, 0, 0, 0, 0, 0, 0, 0, 0]
  }

  /** `n` empty rows. */
  function EmptyRows(n: nat): (r: Map)
    ensures |r| == n && forall i :: 0 <= i < n ==> r[i] == EmptyRow()
  {
    seq(n, _ => EmptyRow())
  }

  /** One more empty row pushed on top of `n` empty rows over `below`. */
  lemma EmptyRowsPush(n: nat, below: Map)
    ensures [EmptyRow()] + (EmptyRows(n) + below) == EmptyRows(n + 1) + below
  {
    assert [EmptyRow()] + EmptyRows(n) == EmptyRows(n + 1);
  }

  /** The map `Tetris::new` builds: 16 rows of 10 zeros. */
  function EmptyMap(): Map
  {
    EmptyRows(Height)
  }

  // ---------------------------------------------------------------- collision

  /** Cell (r, c) of the shape, placed with its top-left corner at column x,
      row y, is either empty or lands inside the map on an empty map cell. */
  predicate CellFits(m: Map, s: Shape, x: int, y: nat, r: nat, c: nat)
    requires r < 4 && c < 4
  {
    s[r][c] != 0 ==> y + r < |m| && 0 <= x + c < |m[y + r]| && m[y + r][x + c] == 0
  }

  /** The legality rule of `test_position`: every non-zero cell of the state,
      placed at (x + col, y + row), lies in a row of the map, in a column
      0 <= c < that row's length, and on a 0 map cell. */
  predicate Fits(m: Map, s: Shape, x: int, y: nat)
  {
    forall r, c :: 0 <= r < 4 && 0 <= c < 4 ==> CellFits(m, s, x, y, r, c)
  }

  /** A shape with an occupied cell only fits strictly above the bottom of the
      map; this bounds every downward search. */
  lemma FitsAboveFloor(m: Map, s: Shape, x: int, y: nat)
    requires HasCell(s) && Fits(m, s, x, y)
    ensures y < |m|
  {
    var r, c :| 0 <= r < 4 && 0 <= c < 4 && s[r][c] != 0;
    assert CellFits(m, s, x, y, r, c);
  }

  // ---------------------------------------------------------------- locking

  /** The value of map cell (i, j) once the shape placed at (x, y) is laid on
      top of it: the shape's cell where that cell is non-zero, else `under`. */
  function Overlay(s: Shape, x: int, y: nat, i: nat, j: nat, under: Cell): Cell
  {
    if y <= i < y + 4 && x <= j < x + 4 && s[i - y][j - x] != 0 then s[i - y][j - x] else under
  }

  /** The map after `make_permanent` has written the piece's cells: every
      non-zero cell of the shape that falls inside the map, and nothing else. */
  function Lock(m: Map, s: Shape, x: int, y: nat): (r: Map)
    ensures |r| == |m| && forall i :: 0 <= i < |m| ==> |r[i]| == |m[i]|
  {
    seq(|m|, i requires 0 <= i < |m| => seq(|m[i]|, j requires 0 <= j < |m[i]| => Overlay(s, x, y, i, j, m[i][j])))
  }

  /** Locking a fitting piece writes each of its cells, with its colour, into
      the map, and changes no other cell. */
  lemma LockWritesPiece(m: Map, s: Shape, x: int, y: nat)
    requires Fits(m, s, x, y)
    ensures forall r, c :: 0 <= r < 4 && 0 <= c < 4 && s[r][c] != 0 ==>
              y + r < |m| && 0 <= x + c < |m[y + r]| && Lock(m, s, x, y)[y + r][x + c] == s[r][c]
    ensures forall i, j :: 0 <= i < |m| && 0 <= j < |m[i]| && Lock(m, s, x, y)[i][j] != m[i][j] ==>
              y <= i < y + 4 && x <= j < x + 4 && s[i - y][j - x] != 0
  {
    forall r, c | 0 <= r < 4 && 0 <= c < 4 && s[r][c] != 0
      ensures y + r < |m| && 0 <= x + c < |m[y + r]| && Lock(m, s, x, y)[y + r][x + c] == s[r][c]
    {
      assert CellFits(m, s, x, y, r, c);
    }
  }

  /** After locking, the piece no longer fits where it was: its cells are taken. */
  lemma LockOccupies(m: Map, s: Shape, x: int, y: nat)
    requires HasCell(s) && Fits(m, s, x, y)
    ensures !Fits(Lock(m, s, x, y), s, x, y)
  {
    var r, c :| 0 <= r < 4 && 0 <= c < 4 && s[r][c] != 0;
    assert CellFits(m, s, x, y, r, c);
    assert !CellFits(Lock(m, s, x, y), s, x, y, r, c);
  }

  // ---------------------------------------------------------------- line clearing

  /** A row is complete when none of its cells is 0. */
  predicate Complete(row: Row)
  {
    forall c :: 0 <= c < |row| ==> row[c] != 0
  }

  /** The rows of `m` that are not complete, in their original order: what
      `check_lines`'s scan leaves after removing every complete row. */
  function Incomplete(m: Map): (r: Map)
    ensures |r| <= |m|
  {
    if m == [] then []
    else Incomplete(m[..|m| - 1]) + (if Complete(m[|m| - 1]) then [] else [m[|m| - 1]])
  }

  /** The scan keeps exactly the incomplete rows: every row it keeps is an
      incomplete row of the map, and every incomplete row is kept. */
  lemma {:induction false} IncompleteRows(m: Map)
    ensures forall i :: 0 <= i < |Incomplete(m)| ==> Incomplete(m)[i] in m && !Complete(Incomplete(m)[i])
    ensures forall i :: 0 <= i < |m| && !Complete(m[i]) ==> m[i] in Incomplete(m)
  {
    if m != [] {
      var init := m[..|m| - 1];
      IncompleteRows(init);
      assert forall i :: 0 <= i < |init| ==> init[i] == m[i];
      assert m == init + [m[|m| - 1]];
    }
  }

  /** One step of the scan over the original rows, seen from the map being
      scanned: rows before j are already filtered, rows from j on are as
      they were; row j sits at the scan index and is removed exactly when
      it is complete. */
  lemma ScanStep(m0: Map, j: nat, g: Map)
    requires j < |m0| && g == Incomplete(m0[..j]) + m0[j..]
    ensures var y := |Incomplete(m0[..j])|;
            y < |g| && g[y] == m0[j] &&
            (Complete(m0[j]) ==> g[..y] + g[y + 1..] == Incomplete(m0[..j + 1]) + m0[j + 1..]) &&
            (!Complete(m0[j]) ==> g == Incomplete(m0[..j + 1]) + m0[j + 1..]) &&
            |Incomplete(m0[..j + 1])| == y + (if Complete(m0[j]) then 0 else 1)
  {
    var k := Incomplete(m0[..j]);
    var rest := m0[j..];
    assert rest == [m0[j]] + m0[j + 1..];
    assert g[|k|] == m0[j];
    assert g[..|k|] == k;
    assert g[|k| + 1..] == m0[j + 1..];
    IncompleteSnoc(m0, j);
  }

  /** Where the scan of `check_lines` stands after the first j original
      rows: those are filtered, the rest are untouched, and the scan index
      y points at original row j. */
  ghost predicate Scanned(m0: Map, j: nat, g: Map, y: int)
  {
    j <= |m0| && g == Incomplete(m0[..j]) + m0[j..] && y == |Incomplete(m0[..j])|
  }

  /** One step of the scan from the scan index's point of view. */
  lemma ScanNext(m0: Map, j: nat, g: Map, y: int)
    requires Scanned(m0, j, g, y) && y < |g|
    ensures j < |m0| && 0 <= y && g[y] == m0[j]
    ensures Complete(g[y]) ==> Scanned(m0, j + 1, g[..y] + g[y + 1..], y)
    ensures !Complete(g[y]) ==> Scanned(m0, j + 1, g, y + 1)
  {
    ScanStep(m0, j, g);
  }

  /** The scan ends after the last original row with exactly the
      incomplete rows. */
  lemma ScanDone(m0: Map, j: nat, g: Map, y: int)
    requires Scanned(m0, j, g, y) && y >= |g|
    ensures j == |m0| && g == Incomplete(m0) && y == |g|
  {
    assert m0[..|m0|] == m0;
  }

  lemma IncompleteSnoc(m: Map, j: nat)
    requires j < |m|
    ensures Incomplete(m[..j + 1]) == Incomplete(m[..j]) + (if Complete(m[j]) then [] else [m[j]])
  {
    assert m[..j + 1][..j] == m[..j];
  }

  /** Number of rows the scan removes. */
  function Removed(m: Map): nat
  {
    |m| - |Incomplete(m)|
  }

  /** The map after `check_lines`: the incomplete rows at the bottom, in their
      order, and as many empty rows on top as it takes to get back to 16. */
  function Cleared(m: Map): Map
    requires |m| == Height
  {
    EmptyRows(Height - |Incomplete(m)|) + Incomplete(m)
  }

  /** Filtering distributes over concatenation: the scan treats each row on
      its own and keeps the survivors' relative order. */
  lemma {:induction false} IncompleteAppend(a: Map, b: Map)
    ensures Incomplete(a + b) == Incomplete(a) + Incomplete(b)
  {
    if b == [] {
      assert a + b == a;
    } else {
      var b' := b[..|b| - 1];
      assert (a + b)[..|a + b| - 1] == a + b';
      IncompleteAppend(a, b');
    }
  }

  /** No complete row is left standing in the map. */
  ghost predicate NoCompleteRow(m: Map)
  {
    forall i :: 0 <= i < |m| ==> !Complete(m[i])
  }

  /** A map with no complete row is left as it is by the scan. */
  lemma {:induction false} IncompleteOfIncomplete(m: Map)
    requires NoCompleteRow(m)
    ensures Incomplete(m) == m
  {
    if m != [] {
      var init := m[..|m| - 1];
      assert forall i :: 0 <= i < |init| ==> init[i] == m[i];
      IncompleteOfIncomplete(init);
      assert !Complete(m[|m| - 1]);
      assert m == init + [m[|m| - 1]];
    }
  }

  /** Line clearing restores a 16x10 map with no complete row left, the
      removed count of empty rows on top and the incomplete rows below. */
  lemma ClearedWellFormed(m: Map)
    requires WellFormed(m)
    ensures WellFormed(Cleared(m))
    ensures NoCompleteRow(Cleared(m))
    ensures Cleared(m)[..Removed(m)] == EmptyRows(Removed(m))
    ensures Cleared(m)[Removed(m)..] == Incomplete(m)
  {
    var k := Incomplete(m);
    var r := Cleared(m);
    IncompleteRows(m);
    forall i | 0 <= i < Height
      ensures |r[i]| == Width && !Complete(r[i])
    {
      if i < Height - |k| {
        assert r[i] == EmptyRow() && r[i][0] == 0;
      } else {
        assert r[i] == k[i - (Height - |k|)];
      }
    }
  }

  /** Clearing a map whose only complete row is row `k` removes exactly that
      row and moves every row above it down by one. */
  lemma ClearOneRow(m: Map, k: nat)
    requires |m| == Height && k < |m| && Complete(m[k])
    requires forall i :: 0 <= i < |m| && i != k ==> !Complete(m[i])
    ensures Removed(m) == 1
    ensures Cleared(m) == [EmptyRow()] + m[..k] + m[k + 1..]
  {
    var above, below: Map := m[..k], m[k + 1..];
    assert Incomplete(m) == above + below by {
      var single: Map := [m[k]];
      assert m == above + single + below;
      assert Incomplete(above) == above by {
        IncompleteOfIncomplete(above);
      }
      assert Incomplete(below) == below by {
        IncompleteOfIncomplete(below);
      }
      assert Incomplete(single) == [] by {
        assert single[..0] == [];
      }
      IncompleteAppend(above + single, below);
      IncompleteAppend(above, single);
    }
    assert EmptyRows(1) == [EmptyRow()];
    assert Cleared(m) == [EmptyRow()] + (above + below);
  }

  // ---------------------------------------------------------------- the scan with usize arithmetic

  /** `check_lines`'s scan as written, with `y: usize` under Rust's overflow
      checks: `None` where `y -= 1` would go below zero. After a removal the
      index steps back and forward again, so it stays on the same row. */
  function ScanChecked(g: Map, y: nat): Option<Map>
    decreases |g| - y
  {
    if y >= |g| then Some(g)
    else if Complete(g[y]) then
      if y == 0 then None else ScanChecked(g[..y] + g[y + 1..], y)
    else ScanChecked(g, y + 1)
  }

  /** A complete top row makes the checked scan fail on its first step. */
  lemma ScanCheckedRowZero(m: Map)
    requires |m| > 0 && Complete(m[0])
    ensures ScanChecked(m, 0) == None
  {
  }

  /** With an incomplete top row the index never has to go below zero, and
      the checked scan removes exactly the complete rows. */
  lemma ScanCheckedAgrees(m: Map)
    requires |m| > 0 ==> !Complete(m[0])
    ensures ScanChecked(m, 0) == Some(Incomplete(m))
  {
    if |m| > 0 {
      IncompleteSnoc(m, 0);
      assert m[..0] == [];
      assert m == m[..1] + m[1..];
      assert Scanned(m, 1, m, 1);
      ScanCheckedFrom(m, 1, m, 1);
      assert ScanChecked(m, 0) == ScanChecked(m, 1);
    }
  }

  /** From any point of the scan with the index at 1 or more, the checked
      scan never fails and ends with exactly the incomplete rows. */
  lemma {:induction false} ScanCheckedFrom(m0: Map, j: nat, g: Map, y: int)
    requires Scanned(m0, j, g, y) && 1 <= y
    ensures ScanChecked(g, y) == Some(Incomplete(m0))
    decreases |m0| - j
  {
    if y >= |g| {
      ScanDone(m0, j, g, y);
    } else {
      ScanNext(m0, j, g, y);
      if Complete(g[y]) {
        ScanCheckedFrom(m0, j + 1, g[..y] + g[y + 1..], y);
      } else {
        ScanCheckedFrom(m0, j + 1, g, y + 1);
      }
    }
  }

  /** A map whose top row is full: the checked scan fails, while the
      intended result drops that row. */
  lemma RowZeroUnderflow()
    ensures var m := [[1, 1, 1, 1, 1, 1, 1, 1, 1, 1]] + EmptyRows(Height - 1);
            WellFormed(m) && ScanChecked(m, 0) == None && Incomplete(m) == EmptyRows(Height - 1)
  {
    var full: Row := [1, 1, 1, 1, 1, 1, 1, 1, 1, 1];
    var m := [full] + EmptyRows(Height - 1);
    assert Complete(m[0]);
    ScanCheckedRowZero(m);
    assert !Complete(EmptyRow()) by {
      assert EmptyRow()[0] == 0;
    }
    IncompleteOfIncomplete(EmptyRows(Height - 1));
    IncompleteAppend([full], EmptyRows(Height - 1));
    assert [full][..0] == [];
  }
}
