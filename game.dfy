/** The game state machine of src/tetris.rs: the `Tetris` struct with its
    locking, line clearing and level progression, and the free functions that
    drive it each frame (`update_tetris`, `handle_events`, `falling`). The SDL
    event pump becomes a sequence of intents, the clock an elapsed time in
    milliseconds, and `rand::random` two supplied draws. */
module Game {
  import opened Wrappers
  import opened Catalog
  import opened Grid
  import opened Levels
  import opened Piece

  /** The key events `handle_events` reacts to: window close or Escape, and
      the arrow keys and Space. */
  datatype Intent = Quit | Down | Left | Right | Up | Space

  /** Everything of the game besides the falling piece. */
  datatype GameState = GameState(grid: Map, level: nat, score: nat, lines: nat)

  /** A piece about to be locked: its current rotation state and anchor. */
  datatype Placed = Placed(shape: Shape, x: int, y: nat)

  // ---------------------------------------------------------------- locking and clearing

  /** The state after `check_lines`, or `None` if one of its `increase_line`
      calls panics on the level table. One line is counted per empty row
      inserted on top. */
  function AfterClear(g: GameState): Option<GameState>
    requires |g.grid| == Height
  {
    match IncreaseLines(Progress(g.level, g.lines), Height - |Incomplete(g.grid)|)
    case None => None
    case Some(p) => Some(GameState(Cleared(g.grid), p.level, g.score + ClearScore(g.level, Removed(g.grid)), p.lines))
  }

  /** The state after `make_permanent`: the piece (if any) is written into
      the map and scores the level once, then the lines are cleared. */
  function AfterLock(g: GameState, piece: Option<Placed>): Option<GameState>
    requires |g.grid| == Height
  {
    match piece
    case None => AfterClear(g)
    case Some(p) => AfterClear(g.(grid := Lock(g.grid, p.shape, p.x, p.y), score := g.score + g.level))
  }


  /** Only the four rows a piece covers can change when it locks, so a lock
      into a map with no complete row removes at most four rows. */
  lemma LockRemovesAtMostFour(m: Map, s: Shape, x: int, y: nat)
    requires |m| == Height && NoCompleteRow(m)
    ensures Removed(Lock(m, s, x, y)) <= 4
  {
    var l := Lock(m, s, x, y);
    var lo := if y < |l| then y else |l|;
    var hi := if y + 4 < |l| then y + 4 else |l|;
    var top, mid, bottom := l[..lo], l[lo..hi], l[hi..];
    assert l == top + mid + bottom;
    assert Incomplete(top) == top by {
      assert top == m[..lo] by {
        forall i | 0 <= i < |top| ensures top[i] == m[i] {
          assert top[i] == l[i];
        }
      }
      IncompleteOfIncomplete(top);
    }
    assert Incomplete(bottom) == bottom by {
      assert bottom == m[hi..] by {
        forall i | 0 <= i < |bottom| ensures bottom[i] == m[hi + i] {
          assert bottom[i] == l[hi + i];
        }
      }
      IncompleteOfIncomplete(bottom);
    }
    assert Incomplete(l) == top + Incomplete(mid) + bottom by {
      IncompleteAppend(top + mid, bottom);
      IncompleteAppend(top, mid);
    }
  }

  /** What a lock promises: from a 16x10 map with no complete row, a fitting
      piece leaves a 16x10 map with no complete row, at most four rows
      removed, the score up by the pre-lock level once plus the level per
      removed row plus 1000 for exactly four, and the line count up by the
      number of removed rows; the level rises by at most that many. */
  lemma {:induction false} AfterLockSpec(g: GameState, p: Placed)
    requires WellFormed(g.grid) && NoCompleteRow(g.grid) && 1 <= g.level
    requires Fits(g.grid, p.shape, p.x, p.y)
    requires AfterLock(g, Some(p)).Some?
    ensures var r := AfterLock(g, Some(p)).value;
            var removed := Removed(Lock(g.grid, p.shape, p.x, p.y));
            WellFormed(r.grid) && NoCompleteRow(r.grid) && removed <= 4 &&
            r.grid == Cleared(Lock(g.grid, p.shape, p.x, p.y)) &&
            r.score == g.score + g.level + (if removed == 4 then 4 * g.level + 1000 else g.level * removed) &&
            r.lines == g.lines + removed &&
            g.level <= r.level <= g.level + removed
  {
    var l := Lock(g.grid, p.shape, p.x, p.y);
    assert WellFormed(l);
    ClearedWellFormed(l);
    LockRemovesAtMostFour(g.grid, p.shape, p.x, p.y);
    IncreaseLinesBounds(Progress(g.level, g.lines + 0), Height - |Incomplete(l)|);
  }

  /** The draw of `create_new_tetrimino`: the first draw modulo 7, unless it
      repeats the previous kind, in which case the second draw modulo 7. The
      result repeats the previous kind only if both draws did. */
  function DrawKind(prev: nat, draw1: nat, draw2: nat): (r: nat)
    ensures r < 7
    ensures r == prev ==> draw1 % 7 == prev && draw2 % 7 == prev
    ensures draw1 % 7 != prev ==> r == draw1 % 7
    ensures draw1 % 7 == prev ==> r == draw2 % 7
  {
    if draw1 % 7 == prev then draw2 % 7 else draw1 % 7
  }

  // ---------------------------------------------------------------- intents

  /** What `handle_events` has accumulated while reading events: the piece as
      rotate and hard drop left it, the requested move `tmp_x`/`tmp_y`
      (captured from the piece before the first event), whether the piece
      must lock, whether Quit was seen, and whether the timer was reset. */
  datatype Batch = Batch(pose: Pose, tmpX: int, tmpY: nat, drop: bool, quit: bool, timerReset: bool)

  function Start(p: Pose): Batch
  {
    Batch(p, p.x, p.y, false, false, false)
  }

  /** The effect of one event other than Quit. */
  function Step(m: Map, states: seq<Shape>, b: Batch, e: Intent): (r: Batch)
    requires ValidStates(states) && b.pose.state < |states|
    ensures r.pose.state < |states|
  {
    match e
    case Quit => b.(quit := true)
    case Down => b.(tmpY := b.tmpY + 1, timerReset := true)
    case Right => b.(tmpX := b.tmpX + 1)
    case Left => b.(tmpX := b.tmpX - 1)
    case Up => b.(pose := Rotated(m, states, b.pose))
    case Space => b.(pose := b.pose.(y := Dropped(m, states[b.pose.state], b.pose.x, b.pose.y)), drop := true)
  }

  /** The event loop of `handle_events`: events in order, Quit ends the loop. */
  function Run(m: Map, states: seq<Shape>, es: seq<Intent>, b: Batch): (r: Batch)
    requires ValidStates(states) && b.pose.state < |states|
    ensures r.pose.state < |states|
    decreases |es|
  {
    if es == [] then b
    else if es[0] == Quit then b.(quit := true)
    else Run(m, states, es[1..], Step(m, states, b, es[0]))
  }

  /** Where the piece ends up after the loop, and whether it locks: a hard
      drop locks; otherwise the accumulated move is tried once, and the piece
      locks only if that fails and the requested row differs from its own. */
  datatype Settled = Settled(pose: Pose, lock: bool)

  function Settle(m: Map, states: seq<Shape>, b: Batch): Settled
    requires b.pose.state < |states|
  {
    if b.drop then Settled(b.pose, true)
    else if Fits(m, states[b.pose.state], b.tmpX, b.tmpY) then Settled(Pose(b.pose.state, b.tmpX, b.tmpY), false)
    else Settled(b.pose, b.tmpY != b.pose.y)
  }

  /** The piece still fits after any batch of events. */
  lemma {:induction false} RunKeepsFit(m: Map, states: seq<Shape>, es: seq<Intent>, b: Batch)
    requires ValidStates(states) && b.pose.state < |states|
    requires Fits(m, states[b.pose.state], b.pose.x, b.pose.y)
    ensures var r := Settle(m, states, Run(m, states, es, b)).pose;
            r.state < |states| && Fits(m, states[r.state], r.x, r.y)
    decreases |es|
  {
    if es != [] && es[0] != Quit {
      var b' := Step(m, states, b, es[0]);
      if es[0] == Up {
        RotatedFits(m, states, b.pose);
      }
      assert Fits(m, states[b'.pose.state], b'.pose.x, b'.pose.y);
      RunKeepsFit(m, states, es[1..], b');
    }
  }

  /** A hard drop before any Quit always locks the piece, whatever follows. */
  lemma {:induction false} HardDropLocks(m: Map, states: seq<Shape>, es: seq<Intent>, b: Batch, i: nat)
    requires ValidStates(states) && b.pose.state < |states|
    requires i < |es| && es[i] == Space && forall j :: 0 <= j < i ==> es[j] != Quit
    ensures Run(m, states, es, b).drop && Settle(m, states, Run(m, states, es, b)).lock
    decreases |es|
  {
    if i > 0 {
      HardDropLocks(m, states, es[1..], Step(m, states, b, es[0]), i - 1);
    } else {
      DropStays(m, states, es[1..], Step(m, states, b, es[0]));
    }
  }

  lemma {:induction false} DropStays(m: Map, states: seq<Shape>, es: seq<Intent>, b: Batch)
    requires ValidStates(states) && b.pose.state < |states| && b.drop
    ensures Run(m, states, es, b).drop
    decreases |es|
  {
    if es != [] && es[0] != Quit {
      DropStays(m, states, es[1..], Step(m, states, b, es[0]));
    }
  }

  /** A batch with neither Down nor Space never locks the piece: without a
      row change the failed move is not taken for a landing. */
  lemma {:induction false} SidewaysNeverLocks(m: Map, states: seq<Shape>, es: seq<Intent>, b: Batch)
    requires ValidStates(states) && b.pose.state < |states|
    requires !b.drop && b.tmpY == b.pose.y
    requires forall j :: 0 <= j < |es| ==> es[j] != Down && es[j] != Space
    ensures !Settle(m, states, Run(m, states, es, b)).lock
    decreases |es|
  {
    if es != [] && es[0] != Quit {
      SidewaysNeverLocks(m, states, es[1..], Step(m, states, b, es[0]));
    }
  }

  /** Events after the first Quit are never looked at. */
  lemma {:induction false} QuitEndsBatch(m: Map, states: seq<Shape>, es: seq<Intent>, b: Batch, i: nat)
    requires ValidStates(states) && b.pose.state < |states|
    requires i < |es| && es[i] == Quit && forall j :: 0 <= j < i ==> es[j] != Quit
    ensures Run(m, states, es, b) == Run(m, states, es[..i], b).(quit := true)
    decreases |es|
  {
    if i > 0 {
      assert es[..i][1..] == es[1..][..i - 1];
      QuitEndsBatch(m, states, es[1..], Step(m, states, b, es[0]), i - 1);
    }
  }

  // ---------------------------------------------------------------- the game

  class Tetris {
    var gameMap: Map
    var currentLevel: nat
    var score: nat
    var nbLines: nat
    var currentPiece: Tetrimino?
    /** The `static mut PREV` of `create_new_tetrimino`: the last kind drawn. */
    var prev: nat

    /** Between operations the map is 16x10 with no complete row, the level
        is at least 1, and the falling piece, if any, fits. */
    ghost predicate Valid()
      reads this, currentPiece
    {
      WellFormed(gameMap) && NoCompleteRow(gameMap) && 1 <= currentLevel && prev <= 7 &&
      (currentPiece != null ==> currentPiece.Valid() && currentPiece.FitsIn(gameMap))
    }

    function State(): GameState
      reads this
    {
      GameState(gameMap, currentLevel, score, nbLines)
    }

    /** The falling piece as `make_permanent` would lock it. */
    ghost function FallingPiece(): Option<Placed>
      reads this, currentPiece
      requires currentPiece != null ==> currentPiece.Valid()
    {
      if currentPiece == null then None
      else Some(Placed(currentPiece.states[currentPiece.currentState], currentPiece.x, currentPiece.y))
    }

    /** `Tetris::new`: an empty 16x10 map, level 1, no score, no lines, no piece. */
    constructor ()
      ensures Valid()
      ensures State() == GameState(EmptyMap(), 1, 0, 0) && currentPiece == null && prev == 7
    {
      var m: Map := [];
      for i := 0 to 16
        invariant |m| == i && forall k :: 0 <= k < i ==> m[k] == EmptyRow()
      {
        m := m + [EmptyRow()];
      }
      gameMap := m;
      currentLevel := 1;
      score := 0;
      nbLines := 0;
      currentPiece := null;
      prev := 7;
      assert EmptyRow()[0] == 0;
    }

    /** `create_new_tetrimino`, with the two `rand::random::<u8>()` results as
        parameters. */
    method CreateNewTetrimino(draw1: nat, draw2: nat) returns (piece: Tetrimino)
      requires draw1 < 256 && draw2 < 256
      modifies this`prev
      ensures prev == DrawKind(old(prev), draw1, draw2)
      ensures fresh(piece) && piece.Valid() && piece.states == Shapes(KindOf(prev))
      ensures piece.Placement() == Pose(0, SpawnX(KindOf(prev)), 0)
    {
      var randNb := draw1 % 7;
      if prev == randNb {
        randNb := draw2 % 7;
      }
      prev := randNb;
      piece := new Tetrimino(KindOf(randNb));
    }

    method UpdateScore(toAdd: nat)
      modifies this`score
      ensures score == old(score) + toAdd
    {
      score := score + toAdd;
    }

    method IncreaseLevel()
      modifies this`currentLevel
      ensures currentLevel == old(currentLevel) + 1
    {
      currentLevel := currentLevel + 1;
    }

    /** `increase_line`; `ok` is false where `LEVEL_LINES[current_level - 1]`
        is out of bounds and the source panics, with the count already raised. */
    method IncreaseLine() returns (ok: bool)
      modifies this`nbLines, this`currentLevel
      ensures nbLines == old(nbLines) + 1
      ensures ok == Levels.IncreaseLine(Progress(old(currentLevel), old(nbLines))).Some?
      ensures ok ==> Some(Progress(currentLevel, nbLines)) == Levels.IncreaseLine(Progress(old(currentLevel), old(nbLines)))
      ensures !ok ==> currentLevel == old(currentLevel)
    {
      nbLines := nbLines + 1;
      var threshold := LevelThreshold(currentLevel);
      if threshold.None? {
        return false;
      }
      if nbLines > threshold.value {
        IncreaseLevel();
      }
      ok := true;
    }

    /** The scan of `check_lines`: drops every complete row, stepping the
        index back after a removal, and adds the level to the bonus per row. */
    method RemoveCompleteRows() returns (removeNum: nat, scoreAdd: nat)
      modifies this`gameMap
      ensures gameMap == Incomplete(old(gameMap))
      ensures removeNum == Removed(old(gameMap))
      ensures scoreAdd == currentLevel * removeNum
    {
      ghost var m0 := gameMap;
      ghost var j := 0;
      removeNum := 0;
      var y: int := 0;
      scoreAdd := 0;
      assert m0[..0] == [] && m0[0..] == m0;
      while y < |gameMap|
        invariant Scanned(m0, j, gameMap, y) && removeNum == j - y
        invariant scoreAdd == currentLevel * removeNum
        decreases |gameMap| - y
      {
        ScanNext(m0, j, gameMap, y);
        var complete := RowComplete(gameMap[y]);
        if complete {
          MulSucc(currentLevel, removeNum);
          scoreAdd := scoreAdd + currentLevel;
          gameMap := gameMap[..y] + gameMap[y + 1..];
          removeNum := removeNum + 1;
          y := y - 1;
        }
        y := y + 1;
        j := j + 1;
      }
      ScanDone(m0, j, gameMap, y);
    }

    /** `check_lines`: removes every complete row, scores them, and inserts
        empty rows on top, counting a line for each, until there are 16 rows. */
    method CheckLines() returns (ok: bool)
      requires WellFormed(gameMap)
      modifies this`gameMap, this`score, this`nbLines, this`currentLevel
      ensures ok == AfterClear(old(State())).Some?
      ensures ok ==> State() == AfterClear(old(State())).value
    {
      ghost var m0 := gameMap;
      var removeNum, scoreAdd := RemoveCompleteRows();
      if removeNum == 4 {
        scoreAdd := scoreAdd + 1000;
      }
      UpdateScore(scoreAdd);
      IncompleteRows(m0);
      ok := RefillRows();
      if ok {
        assert gameMap == Cleared(m0);
        ghost var after := GameState(gameMap, currentLevel, score, nbLines);
        assert AfterClear(old(State())) == Some(after);
      }
    }

    /** The refill of `check_lines`: pushes empty rows on top, each with one
        `increase_line`, until the map is 16 rows high again. */
    method RefillRows() returns (ok: bool)
      requires |gameMap| <= Height
      modifies this`gameMap, this`nbLines, this`currentLevel
      ensures ok == IncreaseLines(Progress(old(currentLevel), old(nbLines)), Height - |old(gameMap)|).Some?
      ensures ok ==> gameMap == EmptyRows(Height - |old(gameMap)|) + old(gameMap)
      ensures ok ==> Some(Progress(currentLevel, nbLines)) == IncreaseLines(Progress(old(currentLevel), old(nbLines)), Height - |old(gameMap)|)
    {
      ghost var kept := gameMap;
      while |gameMap| < Height
        invariant |kept| <= |gameMap| <= Height
        invariant gameMap == EmptyRows(|gameMap| - |kept|) + kept
        invariant IncreaseLines(Progress(old(currentLevel), old(nbLines)), |gameMap| - |kept|) == Some(Progress(currentLevel, nbLines))
        decreases Height - |gameMap|
      {
        ghost var n := |gameMap| - |kept|;
        var lineOk := IncreaseLine();
        if !lineOk {
          IncreaseLinesStuck(Progress(old(currentLevel), old(nbLines)), n + 1, Height - |kept|);
          return false;
        }
        EmptyRowsPush(n, kept);
        gameMap := [EmptyRow()] + gameMap;
      }
      return true;
    }

    /** The two loops of `make_permanent`: every non-zero cell of the state
        whose row and column lie inside the map is copied into the map. */
    method WritePiece(s: Shape, px: int, py: nat)
      requires Fits(gameMap, s, px, py)
      modifies this`gameMap
      ensures gameMap == Lock(old(gameMap), s, px, py)
    {
      ghost var m0 := gameMap;
      var shiftY := 0;
      while shiftY < 4 && py + shiftY < |gameMap|
        invariant 0 <= shiftY <= 4
        invariant |gameMap| == |m0| && forall i :: 0 <= i < |m0| ==> |gameMap[i]| == |m0[i]|
        invariant forall i, j :: 0 <= i < |m0| && 0 <= j < |m0[i]| ==>
                    gameMap[i][j] == if i < py + shiftY then Overlay(s, px, py, i, j, m0[i][j]) else m0[i][j]
      {
        var row := py + shiftY;
        var shiftX := 0;
        while shiftX < 4 && px + shiftX < |gameMap[row]|
          invariant 0 <= shiftX <= 4
          invariant |gameMap| == |m0| && forall i :: 0 <= i < |m0| ==> |gameMap[i]| == |m0[i]|
          invariant forall i, j :: 0 <= i < |m0| && 0 <= j < |m0[i]| ==>
                      gameMap[i][j] == if i < row || (i == row && j < px + shiftX) then Overlay(s, px, py, i, j, m0[i][j]) else m0[i][j]
        {
          if s[shiftY][shiftX] != 0 {
            assert CellFits(m0, s, px, py, shiftY, shiftX);
            // `x as usize`: the piece fits, so the column is not negative
            var col := px + shiftX;
            gameMap := gameMap[row := gameMap[row][col := s[shiftY][shiftX]]];
          }
          shiftX := shiftX + 1;
        }
        shiftY := shiftY + 1;
      }
      forall i | 0 <= i < |m0| ensures gameMap[i] == Lock(m0, s, px, py)[i] {
      }
    }

    /** `make_permanent`: writes the falling piece into the map, adds the
        level to the score, clears lines and drops the piece. */
    method MakePermanent() returns (ok: bool)
      requires Valid()
      modifies this
      ensures prev == old(prev)
      ensures ok == AfterLock(old(State()), old(FallingPiece())).Some?
      ensures ok ==> Valid() && currentPiece == null && State() == AfterLock(old(State()), old(FallingPiece())).value
    {
      var toAdd := 0;
      var piece := currentPiece;
      if piece != null {
        var s := piece.states[piece.currentState];
        var px, py := piece.x, piece.y;
        ghost var m0 := gameMap;
        assert Fits(m0, s, px, py);
        WritePiece(s, px, py);
        toAdd := toAdd + currentLevel;
        AfterLockSpecIfOk(State().(grid := m0), Placed(s, px, py));
      }
      UpdateScore(toAdd);
      ok := CheckLines();
      if !ok {
        return;
      }
      currentPiece := null;
      if piece == null {
        ClearedWellFormed(old(gameMap));
        IncreaseLinesBounds(Progress(old(currentLevel), old(nbLines)), Height - |Incomplete(old(gameMap))|);
      }
    }

    /** `handle_events` on one batch of events. Without a falling piece no
        event is read. Otherwise the events are applied in order up to the
        first Quit, the requested move is tried once unless a hard drop
        happened, and the piece locks as `Settle` says; `timerReset` is the
        `*timer = SystemTime::now()` of Down and of a lock, and `ok` is false
        where locking panics on the level table. */
    method HandleEvents(events: seq<Intent>) returns (locked: bool, quit: bool, timerReset: bool, ok: bool)
      requires Valid()
      modifies this, currentPiece
      ensures prev == old(prev)
      ensures old(currentPiece) == null ==>
                !locked && !quit && !timerReset && ok && currentPiece == null && State() == old(State())
      ensures old(currentPiece) != null ==>
                var b := Run(old(gameMap), old(currentPiece).states, events, Start(old(currentPiece.Placement())));
                var st := Settle(old(gameMap), old(currentPiece).states, b);
                quit == b.quit && locked == st.lock && timerReset == (b.timerReset || st.lock) &&
                (!st.lock ==> ok && Valid() && currentPiece == old(currentPiece) &&
                              currentPiece.Placement() == st.pose && State() == old(State())) &&
                (st.lock ==> var g := AfterLock(old(State()), Some(Placed(old(currentPiece).states[st.pose.state], st.pose.x, st.pose.y)));
                             ok == g.Some? && (ok ==> Valid() && currentPiece == null && State() == g.value))
    {
      var piece := currentPiece;
      if piece == null {
        return false, false, false, true;
      }
      ghost var m := gameMap;
      ghost var states := piece.states;
      ghost var target := Run(m, states, events, Start(piece.Placement()));
      RunKeepsFit(m, states, events, Start(piece.Placement()));
      var tmpX, tmpY := piece.x, piece.y;
      var drop := false;
      quit, timerReset := false, false;
      var i := 0;
      while i < |events|
        invariant 0 <= i <= |events| && piece.Valid() && !quit
        invariant Run(m, states, events[i..], Batch(piece.Placement(), tmpX, tmpY, drop, false, timerReset)) == target
        modifies piece
      {
        var e := events[i];
        ghost var before := Batch(piece.Placement(), tmpX, tmpY, drop, false, timerReset);
        assert events[i..][0] == e && events[i..][1..] == events[i + 1..];
        if e == Quit {
          quit := true;
          break;
        } else if e == Down {
          timerReset := true;
          tmpY := tmpY + 1;
        } else if e == Right {
          tmpX := tmpX + 1;
        } else if e == Left {
          tmpX := tmpX - 1;
        } else if e == Up {
          piece.Rotate(gameMap);
        } else {
          HardDrop(gameMap, piece);
          drop := true;
        }
        assert Batch(piece.Placement(), tmpX, tmpY, drop, false, timerReset) == Step(m, states, before, e);
        i := i + 1;
      }
      ghost var b := Batch(piece.Placement(), tmpX, tmpY, drop, quit, timerReset);
      assert b == target;
      if !drop {
        var moved := piece.ChangePosition(gameMap, tmpX, tmpY);
        if !moved && tmpY != piece.y {
          drop := true;
        }
      }
      locked := drop;
      if locked {
        ok := MakePermanent();
        timerReset := true;
      } else {
        ok := true;
      }
    }

    /** `falling`, with the time since the timer was last reset as
        `elapsed` (`None` when the clock errs). When gravity fires, the piece
        moves one row down, or locks if it cannot; the timer is reset either
        way. `ok` is false where a level-table lookup panics. */
    method Fall(elapsed: Option<nat>) returns (timerReset: bool, ok: bool)
      requires Valid()
      modifies this, currentPiece
      ensures prev == old(prev)
      ensures TimeOver(old(currentLevel), elapsed).None? ==>
                !ok && currentPiece == old(currentPiece) && State() == old(State())
      ensures TimeOver(old(currentLevel), elapsed) == Some(false) ==>
                ok && !timerReset && Valid() && currentPiece == old(currentPiece) && State() == old(State()) &&
                (currentPiece != null ==> currentPiece.Placement() == old(currentPiece.Placement()))
      ensures TimeOver(old(currentLevel), elapsed) == Some(true) && old(currentPiece) == null ==>
                ok && timerReset && currentPiece == null && State() == old(State())
      ensures TimeOver(old(currentLevel), elapsed) == Some(true) && old(currentPiece) != null &&
              old(Fits(gameMap, currentPiece.states[currentPiece.currentState], currentPiece.x, currentPiece.y + 1)) ==>
                ok && timerReset && Valid() && currentPiece == old(currentPiece) && State() == old(State()) &&
                currentPiece.Placement() == old(currentPiece.Placement()).(y := old(currentPiece.y) + 1)
      ensures TimeOver(old(currentLevel), elapsed) == Some(true) && old(currentPiece) != null &&
              !old(Fits(gameMap, currentPiece.states[currentPiece.currentState], currentPiece.x, currentPiece.y + 1)) ==>
                ok == AfterLock(old(State()), old(FallingPiece())).Some? && timerReset == ok &&
                (ok ==> Valid() && currentPiece == null && State() == AfterLock(old(State()), old(FallingPiece())).value)
    {
      timerReset := false;
      var over := TimeOver(currentLevel, elapsed);
      if over.None? {
        return timerReset, false;
      }
      ok := true;
      if over.value {
        var makePermanent := false;
        var piece := currentPiece;
        if piece != null {
          var x, y := piece.x, piece.y + 1;
          var moved := piece.ChangePosition(gameMap, x, y);
          makePermanent := !moved;
        }
        if makePermanent {
          ok := MakePermanent();
          if !ok {
            return;
          }
        }
        timerReset := true;
      }
    }

    /** `update_tetris`, with the two random draws of `create_new_tetrimino`
        as parameters. With a falling piece nothing happens. Otherwise a new
        piece is drawn; the game goes on exactly when it fits at its spawn
        position, and only then becomes the falling piece. The report printed
        at game over is not modelled. */
    method UpdateTetris(draw1: nat, draw2: nat) returns (running: bool)
      requires Valid() && draw1 < 256 && draw2 < 256
      modifies this
      ensures Valid() && State() == old(State())
      ensures old(currentPiece) != null ==> running && currentPiece == old(currentPiece) && prev == old(prev)
      ensures old(currentPiece) == null ==> prev == DrawKind(old(prev), draw1, draw2)
      ensures old(currentPiece) == null ==>
                var k := KindOf(DrawKind(old(prev), draw1, draw2));
                running == Fits(gameMap, Shapes(k)[0], SpawnX(k), 0) &&
                (running ==> currentPiece != null && fresh(currentPiece) && currentPiece.states == Shapes(k) &&
                             currentPiece.Placement() == Pose(0, SpawnX(k), 0)) &&
                (!running ==> currentPiece == null)
    {
      running := true;
      if currentPiece == null {
        var piece := CreateNewTetrimino(draw1, draw2);
        var fits := piece.TestCurrentPosition(gameMap);
        if !fits {
          running := false;
        } else {
          currentPiece := piece;
        }
      }
    }
  }

  /** The Space arm of `handle_events`: the piece moves down one row at a
      time for as long as it fits there. */
  method HardDrop(m: Map, piece: Tetrimino)
    requires piece.Valid()
    modifies piece
    ensures piece.Valid() && piece.currentState == old(piece.currentState) && piece.x == old(piece.x)
    ensures piece.y == Dropped(m, piece.states[piece.currentState], piece.x, old(piece.y))
  {
    ghost var s := piece.states[piece.currentState];
    ghost var y0 := piece.y;
    var x := piece.x;
    var y := piece.y;
    var moved := piece.ChangePosition(m, x, y + 1);
    while moved
      invariant piece.Valid() && piece.currentState == old(piece.currentState)
      invariant piece.Placement() == Pose(piece.currentState, x, if moved then y + 1 else y)
      invariant moved == Fits(m, s, x, y + 1)
      invariant Dropped(m, s, x, y) == Dropped(m, s, x, y0)
      decreases |m| - y
    {
      FitsAboveFloor(m, s, x, y + 1);
      y := y + 1;
      moved := piece.ChangePosition(m, x, y + 1);
    }
  }

  /** The test of `check_lines` for one row: complete when no cell is 0. */
  method RowComplete(row: Row) returns (complete: bool)
    ensures complete == Complete(row)
  {
    complete := true;
    for c := 0 to |row|
      invariant complete && forall k :: 0 <= k < c ==> row[k] != 0
    {
      if row[c] == 0 {
        complete := false;
        break;
      }
    }
  }

  lemma MulSucc(a: nat, b: nat)
    ensures a * (b + 1) == a * b + a
  {
  }

  /** AfterLockSpec whenever the lock does not panic. */
  lemma AfterLockSpecIfOk(g: GameState, p: Placed)
    requires WellFormed(g.grid) && NoCompleteRow(g.grid) && 1 <= g.level
    requires Fits(g.grid, p.shape, p.x, p.y)
    ensures AfterLock(g, Some(p)).Some? ==>
              var r := AfterLock(g, Some(p)).value;
              WellFormed(r.grid) && NoCompleteRow(r.grid) && 1 <= r.level
  {
    if AfterLock(g, Some(p)).Some? {
      AfterLockSpec(g, p);
    }
  }
}
