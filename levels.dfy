/** The level tables of src/tetris.rs and the rules that use them: the line
    threshold of `increase_line`, the gravity interval of `is_time_over`, and
    the score of a line clear. A table lookup the source does at a level
    outside 1..10 indexes past the end of the Rust array and panics; here it
    gives `None`. */
module Levels {
  import opened Wrappers

  /** Gravity interval in milliseconds, indexed by level - 1. */
  const LevelTimes: seq<nat> := [1000, 850, 700, 600, 500, 400, 300, 250, 221, 190]
  /** Cumulative lines a level may reach before the next level, indexed by level - 1. */
  const LevelLines: seq<nat> := [5, 40, 60, 80, 100, 120, 140, 160, 180, 200]

  /** `LEVEL_TIMES[level - 1]`; `None` where that index panics. */
  function LevelTime(level: nat): (r: Option<nat>)
    ensures r.Some? <==> 1 <= level <= |LevelTimes|
    ensures r.Some? ==> r.value == LevelTimes[level - 1]
  {
    if 1 <= level <= |LevelTimes| then Some(LevelTimes[level - 1]) else None
  }

  /** `LEVEL_LINES[level - 1]`; `None` where that index panics. */
  function LevelThreshold(level: nat): (r: Option<nat>)
    ensures r.Some? <==> 1 <= level <= |LevelLines|
    ensures r.Some? ==> r.value == LevelLines[level - 1]
  {
    if 1 <= level <= |LevelLines| then Some(LevelLines[level - 1]) else None
  }

  /** The level tables: gravity gets strictly faster and the line
      thresholds strictly grow, level by level. */
  lemma TablesMonotone()
    ensures forall i, j :: 0 <= i < j < |LevelTimes| ==> LevelTimes[j] < LevelTimes[i]
    ensures forall i, j :: 0 <= i < j < |LevelLines| ==> LevelLines[i] < LevelLines[j]
  {
  }

  /** Level and cumulative line count. */
  datatype Progress = Progress(level: nat, lines: nat)

  /** One `increase_line`: the line count goes up by one and the level by one
      exactly when the new count exceeds the current level's threshold;
      `None` when the threshold lookup panics. */
  function IncreaseLine(p: Progress): (r: Option<Progress>)
    ensures r.Some? <==> 1 <= p.level <= |LevelLines|
    ensures r.Some? ==> r.value.lines == p.lines + 1
    ensures r.Some? ==> r.value.level == if p.lines + 1 > LevelLines[p.level - 1] then p.level + 1 else p.level
  {
    match LevelThreshold(p.level)
    case None => None
    case Some(t) => Some(Progress(if p.lines + 1 > t then p.level + 1 else p.level, p.lines + 1))
  }

  /** `n` calls of `increase_line` in a row, stopping at the first panic. */
  function IncreaseLines(p: Progress, n: nat): Option<Progress>
  {
    if n == 0 then Some(p)
    else match IncreaseLines(p, n - 1)
      case None => None
      case Some(q) => IncreaseLine(q)
  }

  /** After `n` line increases the count is up by exactly `n`, and the level
      by at most `n` and never down. */
  lemma {:induction false} IncreaseLinesBounds(p: Progress, n: nat)
    requires IncreaseLines(p, n).Some?
    ensures IncreaseLines(p, n).value.lines == p.lines + n
    ensures p.level <= IncreaseLines(p, n).value.level <= p.level + n
  {
    if n > 0 {
      IncreaseLinesBounds(p, n - 1);
    }
  }

  /** Once a lookup has panicked, further increases do not undo it. */
  lemma {:induction false} IncreaseLinesStuck(p: Progress, n: nat, n': nat)
    requires n <= n' && IncreaseLines(p, n).None?
    ensures IncreaseLines(p, n').None?
    decreases n' - n
  {
    if n < n' {
      IncreaseLinesStuck(p, n + 1, n');
    }
  }

  /** No lookup panics while the level cannot leave the table: starting at a
      level in 1..10 with at most 11 - level increases. */
  lemma {:induction false} IncreaseLinesInTable(p: Progress, n: nat)
    requires 1 <= p.level && p.level + n <= |LevelLines| + 1
    ensures IncreaseLines(p, n).Some?
  {
    if n > 0 {
      IncreaseLinesInTable(p, n - 1);
      IncreaseLinesBounds(p, n - 1);
    }
  }

  /** The table overflow in the source: at level 10 with 200 lines, a double
      clear raises the level to 11 on the first line and the second line's
      lookup `LEVEL_LINES[10]` panics. */
  lemma LevelElevenPanics()
    ensures IncreaseLines(Progress(10, 200), 1) == Some(Progress(11, 201))
    ensures IncreaseLines(Progress(10, 200), 2) == None
    ensures LevelTime(11) == None
  {
    assert IncreaseLines(Progress(10, 200), 1) == IncreaseLine(Progress(10, 200));
  }

  /** Points for one pass of line clearing: the level (read before any
      level-up) per removed row, plus 1000 for "a tetris" of exactly four. */
  function ClearScore(level: nat, removed: nat): (r: nat)
    ensures removed == 4 ==> r == 4 * level + 1000
    ensures removed != 4 ==> r == level * removed
  {
    level * removed + (if removed == 4 then 1000 else 0)
  }

  /** `is_time_over`: `elapsed` is the milliseconds since the timer was last
      reset, or `None` when the clock reports an error (then gravity does not
      fire). `None` as the result is the panic of `LEVEL_TIMES[level - 1]`. */
  function TimeOver(level: nat, elapsed: Option<nat>): (r: Option<bool>)
    ensures elapsed.None? ==> r == Some(false)
    ensures elapsed.Some? ==> (r.Some? <==> 1 <= level <= |LevelTimes|)
    ensures elapsed.Some? && r.Some? ==> (r.value <==> elapsed.value > LevelTimes[level - 1])
  {
    match elapsed
    case None => Some(false)
    case Some(millis) =>
      match LevelTime(level)
      case None => None
      case Some(t) => Some(millis > t)
  }
}
