/** The speed manager (SpeedManager.c): a threshold table maps the cumulative
    number of cleared lines to the automatic fall interval. */
module Speed {
  import opened Config

  datatype SpeedLevel = SpeedLevel(linesThreshold: int, fallIntervalMs: int)

  /** `speed_levels`: from this many lines on, this interval applies. */
  const SPEED_LEVELS: seq<SpeedLevel> := [
    SpeedLevel(0, 400),
    SpeedLevel(2, 370),
    SpeedLevel(5, 330),
    SpeedLevel(10, 270),
    SpeedLevel(15, 220),
    SpeedLevel(20, 170),
    SpeedLevel(25, 130),
    SpeedLevel(30, 100),
    SpeedLevel(35, 80),
    SpeedLevel(40, 60),
    SpeedLevel(45, 50)
  ]

  const NUM_SPEED_LEVELS: int := |SPEED_LEVELS|

  /** Thresholds strictly increase from 0 and intervals strictly decrease. */
  lemma TableOrdered()
    ensures NUM_SPEED_LEVELS == 11
    ensures SPEED_LEVELS[0].linesThreshold == 0
    ensures forall i, j :: 0 <= i < j < NUM_SPEED_LEVELS ==>
      SPEED_LEVELS[i].linesThreshold < SPEED_LEVELS[j].linesThreshold &&
      SPEED_LEVELS[i].fallIntervalMs > SPEED_LEVELS[j].fallIntervalMs
    ensures forall i :: 0 <= i < NUM_SPEED_LEVELS ==> 50 <= SPEED_LEVELS[i].fallIntervalMs <= 400
  {
  }

  /** The entry the backward scan of update_fall_speed stops at, scanning down
      from entry `i`: the greatest index up to `i` whose threshold is reached. */
  function LevelFrom(total: int, i: int): (k: int)
    requires total >= 0 && 0 <= i < NUM_SPEED_LEVELS
    ensures 0 <= k <= i && SPEED_LEVELS[k].linesThreshold <= total
    ensures forall j :: k < j <= i ==> total < SPEED_LEVELS[j].linesThreshold
  {
    if total >= SPEED_LEVELS[i].linesThreshold then i else LevelFrom(total, i - 1)
  }

  /** The fall interval for a line total. */
  function IntervalFor(total: int): int
    requires total >= 0
  {
    SPEED_LEVELS[LevelFrom(total, NUM_SPEED_LEVELS - 1)].fallIntervalMs
  }

  /** The interval is that of the entry with the greatest threshold not above
      the total; the threshold-0 entry makes such an entry always exist. */
  lemma IntervalForSpec(total: int)
    requires total >= 0
    ensures exists k ::
      && 0 <= k < NUM_SPEED_LEVELS && SPEED_LEVELS[k].linesThreshold <= total
      && (forall j :: k < j < NUM_SPEED_LEVELS ==> total < SPEED_LEVELS[j].linesThreshold)
      && IntervalFor(total) == SPEED_LEVELS[k].fallIntervalMs
    ensures 50 <= IntervalFor(total) <= 400
  {
    var k := LevelFrom(total, NUM_SPEED_LEVELS - 1);
    TableOrdered();
    assert SPEED_LEVELS[k].linesThreshold <= total;
  }

  /** More cleared lines never make the pieces fall more slowly. */
  lemma IntervalMonotone(a: int, b: int)
    requires 0 <= a <= b
    ensures IntervalFor(b) <= IntervalFor(a)
  {
    var ka := LevelFrom(a, NUM_SPEED_LEVELS - 1);
    var kb := LevelFrom(b, NUM_SPEED_LEVELS - 1);
    TableOrdered();
    assert SPEED_LEVELS[ka].linesThreshold <= b;
    assert ka <= kb;
  }

  /** Sample lookups of the table. */
  lemma IntervalSamples()
    ensures IntervalFor(0) == 400 && IntervalFor(1) == 400
    ensures IntervalFor(2) == 370 && IntervalFor(4) == 370
    ensures IntervalFor(10) == 270 && IntervalFor(14) == 270
    ensures IntervalFor(45) == 50 && IntervalFor(1000) == 50
  {
    IntervalAt(0, 0);
    IntervalAt(1, 0);
    IntervalAt(2, 1);
    IntervalAt(4, 1);
    IntervalAt(10, 3);
    IntervalAt(14, 3);
    IntervalAt(45, 10);
    IntervalAt(1000, 10);
  }

  /** Entry `k` applies from its own threshold up to the next one. */
  lemma IntervalAt(total: int, k: int)
    requires 0 <= k < NUM_SPEED_LEVELS && 0 <= SPEED_LEVELS[k].linesThreshold <= total
    requires k + 1 < NUM_SPEED_LEVELS ==> total < SPEED_LEVELS[k + 1].linesThreshold
    ensures IntervalFor(total) == SPEED_LEVELS[k].fallIntervalMs
  {
    var j := LevelFrom(total, NUM_SPEED_LEVELS - 1);
    TableOrdered();
    assert j == k;
  }

  class SpeedManager {
    /** Both `uint32_t`. */
    var currentFallInterval: int
    var totalLinesCleared: int

    ghost predicate Valid()
      reads this
    {
      IsU32(totalLinesCleared) && 50 <= currentFallInterval <= 400
    }

    /** The static initial values: `FALL_INTERVAL_MS` until the first init. */
    constructor ()
      ensures Valid()
      ensures currentFallInterval == FALL_INTERVAL_MS && totalLinesCleared == 0
    {
      currentFallInterval := FALL_INTERVAL_MS;
      totalLinesCleared := 0;
    }

    /** update_fall_speed: scans the table from the last entry down and takes
        the first entry whose threshold the total reaches. */
    method UpdateFallSpeed()
      requires IsU32(totalLinesCleared)
      modifies this`currentFallInterval
      ensures currentFallInterval == IntervalFor(totalLinesCleared)
    {
      var i := NUM_SPEED_LEVELS - 1;
      while i >= 0
        invariant -1 <= i < NUM_SPEED_LEVELS
        invariant forall j :: i < j < NUM_SPEED_LEVELS ==> totalLinesCleared < SPEED_LEVELS[j].linesThreshold
      {
        if totalLinesCleared >= SPEED_LEVELS[i].linesThreshold {
          currentFallInterval := SPEED_LEVELS[i].fallIntervalMs;
          break;
        }
        i := i - 1;
      }
    }

    /** speed_manager_init: back to zero lines and the first table entry. */
    method Init()
      modifies this
      ensures Valid()
      ensures totalLinesCleared == 0 && currentFallInterval == SPEED_LEVELS[0].fallIntervalMs
      ensures currentFallInterval == 400
    {
      totalLinesCleared := 0;
      currentFallInterval := SPEED_LEVELS[0].fallIntervalMs;
    }

    /** speed_manager_reset: the same state as speed_manager_init. */
    method Reset()
      modifies this
      ensures Valid()
      ensures totalLinesCleared == 0 && currentFallInterval == SPEED_LEVELS[0].fallIntervalMs
      ensures currentFallInterval == 400
    {
      totalLinesCleared := 0;
      currentFallInterval := SPEED_LEVELS[0].fallIntervalMs;
    }

    /** speed_manager_update_score: the argument replaces the stored total (it
        is the caller's cumulative count, not an increment) and the interval is
        looked up again. */
    method UpdateScore(linesCleared: int)
      requires IsU32(linesCleared)
      modifies this
      ensures Valid()
      ensures totalLinesCleared == linesCleared
      ensures currentFallInterval == IntervalFor(linesCleared)
    {
      totalLinesCleared := linesCleared;
      UpdateFallSpeed();
      IntervalForSpec(linesCleared);
    }

    /** speed_manager_get_fall_interval. */
    function GetFallInterval(): (ms: int)
      reads this
      requires Valid()
      ensures 50 <= ms <= 400
    {
      currentFallInterval
    }
  }
}
