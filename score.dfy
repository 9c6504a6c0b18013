/** The score manager (Score.c): the running score, the cumulative number of
    cleared lines and the highscore, which the firmware keeps in a module-level
    state that its functions update in place. */
module Score {
  import opened Config

  /** Points for clearing `lines` rows with one lock: 100, 300, 500 and 800 for
      one to four rows, `lines * 300` otherwise. */
  function LineBonus(lines: int): int {
    match lines
    case 1 => 100
    case 2 => 300
    case 3 => 500
    case 4 => 800
    case _ => lines * 300
  }

  /** The bonus table: no points for no line, and more rows cleared at once are
      always worth more. */
  lemma LineBonusIncreasing(a: int, b: int)
    requires 0 <= a < b
    ensures LineBonus(0) == 0
    ensures LineBonus(a) < LineBonus(b)
    ensures 1 <= a <= 4 ==> LineBonus(a) == [100, 300, 500, 800][a - 1]
  {
  }

  /** The highscore after a highscore update: the score, seen as a `uint32_t`,
      replaces the highscore when it is strictly greater. The highscore never
      drops and ends at least as high as the score. */
  function RaisedHighscore(highscore: int, score: int): (h: int)
    ensures h >= highscore && h >= ToU32(score)
    ensures h == highscore || h == ToU32(score)
  {
    if ToU32(score) > highscore then ToU32(score) else highscore
  }

  class ScoreManager {
    /** `score` is a C `int`; the line total and the highscore are `uint32_t`. */
    var score: int
    var totalLinesCleared: int
    var highscore: int
    /** The storage handle, opened once at boot by score_load_highscore and
        never changed afterwards; 0 when the storage could not be opened. */
    const nvsHandle: int

    ghost predicate Valid()
      reads this
    {
      IsU32(totalLinesCleared) && IsU32(highscore)
    }

    /** The module state at boot, once the stored highscore has been read
        (reading it is a call into the storage library, so its outcome, the
        handle and the value, are parameters). */
    constructor (handle: int, storedHighscore: int)
      requires IsU32(storedHighscore)
      ensures Valid()
      ensures score == 0 && totalLinesCleared == 0
      ensures highscore == storedHighscore && nvsHandle == handle
    {
      score := 0;
      totalLinesCleared := 0;
      highscore := storedHighscore;
      nvsHandle := handle;
    }

    /** score_init: a new game starts from zero; the highscore survives. */
    method Init()
      requires Valid()
      modifies this`score, this`totalLinesCleared
      ensures Valid()
      ensures score == 0 && totalLinesCleared == 0
    {
      score := 0;
      totalLinesCleared := 0;
    }

    /** score_add_lines: the line total grows by exactly `lines` (in `uint32_t`)
        and the score by the bonus for that many rows. */
    method AddLines(lines: int)
      requires Valid()
      modifies this`score, this`totalLinesCleared
      ensures Valid()
      ensures totalLinesCleared == ToU32(old(totalLinesCleared) + lines)
      ensures score == old(score) + LineBonus(lines)
    {
      totalLinesCleared := (totalLinesCleared + lines) % U32;
      score := score + LineBonus(lines);
    }

    /** score_get. */
    function GetScore(): int
      reads this
    {
      score
    }

    /** score_get_total_lines_cleared: a `uint32_t`. */
    function GetTotalLinesCleared(): (n: int)
      reads this
      requires Valid()
      ensures IsU32(n)
    {
      totalLinesCleared
    }

    /** score_get_highscore: a `uint32_t`. */
    function GetHighscore(): (h: int)
      reads this
      requires Valid()
      ensures IsU32(h)
    {
      highscore
    }

    /** score_update_highscore: the comparison converts the `int` score to
        `uint32_t`; a strictly greater score becomes the highscore, and only
        then, with an open handle, is it written to storage (`saveAttempted`;
        the write itself is external). */
    method UpdateHighscore() returns (saveAttempted: bool)
      requires Valid()
      modifies this`highscore
      ensures Valid()
      ensures highscore == RaisedHighscore(old(highscore), score)
      ensures saveAttempted <==> ToU32(score) > old(highscore) && nvsHandle != 0
      ensures 0 <= score < U32 ==> highscore == if score > old(highscore) then score else old(highscore)
    {
      saveAttempted := false;
      if ToU32(score) > highscore {
        highscore := ToU32(score);
        if nvsHandle != 0 {
          saveAttempted := true;
        }
      }
    }
  }
}
