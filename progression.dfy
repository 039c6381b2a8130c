/**
 * Progression: points for the rows cleared by one landing, and the level
 * that follows from the number of cleared rows.
 */
module Progression {

  /** Points for clearing 0, 1, 2, 3 or 4 rows at once, before the level multiplier. */
  const LineTable: seq<nat> := [0, 40, 100, 300, 1200]

  /** The table entry for `k` cleared rows; a count past the table's end scores 0. */
  function LinePoints(k: nat): nat
  {
    if k < |LineTable| then LineTable[k] else 0
  }

  /**
   * The score gained by clearing `k` rows at once at `level`: the table
   * entry multiplied by the level. It is zero exactly when the table entry
   * is zero or the level is 0.
   */
  function LineScore(k: nat, level: nat): (r: nat)
    ensures r == 0 <==> k == 0 || k >= |LineTable| || level == 0
  {
    LinePoints(k) * level
  }

  /** One evaluation of the level rule: up by one once `rows` reaches ten per level. */
  function LevelStep(level: nat, rows: nat): nat
  {
    if rows >= level * 10 then level + 1 else level
  }

  /**
   * The level once the level rule has been re-evaluated until it stops
   * changing the level: it never goes down, every increase was triggered
   * by the rule, and in the end fewer than ten rows per level are cleared.
   * Hence it is the larger of the old level and rows / 10 + 1.
   */
  function SettleLevel(level: nat, rows: nat): (l: nat)
    ensures level <= l && rows < l * 10
    ensures l > level ==> rows >= (l - 1) * 10
    ensures l == if rows / 10 + 1 > level then rows / 10 + 1 else level
    decreases rows + 10 - level * 10
  {
    var stepped := LevelStep(level, rows);
    if stepped == level then level else SettleLevel(stepped, rows)
  }
}
