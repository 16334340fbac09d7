/**
 * The admin-level rule (app/models/location.rb:12-13, 183-189): a location
 * below a parent sits one level under it, and a level outside 0..5 is
 * recorded as the out-of-range sentinel 100.
 */
module AdminLevel {
  import opened Wrappers

  /** `ADMIN_LEVELS` (location.rb:12). */
  const AdminLevels: seq<int> := [0, 1, 2, 3, 4, 5]

  /** `ADMIN_LEVEL_OUT_OF_RANGE` (location.rb:13). */
  const OutOfRange: int := 100

  /**
   * The level `calculate_admin_level` gives a child (location.rb:186-187):
   * the parent's level, or 0 when the parent has none, plus one; the sentinel
   * when that is not one of the admin levels.
   */
  function LevelBelow(parentLevel: Option<int>): (r: int)
    ensures r in AdminLevels || r == OutOfRange
    ensures parentLevel.GetOr(0) + 1 in AdminLevels ==> r == parentLevel.GetOr(0) + 1
    ensures parentLevel.GetOr(0) + 1 !in AdminLevels ==> r == OutOfRange
  {
    var newAdminLevel := parentLevel.GetOr(0) + 1;
    if newAdminLevel in AdminLevels then newAdminLevel else OutOfRange
  }

  /** The level of a location `depth` steps below a location at `level`, applying the rule at each step. */
  function LevelAtDepth(level: Option<int>, depth: nat): Option<int> {
    if depth == 0 then level else Some(LevelBelow(LevelAtDepth(level, depth - 1)))
  }

  /**
   * Along a chain below a root whose level is one of the admin levels, a
   * location at depth d gets the root's level plus d while that stays within
   * 0..5, and the sentinel from then on.
   */
  lemma {:induction false} LevelsAlongChain(rootLevel: int, depth: nat)
    requires rootLevel in AdminLevels
    ensures LevelAtDepth(Some(rootLevel), depth) ==
      if rootLevel + depth <= 5 then Some(rootLevel + depth) else Some(OutOfRange)
  {
    if depth > 0 {
      LevelsAlongChain(rootLevel, depth - 1);
    }
  }
}
