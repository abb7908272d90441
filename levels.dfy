/**
 * Level data (src/emoji/levels.ts): the hard-coded apple mask, its level record
 * and the 1-based level lookup.
 */
module Levels {
  import opened Options
  import Mask
  import State

  /** The 24-row x 16-column apple silhouette; true = traversable. */
  const AppleMask16x24: Mask.EmojiMask := [
    [false, false, false, false, false, false, false, false, false, true, false, false, false, false, false, false],
    [false, false, false, false, false, false, false, false, true, true, false, false, false, false, false, false],
    [false, false, false, false, false, false, false, false, true, true, false, false, false, false, false, false],
    [false, false, false, false, false, false, false, false, true, false, false, false, false, false, false, false],
    [false, false, false, false, false, false, false, true, true, false, false, false, false, false, false, false],
    [false, false, false, false, true, true, true, true, true, true, true, true, false, false, false, false],
    [false, false, false, true, true, true, true, true, true, true, true, true, true, false, false, false],
    [false, false, true, true, true, true, true, true, true, true, true, true, true, true, false, false],
    [false, true, true, true, true, true, true, true, true, true, true, true, true, true, true, false],
    [false, true, true, true, true, true, true, true, true, true, true, true, true, true, true, false],
    [true, true, true, true, true, true, true, true, true, true, true, true, true, true, true, true],
    [true, true, true, true, true, true, true, true, true, true, true, true, true, true, true, true],
    [true, true, true, true, true, true, true, true, true, true, true, true, true, true, true, true],
    [true, true, true, true, true, true, true, true, true, true, true, true, true, true, true, true],
    [true, true, true, true, true, true, true, true, true, true, true, true, true, true, true, true],
    [true, true, true, true, true, true, true, true, true, true, true, true, true, true, true, true],
    [false, true, true, true, true, true, true, true, true, true, true, true, true, true, true, false],
    [false, true, true, true, true, true, true, true, true, true, true, true, true, true, true, false],
    [false, false, true, true, true, true, true, true, true, true, true, true, true, true, false, false],
    [false, false, true, true, true, true, true, true, true, true, true, true, true, true, false, false],
    [false, false, false, true, true, true, true, true, true, true, true, true, true, false, false, false],
    [false, false, false, false, true, true, true, true, true, true, true, true, false, false, false, false],
    [false, false, false, false, false, true, true, true, true, true, true, false, false, false, false, false],
    [false, false, false, false, false, false, true, true, true, true, false, false, false, false, false, false]
  ]

  const AppleMetadata := Mask.EmojiMetadata(
    "\U{1F34E}", "Red Apple", 1, Some("A classic red apple - perfect for beginners!"))

  /** Level 1: the apple, targeting every true cell of its mask. */
  const LevelApple := Mask.EmojiLevel(16, 24, AppleMetadata, AppleMask16x24, Mask.CountCells(AppleMask16x24))

  const AllLevels: seq<Mask.EmojiLevel> := [LevelApple]

  /** getLevel: the level with the given 1-based number, or nothing when out of range. */
  function GetLevel(levelNumber: int): (r: Option<Mask.EmojiLevel>)
    ensures r.Some? <==> 1 <= levelNumber <= GetLevelCount()
    ensures r.Some? ==> r.value == AllLevels[levelNumber - 1]
  {
    if 0 <= levelNumber - 1 < |AllLevels| then Some(AllLevels[levelNumber - 1]) else None
  }

  /** getLevelCount: the number of levels. */
  function GetLevelCount(): (n: nat)
    ensures n == |AllLevels| && n == 1
  {
    |AllLevels|
  }

  /** The apple mask has 24 rows of 16 cells. */
  lemma AppleMaskShape()
    ensures Mask.IsGrid(AppleMask16x24, 16, 24)
  {
  }

  /** The apple level is 16 x 24 with the apple mask and targets its true cells, at most 16 * 24 of them. */
  lemma AppleLevelTarget()
    ensures LevelApple.width == 16 && LevelApple.height == 24 && LevelApple.mask == AppleMask16x24
    ensures LevelApple.targetCells == Mask.CountCells(AppleMask16x24) <= 384
    ensures LevelApple == Mask.CreateLevel(AppleMetadata, 16, 24, AppleMask16x24)
  {
    AppleMaskShape();
    Mask.CountCellsBound(AppleMask16x24, 16);
  }

  /** Row 12 of the apple (the middle, widest part) is traversable from edge to edge. */
  lemma AppleRow12Full()
    ensures forall x :: 0 <= x < 16 ==> AppleMask16x24[12][x]
  {
  }

  /**
   * A game on the apple level starts with all five segments (x = 8 down to 4,
   * y = 12) on traversable cells, so all five are counted visited.
   */
  lemma AppleStartTraversible()
    ensures State.ValidLevel(State.FromEmojiLevel(LevelApple))
    ensures State.InitialSegments(State.FromEmojiLevel(LevelApple)) ==
      [State.Position(8, 12), State.Position(7, 12), State.Position(6, 12), State.Position(5, 12), State.Position(4, 12)]
    ensures State.AllTraversible(State.InitialSegments(State.FromEmojiLevel(LevelApple)), State.FromEmojiLevel(LevelApple))
  {
    AppleMaskShape();
    AppleRow12Full();
  }
}
