/** Small worked ticks on concrete grids (cells listed row by row, top row
    first), pinning down the rule, the tie-break and the scan direction. */
module Scenarios {
  import opened Grid
  import opened Step

  /** 3x3, one grain at (1, 0): it falls straight down to (1, 1). */
  lemma FallsStraightDown()
    ensures Tick([Empty, Sand, Empty,
                  Empty, Empty, Empty,
                  Empty, Empty, Empty], 3, 3, 0)
         == [Empty, Empty, Empty,
             Empty, Sand, Empty,
             Empty, Empty, Empty]
  {
  }

  /** 3x2 with a full floor: the grain at (1, 0) has nowhere to go and stays. */
  lemma BlockedGrainStays()
    ensures Tick([Empty, Sand, Empty,
                  Sand, Sand, Sand], 3, 2, 0)
         == [Empty, Sand, Empty,
             Sand, Sand, Sand]
  {
  }

  /** 3x2, only (1, 1) occupied below the grain at (1, 0): on frame 0,
      1 + 0 + 0 is odd, so the grain tries left first and slides left. */
  lemma SlidesLeftOnFrameZero()
    ensures Tick([Empty, Sand, Empty,
                  Empty, Sand, Empty], 3, 2, 0)
         == [Empty, Empty, Empty,
             Sand, Sand, Empty]
  {
  }

  /** The same grid on frame 1: 1 + 0 + 1 is even, so the grain slides right. */
  lemma SlidesRightOnFrameOne()
    ensures Tick([Empty, Sand, Empty,
                  Empty, Sand, Empty], 3, 2, 1)
         == [Empty, Empty, Empty,
             Empty, Sand, Sand]
  {
  }

  /** The slide direction of a grain blocked below flips between consecutive frames. */
  lemma SlideTieBreakFlipsEachFrame()
    ensures Tick([Empty, Sand, Empty,
                  Empty, Sand, Empty], 3, 2, 0)
         == [Empty, Empty, Empty,
             Sand, Sand, Empty]
    ensures Tick([Empty, Sand, Empty,
                  Empty, Sand, Empty], 3, 2, 1)
         == [Empty, Empty, Empty,
             Empty, Sand, Sand]
  {
    SlidesLeftOnFrameZero();
    SlidesRightOnFrameOne();
  }

  /** 3x2, grains at (0, 0) and (2, 0) both blocked from below and
      competing for (1, 1): on an even frame the row is scanned left to
      right, so the left grain takes the cell. */
  lemma LeftGrainWinsOnEvenFrame()
    ensures Tick([Sand, Empty, Sand,
                  Sand, Empty, Sand], 3, 2, 0)
         == [Empty, Empty, Sand,
             Sand, Sand, Sand]
  {
  }

  /** The same grid on an odd frame: scanned right to left, the right grain wins. */
  lemma RightGrainWinsOnOddFrame()
    ensures Tick([Sand, Empty, Sand,
                  Sand, Empty, Sand], 3, 2, 1)
         == [Sand, Empty, Empty,
             Sand, Sand, Sand]
  {
    var s := [Sand, Empty, Sand,
              Sand, Empty, Sand];
    var moved := [Sand, Empty, Empty,
                  Sand, Sand, Sand];
    // The bottom row is processed first and nothing on it moves.
    assert VisitRows(s, 3, 2, 1, 1) == s;
    // Row 0 right to left: the grain at (2, 0) slides to (1, 1); (1, 0) is
    // empty; the grain at (0, 0) then finds every cell below it blocked.
    assert VisitRow(s, 3, 2, 0, 1, 1) == moved;
    assert VisitRow(s, 3, 2, 0, 1, 3) == moved;
  }

  /** Which of two competing grains gets a contested cell is decided by the
      scan direction, and so flips between consecutive frames. */
  lemma ScanDirectionDecidesContest()
    ensures Tick([Sand, Empty, Sand,
                  Sand, Empty, Sand], 3, 2, 0)
         == [Empty, Empty, Sand,
             Sand, Sand, Sand]
    ensures Tick([Sand, Empty, Sand,
                  Sand, Empty, Sand], 3, 2, 1)
         == [Sand, Empty, Empty,
             Sand, Sand, Sand]
  {
    LeftGrainWinsOnEvenFrame();
    RightGrainWinsOnOddFrame();
  }
}
