/** The meaning of one simulation tick (World::Update) as a function of the
    cells before it: the rule for one grain, applied cell by cell in the
    order the tick scans the grid. */
module Step {
  import opened Grid

  datatype Option<T> = None | Some(value: T)

  /** The horizontal offset a blocked grain at (x, y) tries first: -1 (left)
      when x + y + frameCount is odd, +1 (right) otherwise. The sum is taken
      in 32-bit unsigned arithmetic by the code; wrapping by 2^32 does not
      change its parity. */
  function FirstDx(x: int, y: int, f: uint32): int {
    if (x + y + f) % 2 == 1 then -1 else 1
  }

  /** (x, y) lies inside the grid and holds no sand. */
  predicate IsFree(s: seq<CellType>, w: int, h: int, x: int, y: int)
    requires |s| == w * h
  {
    InBounds(w, h, x, y) && CellAt(s, w, h, x, y) == Empty
  }

  /** The column of row y + 1 that the grain at (x, y) moves to, or None when
      the cell is empty, lies on the floor, or has no free cell below it. */
  function Destination(s: seq<CellType>, w: int, h: int, x: int, y: int, f: uint32): (r: Option<int>)
    requires |s| == w * h && InBounds(w, h, x, y)
    ensures r.Some? ==> CellAt(s, w, h, x, y) == Sand && y + 1 < h
    ensures r.Some? ==> IsFree(s, w, h, r.value, y + 1) && x - 1 <= r.value <= x + 1
    ensures r.None? <==> CellAt(s, w, h, x, y) == Empty || y + 1 >= h ||
                         (!IsFree(s, w, h, x - 1, y + 1) && !IsFree(s, w, h, x, y + 1) && !IsFree(s, w, h, x + 1, y + 1))
    ensures r.Some? && IsFree(s, w, h, x, y + 1) ==> r.value == x
    ensures r == Some(x - FirstDx(x, y, f)) ==> !IsFree(s, w, h, x + FirstDx(x, y, f), y + 1)
  {
    match CellAt(s, w, h, x, y)
    case Empty => None
    case Sand =>
      if y + 1 >= h then None
      else if CellAt(s, w, h, x, y + 1) == Empty then Some(x)
      else
        var d := FirstDx(x, y, f);
        if IsFree(s, w, h, x + d, y + 1) then Some(x + d)
        else if IsFree(s, w, h, x - d, y + 1) then Some(x - d)
        else None
  }

  /** Destination read off the flat vector, with the neighbours' positions
      computed from the position of the cell below. */
  lemma DestinationAtIndices(s: seq<CellType>, w: int, h: int, x: int, y: int, f: uint32)
    requires |s| == w * h && InBounds(w, h, x, y)
    ensures var i, below, d := y * w + x, (y + 1) * w + x, FirstDx(x, y, f);
            0 <= i < |s| &&
            (y + 1 < h ==> 0 <= below < |s| && (0 <= x + d < w ==> 0 <= below + d < |s|) && (0 <= x - d < w ==> 0 <= below - d < |s|)) &&
            Destination(s, w, h, x, y, f) ==
              if s[i] == Empty || y + 1 >= h then None
              else if s[below] == Empty then Some(x)
              else if 0 <= x + d < w && s[below + d] == Empty then Some(x + d)
              else if 0 <= x - d < w && s[below - d] == Empty then Some(x - d)
              else None
  {
    IndexInGrid(w, h, x, y);
    if y + 1 < h {
      IndexInGrid(w, h, x, y + 1);
      var d := FirstDx(x, y, f);
      if 0 <= x + d < w {
        IndexInGrid(w, h, x + d, y + 1);
      }
      if 0 <= x - d < w {
        IndexInGrid(w, h, x - d, y + 1);
      }
    }
  }

  /** The cells after the tick visits (x, y): a grain that has a destination
      leaves (x, y) empty and fills its destination. */
  function VisitCell(s: seq<CellType>, w: int, h: int, x: int, y: int, f: uint32): (r: seq<CellType>)
    requires |s| == w * h && InBounds(w, h, x, y)
    ensures |r| == |s|
  {
    match Destination(s, w, h, x, y, f)
    case None => s
    case Some(nx) =>
      IndexInGrid(w, h, x, y);
      IndexInGrid(w, h, nx, y + 1);
      s[Index(w, nx, y + 1) := Sand][Index(w, x, y) := Empty]
  }

  /** The column visited k-th in a row: left to right on even frames,
      right to left on odd ones. */
  function ScanX(w: int, f: uint32, k: int): int {
    if f % 2 == 0 then k else w - 1 - k
  }

  /** The cells after the tick has visited the first k columns of row y, in scan order. */
  function VisitRow(s: seq<CellType>, w: int, h: int, y: int, f: uint32, k: nat): (r: seq<CellType>)
    requires |s| == w * h && 0 <= y < h && k <= w
    ensures |r| == |s|
  {
    if k == 0 then s
    else VisitCell(VisitRow(s, w, h, y, f, k - 1), w, h, ScanX(w, f, k - 1), y, f)
  }

  /** The cells after the tick has processed its first n rows, bottom up:
      rows h - 1, h - 2, ..., h - n. */
  function VisitRows(s: seq<CellType>, w: int, h: int, f: uint32, n: nat): (r: seq<CellType>)
    requires |s| == w * h && 0 <= w && n <= h
    ensures |r| == |s|
  {
    if n == 0 then s
    else VisitRow(VisitRows(s, w, h, f, n - 1), w, h, h - n, f, w)
  }

  /** The cells after one tick with frame counter f. */
  function Tick(s: seq<CellType>, w: int, h: int, f: uint32): (r: seq<CellType>)
    requires |s| == w * h && 0 <= w && 0 <= h
    ensures |r| == |s|
  {
    VisitRows(s, w, h, f, h)
  }

  // ---------------------------------------------------------------------
  // Conservation: a tick moves grains, it never creates or destroys one.

  lemma VisitCellConservesSand(s: seq<CellType>, w: int, h: int, x: int, y: int, f: uint32)
    requires |s| == w * h && InBounds(w, h, x, y)
    ensures CountSand(VisitCell(s, w, h, x, y, f)) == CountSand(s)
  {
    match Destination(s, w, h, x, y, f)
    case None =>
    case Some(nx) =>
      IndexInGrid(w, h, x, y);
      IndexInGrid(w, h, nx, y + 1);
      var a, b := Index(w, x, y), Index(w, nx, y + 1);
      CountSandUpdate(s, b, Sand);
      CountSandUpdate(s[b := Sand], a, Empty);
  }

  lemma {:induction false} VisitRowConservesSand(s: seq<CellType>, w: int, h: int, y: int, f: uint32, k: nat)
    requires |s| == w * h && 0 <= y < h && k <= w
    ensures CountSand(VisitRow(s, w, h, y, f, k)) == CountSand(s)
  {
    if k > 0 {
      var prev := VisitRow(s, w, h, y, f, k - 1);
      VisitRowConservesSand(s, w, h, y, f, k - 1);
      VisitCellConservesSand(prev, w, h, ScanX(w, f, k - 1), y, f);
    }
  }

  lemma {:induction false} VisitRowsConservesSand(s: seq<CellType>, w: int, h: int, f: uint32, n: nat)
    requires |s| == w * h && 0 <= w && n <= h
    ensures CountSand(VisitRows(s, w, h, f, n)) == CountSand(s)
  {
    if n > 0 {
      VisitRowsConservesSand(s, w, h, f, n - 1);
      VisitRowConservesSand(VisitRows(s, w, h, f, n - 1), w, h, h - n, f, w);
    }
  }

  /** A tick conserves the number of Sand cells. */
  lemma TickConservesSand(s: seq<CellType>, w: int, h: int, f: uint32)
    requires |s| == w * h && 0 <= w && 0 <= h
    ensures CountSand(Tick(s, w, h, f)) == CountSand(s)
  {
    VisitRowsConservesSand(s, w, h, f, h);
  }

  // ---------------------------------------------------------------------
  // The floor: a grain in the bottom row never moves.

  lemma VisitCellKeepsFloor(s: seq<CellType>, w: int, h: int, x: int, y: int, f: uint32, x': int)
    requires |s| == w * h && InBounds(w, h, x, y) && 0 <= x' < w
    requires CellAt(s, w, h, x', h - 1) == Sand
    ensures CellAt(VisitCell(s, w, h, x, y, f), w, h, x', h - 1) == Sand
  {
    match Destination(s, w, h, x, y, f)
    case None =>
    case Some(nx) =>
      IndexInGrid(w, h, x, y);
      IndexInGrid(w, h, x', h - 1);
      MulMono(y + 1, h - 1, w);
  }

  lemma {:induction false} VisitRowKeepsFloor(s: seq<CellType>, w: int, h: int, y: int, f: uint32, k: nat, x': int)
    requires |s| == w * h && 0 <= y < h && k <= w && 0 <= x' < w
    requires CellAt(s, w, h, x', h - 1) == Sand
    ensures CellAt(VisitRow(s, w, h, y, f, k), w, h, x', h - 1) == Sand
  {
    if k > 0 {
      VisitRowKeepsFloor(s, w, h, y, f, k - 1, x');
      VisitCellKeepsFloor(VisitRow(s, w, h, y, f, k - 1), w, h, ScanX(w, f, k - 1), y, f, x');
    }
  }

  lemma {:induction false} VisitRowsKeepFloor(s: seq<CellType>, w: int, h: int, f: uint32, n: nat, x': int)
    requires |s| == w * h && n <= h && 0 <= x' < w
    requires CellAt(s, w, h, x', h - 1) == Sand
    ensures CellAt(VisitRows(s, w, h, f, n), w, h, x', h - 1) == Sand
  {
    if n > 0 {
      VisitRowsKeepFloor(s, w, h, f, n - 1, x');
      VisitRowKeepsFloor(VisitRows(s, w, h, f, n - 1), w, h, h - n, f, w, x');
    }
  }

  /** A grain resting on the bottom row is still there after the tick. */
  lemma FloorGrainsStay(s: seq<CellType>, w: int, h: int, f: uint32, x: int)
    requires |s| == w * h && 0 <= h && 0 <= x < w
    requires CellAt(s, w, h, x, h - 1) == Sand
    ensures CellAt(Tick(s, w, h, f), w, h, x, h - 1) == Sand
  {
    VisitRowsKeepFloor(s, w, h, f, h, x);
  }

  // ---------------------------------------------------------------------
  // Locality: processing row y reads and writes rows y and y + 1 only.

  /** Visiting (x, y) in coordinates: a grain that moves leaves its cell
      Empty and makes its destination Sand; every other cell reads as before. */
  lemma VisitCellAt(s: seq<CellType>, w: int, h: int, x: int, y: int, f: uint32, x': int, y': int)
    requires |s| == w * h && InBounds(w, h, x, y)
    ensures CellAt(VisitCell(s, w, h, x, y, f), w, h, x', y') ==
            match Destination(s, w, h, x, y, f)
            case None => CellAt(s, w, h, x', y')
            case Some(nx) =>
              if x' == x && y' == y then Empty
              else if x' == nx && y' == y + 1 then Sand
              else CellAt(s, w, h, x', y')
  {
    match Destination(s, w, h, x, y, f)
    case None =>
    case Some(nx) =>
      if InBounds(w, h, x', y') {
        IndexInGrid(w, h, x, y);
        IndexInGrid(w, h, nx, y + 1);
        IndexInGrid(w, h, x', y');
        var a, b, j := Index(w, x, y), Index(w, nx, y + 1), Index(w, x', y');
        if j == a {
          IndexInjective(w, x', y', x, y);
        }
        if j == b {
          IndexInjective(w, x', y', nx, y + 1);
        }
        assert VisitCell(s, w, h, x, y, f)[j] == if j == a then Empty else if j == b then Sand else s[j];
      }
  }

  /** Visiting any prefix of row y leaves every row other than y and y + 1 as it was. */
  lemma {:induction false} VisitRowFrame(s: seq<CellType>, w: int, h: int, y: int, f: uint32, k: nat, x': int, y': int)
    requires |s| == w * h && 0 <= y < h && k <= w
    requires y' != y && y' != y + 1
    ensures CellAt(VisitRow(s, w, h, y, f, k), w, h, x', y') == CellAt(s, w, h, x', y')
  {
    if k > 0 {
      VisitRowFrame(s, w, h, y, f, k - 1, x', y');
      VisitCellAt(VisitRow(s, w, h, y, f, k - 1), w, h, ScanX(w, f, k - 1), y, f, x', y');
    }
  }

  /** s and s' hold the same cells in row r. */
  ghost predicate AgreeOnRow(s: seq<CellType>, s': seq<CellType>, w: int, h: int, r: int)
    requires |s| == w * h && |s'| == w * h
  {
    forall x' :: CellAt(s, w, h, x', r) == CellAt(s', w, h, x', r)
  }

  /** s and s' hold the same cells in rows y and y + 1. */
  ghost predicate AgreeOnRows(s: seq<CellType>, s': seq<CellType>, w: int, h: int, y: int)
    requires |s| == w * h && |s'| == w * h
  {
    AgreeOnRow(s, s', w, h, y) && AgreeOnRow(s, s', w, h, y + 1)
  }

  lemma DestinationReadsTwoRows(s: seq<CellType>, s': seq<CellType>, w: int, h: int, x: int, y: int, f: uint32)
    requires |s| == w * h && |s'| == w * h && InBounds(w, h, x, y)
    requires AgreeOnRows(s, s', w, h, y)
    ensures Destination(s, w, h, x, y, f) == Destination(s', w, h, x, y, f)
  {
    var d := FirstDx(x, y, f);
    assert CellAt(s, w, h, x, y) == CellAt(s', w, h, x, y);
    assert CellAt(s, w, h, x, y + 1) == CellAt(s', w, h, x, y + 1);
    assert CellAt(s, w, h, x + d, y + 1) == CellAt(s', w, h, x + d, y + 1);
    assert CellAt(s, w, h, x - d, y + 1) == CellAt(s', w, h, x - d, y + 1);
  }

  lemma VisitCellAgreesOnRow(s: seq<CellType>, s': seq<CellType>, w: int, h: int, x: int, y: int, f: uint32, r: int)
    requires |s| == w * h && |s'| == w * h && InBounds(w, h, x, y)
    requires Destination(s, w, h, x, y, f) == Destination(s', w, h, x, y, f)
    requires AgreeOnRow(s, s', w, h, r)
    ensures AgreeOnRow(VisitCell(s, w, h, x, y, f), VisitCell(s', w, h, x, y, f), w, h, r)
  {
    forall x': int
      ensures CellAt(VisitCell(s, w, h, x, y, f), w, h, x', r) == CellAt(VisitCell(s', w, h, x, y, f), w, h, x', r)
    {
      VisitCellAt(s, w, h, x, y, f, x', r);
      VisitCellAt(s', w, h, x, y, f, x', r);
    }
  }

  lemma VisitCellReadsTwoRows(s: seq<CellType>, s': seq<CellType>, w: int, h: int, x: int, y: int, f: uint32)
    requires |s| == w * h && |s'| == w * h && InBounds(w, h, x, y)
    requires AgreeOnRows(s, s', w, h, y)
    ensures AgreeOnRows(VisitCell(s, w, h, x, y, f), VisitCell(s', w, h, x, y, f), w, h, y)
  {
    DestinationReadsTwoRows(s, s', w, h, x, y, f);
    VisitCellAgreesOnRow(s, s', w, h, x, y, f, y);
    VisitCellAgreesOnRow(s, s', w, h, x, y, f, y + 1);
  }

  /** Processing row y reads only rows y and y + 1: two grids that agree
      there still agree there after any prefix of the row is visited. */
  lemma {:induction false} VisitRowReadsTwoRows(s: seq<CellType>, s': seq<CellType>, w: int, h: int, y: int, f: uint32, k: nat)
    requires |s| == w * h && |s'| == w * h && 0 <= y < h && k <= w
    requires AgreeOnRows(s, s', w, h, y)
    ensures AgreeOnRows(VisitRow(s, w, h, y, f, k), VisitRow(s', w, h, y, f, k), w, h, y)
  {
    if k > 0 {
      VisitRowReadsTwoRows(s, s', w, h, y, f, k - 1);
      VisitCellReadsTwoRows(VisitRow(s, w, h, y, f, k - 1), VisitRow(s', w, h, y, f, k - 1), w, h, ScanX(w, f, k - 1), y, f);
    }
  }

  // ---------------------------------------------------------------------
  // Frame counter: only its parity matters.

  lemma VisitCellParity(s: seq<CellType>, w: int, h: int, x: int, y: int, f: uint32, g: uint32)
    requires |s| == w * h && InBounds(w, h, x, y) && f % 2 == g % 2
    ensures VisitCell(s, w, h, x, y, f) == VisitCell(s, w, h, x, y, g)
  {
    assert (x + y + f) % 2 == (x + y + g) % 2;
  }

  lemma {:induction false} VisitRowParity(s: seq<CellType>, w: int, h: int, y: int, f: uint32, g: uint32, k: nat)
    requires |s| == w * h && 0 <= y < h && k <= w && f % 2 == g % 2
    ensures VisitRow(s, w, h, y, f, k) == VisitRow(s, w, h, y, g, k)
  {
    if k > 0 {
      VisitRowParity(s, w, h, y, f, g, k - 1);
      VisitCellParity(VisitRow(s, w, h, y, f, k - 1), w, h, ScanX(w, f, k - 1), y, f, g);
    }
  }

  lemma {:induction false} VisitRowsParity(s: seq<CellType>, w: int, h: int, f: uint32, g: uint32, n: nat)
    requires |s| == w * h && 0 <= w && n <= h && f % 2 == g % 2
    ensures VisitRows(s, w, h, f, n) == VisitRows(s, w, h, g, n)
  {
    if n > 0 {
      VisitRowsParity(s, w, h, f, g, n - 1);
      VisitRowParity(VisitRows(s, w, h, f, n - 1), w, h, h - n, f, g, w);
    }
  }

  /** Two frame counters of equal parity produce the same tick. */
  lemma TickDependsOnParityOnly(s: seq<CellType>, w: int, h: int, f: uint32, g: uint32)
    requires |s| == w * h && 0 <= w && 0 <= h && f % 2 == g % 2
    ensures Tick(s, w, h, f) == Tick(s, w, h, g)
  {
    VisitRowsParity(s, w, h, f, g, h);
  }

  /** Frames f and f + 2 (the 32-bit counter wrapping around) act identically. */
  lemma TickPeriodTwo(s: seq<CellType>, w: int, h: int, f: uint32)
    requires |s| == w * h && 0 <= w && 0 <= h
    ensures Tick(s, w, h, f) == Tick(s, w, h, (f + 2) % 0x1_0000_0000)
  {
    var g := (f + 2) % 0x1_0000_0000;
    assert g == f + 2 || g == f + 2 - 0x1_0000_0000;
    TickDependsOnParityOnly(s, w, h, f, g);
  }
  // ---------------------------------------------------------------------
  // Descent: grains only move down, and by at most one row per tick.

  /** The number of grains in rows t through h - 1. */
  function SandFromRow(s: seq<CellType>, w: int, h: int, t: int): nat
    requires |s| == w * h && 0 <= w && 0 <= t <= h
  {
    MulMono(0, t, w);
    MulMono(t, h, w);
    CountSand(s[t * w..])
  }

  /** The grains at or below row t + 1 are among those at or below row t. */
  lemma SandFromRowAntitone(s: seq<CellType>, w: int, h: int, t: int)
    requires |s| == w * h && 0 <= w && 0 <= t < h
    ensures SandFromRow(s, w, h, t + 1) <= SandFromRow(s, w, h, t)
  {
    MulMono(0, t, w);
    MulMono(t + 1, h, w);
    var p, q := t * w, (t + 1) * w;
    assert s[p..] == s[p..q] + s[q..];
    CountSandAppend(s[p..q], s[q..]);
  }

  /** Moving a grain from position a to a later empty position b changes the
      count of grains from position p on by one exactly when p separates them. */
  lemma MoveSuffixCount(s: seq<CellType>, a: int, b: int, p: int)
    requires 0 <= a < b < |s| && 0 <= p <= |s|
    requires s[a] == Sand && s[b] == Empty
    ensures CountSand(s[b := Sand][a := Empty][p..]) ==
            CountSand(s[p..]) + (if a < p <= b then 1 else 0)
  {
    var s1 := s[b := Sand];
    if p <= a {
      assert s1[p..] == s[p..][b - p := Sand];
      assert s1[a := Empty][p..] == s1[p..][a - p := Empty];
      CountSandUpdate(s[p..], b - p, Sand);
      CountSandUpdate(s1[p..], a - p, Empty);
    } else if p <= b {
      assert s1[p..] == s[p..][b - p := Sand];
      assert s1[a := Empty][p..] == s1[p..];
      CountSandUpdate(s[p..], b - p, Sand);
    } else {
      assert s1[a := Empty][p..] == s[p..];
    }
  }

  /** Visiting (x, y) moves at most one grain, from row y into row y + 1:
      the count at or below row t changes only for t == y + 1, where it can
      only grow. */
  lemma VisitCellSandFromRow(s: seq<CellType>, w: int, h: int, x: int, y: int, f: uint32, t: int)
    requires |s| == w * h && InBounds(w, h, x, y) && 0 <= t <= h
    ensures t != y + 1 ==> SandFromRow(VisitCell(s, w, h, x, y, f), w, h, t) == SandFromRow(s, w, h, t)
    ensures SandFromRow(VisitCell(s, w, h, x, y, f), w, h, t) >= SandFromRow(s, w, h, t)
  {
    match Destination(s, w, h, x, y, f)
    case None =>
    case Some(nx) =>
      IndexInGrid(w, h, x, y);
      IndexInGrid(w, h, nx, y + 1);
      MulMono(0, t, w);
      MulMono(t, h, w);
      var a, b, p := Index(w, x, y), Index(w, nx, y + 1), t * w;
      if t <= y {
        MulMono(t, y, w);
      } else if t > y + 1 {
        MulMono(y + 2, t, w);
      }
      assert (a < p <= b) <==> t == y + 1;
      MoveSuffixCount(s, a, b, p);
  }

  lemma {:induction false} VisitRowSandFromRow(s: seq<CellType>, w: int, h: int, y: int, f: uint32, k: nat, t: int)
    requires |s| == w * h && 0 <= y < h && k <= w && 0 <= t <= h
    ensures t != y + 1 ==> SandFromRow(VisitRow(s, w, h, y, f, k), w, h, t) == SandFromRow(s, w, h, t)
    ensures SandFromRow(VisitRow(s, w, h, y, f, k), w, h, t) >= SandFromRow(s, w, h, t)
  {
    if k > 0 {
      VisitRowSandFromRow(s, w, h, y, f, k - 1, t);
      VisitCellSandFromRow(VisitRow(s, w, h, y, f, k - 1), w, h, ScanX(w, f, k - 1), y, f, t);
    }
  }

  /** After the first n rows (h - 1 down to h - n) are processed, the count at
      or below any row t has not dropped; it is unchanged while row t - 1 is
      still unprocessed, and once row t - 1 is processed it is at most the
      original count at or below row t - 1. */
  lemma {:induction false} VisitRowsSandFromRow(s: seq<CellType>, w: int, h: int, f: uint32, n: nat, t: int)
    requires |s| == w * h && 0 <= w && n <= h && 0 <= t <= h
    ensures SandFromRow(VisitRows(s, w, h, f, n), w, h, t) >= SandFromRow(s, w, h, t)
    ensures t <= h - n ==> SandFromRow(VisitRows(s, w, h, f, n), w, h, t) == SandFromRow(s, w, h, t)
    ensures t > h - n ==> SandFromRow(VisitRows(s, w, h, f, n), w, h, t) <= SandFromRow(s, w, h, t - 1)
  {
    if n > 0 {
      var prev := VisitRows(s, w, h, f, n - 1);
      var y := h - n;
      var r := VisitRow(prev, w, h, y, f, w);
      assert r == VisitRows(s, w, h, f, n);
      VisitRowsSandFromRow(s, w, h, f, n - 1, t);
      VisitRowSandFromRow(prev, w, h, y, f, w, t);
      if t == y + 1 {
        SandFromRowAntitone(r, w, h, y);
        VisitRowSandFromRow(prev, w, h, y, f, w, y);
        VisitRowsSandFromRow(s, w, h, f, n - 1, y);
      }
    }
  }

  /** Grains never rise: a tick does not lower the number of grains at or
      below any row. */
  lemma GrainsNeverRise(s: seq<CellType>, w: int, h: int, f: uint32, t: int)
    requires |s| == w * h && 0 <= w && 0 <= t <= h
    ensures SandFromRow(Tick(s, w, h, f), w, h, t) >= SandFromRow(s, w, h, t)
  {
    VisitRowsSandFromRow(s, w, h, f, h, t);
  }

  /** A grain descends at most one row per tick: every grain at or below row
      t after the tick was at or below row t - 1 before it. */
  lemma GrainsFallAtMostOneRow(s: seq<CellType>, w: int, h: int, f: uint32, t: int)
    requires |s| == w * h && 0 <= w && 1 <= t <= h
    ensures SandFromRow(Tick(s, w, h, f), w, h, t) <= SandFromRow(s, w, h, t - 1)
  {
    VisitRowsSandFromRow(s, w, h, f, h, t);
  }
}
