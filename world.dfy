/** The World class: a fixed-size grid of cells updated in place, with a
    running count of its Sand cells. */
module Simulation {
  import opened Grid
  import opened Step

  class World {
    const width: int32
    const height: int32
    /** The flat cell vector, indexed y * width + x; it is allocated once and never resized. */
    const cells: array<CellType>
    var sandCount: nat

    /** The object invariant: fixed positive dimensions, one cell per
        coordinate, and a counter equal to the number of Sand cells. */
    ghost predicate Valid()
      reads this, cells
    {
      ValidDimensions(width, height) &&
      cells.Length == width * height &&
      sandCount == CountSand(cells[..])
    }

    /** The abstract value of the world. */
    ghost function State(): WorldState
      reads this, cells
    {
      WorldState(cells[..], sandCount)
    }

    constructor (width: int32, height: int32)
      requires ValidDimensions(width, height)
      ensures Valid() && fresh(cells)
      ensures this.width == width && this.height == height
      ensures forall i :: 0 <= i < cells.Length ==> cells[i] == Empty
      ensures sandCount == 0
    {
      this.width := width;
      this.height := height;
      cells := new CellType[width * height](_ => Empty);
      sandCount := 0;
    }

    /** World::IsValid: whether (x, y) names a cell of this world. */
    function IsValid(x: int32, y: int32): (r: bool)
      reads this, cells
      requires Valid()
      ensures r <==> InBounds(width, height, x, y)
      ensures r ==> 0 <= width * y + x < cells.Length
    {
      if x >= 0 && y >= 0 && x < width && y < height then
        IndexInGrid(width, height, x, y);
        true
      else
        false
    }

    /** World::GetCell: the type at (x, y), Empty for a coordinate outside the grid. */
    function GetCell(x: int32, y: int32): (r: CellType)
      reads this, cells
      requires Valid()
      ensures r == CellAt(cells[..], width, height, x, y)
      ensures !InBounds(width, height, x, y) ==> r == Empty
    {
      if IsValid(x, y) then cells[width * y + x] else Empty
    }

    /** World::SetCell: writes t at (x, y) when (x, y) is in range and t
        differs from the current type, adjusting the counter by one. */
    method SetCell(x: int32, y: int32, t: CellType)
      requires Valid()
      modifies this, cells
      ensures Valid()
      ensures State() == Write(old(State()), width, height, x, y, t)
    {
      ghost var before := State();
      if IsValid(x, y) {
        var i := width * y + x;
        if t != cells[i] {
          if t == Sand {
            sandCount := sandCount + 1;
          } else {
            CountSandUpdate(cells[..], i, Empty);
            sandCount := sandCount - 1;
          }
          cells[i] := t;
        }
      }
      WriteKeepsCounter(before, width, height, x, y, t);
    }

    /** World::Update: one tick of the simulation, scanning rows bottom to
        top. The counter is not touched: a tick moves grains without creating
        or destroying any. */
    method Update(frameCount: uint32)
      requires Valid()
      modifies cells
      ensures Valid()
      ensures cells[..] == Tick(old(cells[..]), width, height, frameCount)
    {
      ghost var start := cells[..];
      var y := height - 1;
      while y >= 0
        invariant -1 <= y < height
        invariant cells[..] == VisitRows(start, width, height, frameCount, height - 1 - y)
      {
        ghost var done := height - 1 - y;
        ScanRow(y, frameCount);
        assert cells[..] == VisitRows(start, width, height, frameCount, done + 1);
        y := y - 1;
      }
      TickConservesSand(start, width, height, frameCount);
    }

    /** The inner loop of Update: visits every cell of row y, left to right
        when frameCount is even and right to left when it is odd. */
    method ScanRow(y: int32, frameCount: uint32)
      requires ValidDimensions(width, height) && cells.Length == width * height
      requires 0 <= y < height
      modifies cells
      ensures cells[..] == VisitRow(old(cells[..]), width, height, y, frameCount, width)
    {
      ghost var rowStart := cells[..];
      var flowRight := frameCount % 2 == 0;
      var startX := if flowRight then 0 else width - 1;
      var endX := if flowRight then width else -1;
      var stepX := if flowRight then 1 else -1;
      var x := startX;
      ghost var k := 0;
      while x != endX
        invariant 0 <= k <= width
        invariant x == if flowRight then k else width - 1 - k
        invariant cells[..] == VisitRow(rowStart, width, height, y, frameCount, k)
        decreases width - k
      {
        VisitCellStep(x, y, frameCount);
        x := x + stepX;
        k := k + 1;
      }
    }

    /** The body of Update's inner loop: the rule for the cell at (x, y). */
    method VisitCellStep(x: int32, y: int32, frameCount: uint32)
      requires ValidDimensions(width, height) && cells.Length == width * height
      requires InBounds(width, height, x, y)
      modifies cells
      ensures cells[..] == VisitCell(old(cells[..]), width, height, x, y, frameCount)
    {
      DestinationAtIndices(cells[..], width, height, x, y, frameCount);
      var i := y * width + x;
      if cells[i] == Empty {
        return;
      }
      if y + 1 >= height {
        return;
      }
      var below := (y + 1) * width + x;
      assert below == i + width;
      if cells[below] == Empty {
        MoveGrain(i, below);
      } else {
        var tryLeftFirst := (x + y + frameCount) % 2 == 1;
        var firstDx := if tryLeftFirst then -1 else 1;
        var secondDx := if tryLeftFirst then 1 else -1;
        var belowPrimary := below + firstDx;
        if 0 <= x + firstDx < width && cells[belowPrimary] == Empty {
          MoveGrain(i, belowPrimary);
        } else {
          var belowSecondary := below + secondDx;
          if 0 <= x + secondDx < width && cells[belowSecondary] == Empty {
            MoveGrain(i, belowSecondary);
          }
        }
      }
    }

    /** One move of a grain from an occupied cell to a distinct empty one:
        the destination becomes Sand, then the source becomes Empty, so the
        cells are only permuted and (by CountSandIsMultiplicity) the number
        of Sand cells is unchanged. */
    method MoveGrain(from: int, to: int)
      requires 0 <= from < cells.Length && 0 <= to < cells.Length
      requires from != to && cells[from] == Sand && cells[to] == Empty
      modifies cells
      ensures cells[..] == old(cells[..])[to := Sand][from := Empty]
      ensures multiset(cells[..]) == multiset(old(cells[..]))
    {
      cells[to] := Sand;
      cells[from] := Empty;
    }

    function GetWidth(): (r: int32)
      reads this, cells
      requires Valid()
      ensures r == width && 0 < r && r * height == cells.Length
    {
      width
    }

    function GetHeight(): (r: int32)
      reads this, cells
      requires Valid()
      ensures r == height && 0 < r && width * r == cells.Length
    {
      height
    }

    /** World::GetSandCount: the counter, which is the number of Sand cells. */
    function GetSandCount(): (r: nat)
      reads this, cells
      requires Valid()
      ensures r == CountSand(cells[..])
    {
      sandCount
    }

    /** World::GetCells: a read-only view of all cells, one per coordinate,
        agreeing with GetCell and with the counter. */
    function GetCells(): (r: seq<CellType>)
      reads this, cells
      requires Valid()
      ensures |r| == width * height && CountSand(r) == GetSandCount()
      ensures forall x: int32, y: int32 :: InBounds(width, height, x, y) ==> CellAt(r, width, height, x, y) == GetCell(x, y)
    {
      cells[..]
    }
  }
}
