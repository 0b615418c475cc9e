/** The data model of the world: cell types, grid geometry, the sand count,
    and the meaning of reading (GetCell) and writing (SetCell) one cell,
    stated over the abstract value of a world. */
module Grid {

  /** The two cell types of the world. */
  datatype CellType = Empty | Sand

  /** Machine integers of the interface: coordinates and dimensions are
      int32, the frame counter is uint32. */
  const INT32_MAX: int := 0x7FFF_FFFF
  type int32 = n: int | -0x8000_0000 <= n <= 0x7FFF_FFFF
  type uint32 = n: int | 0 <= n < 0x1_0000_0000

  /** Dimensions a world can be built with: positive, and with a cell
      count (and hence every cell index) that fits in an int32. */
  predicate ValidDimensions(w: int, h: int) {
    0 < w && 0 < h && w * h <= INT32_MAX
  }

  /** The coordinate check of World::IsValid. */
  predicate InBounds(w: int, h: int, x: int, y: int) {
    0 <= x < w && 0 <= y < h
  }

  /** Row-major position of (x, y) in the flat cell vector. */
  function Index(w: int, x: int, y: int): int {
    y * w + x
  }

  lemma MulMono(a: int, b: int, c: int)
    requires a <= b && 0 <= c
    ensures a * c <= b * c
  {
    assert b * c - a * c == (b - a) * c;
  }

  /** Every in-range coordinate has an index inside the vector, inside its
      own row's block of w cells. */
  lemma IndexInGrid(w: int, h: int, x: int, y: int)
    requires InBounds(w, h, x, y)
    ensures y * w <= Index(w, x, y) < (y + 1) * w <= w * h
    ensures 0 <= Index(w, x, y) < w * h
  {
    MulMono(0, y, w);
    MulMono(y + 1, h, w);
  }

  /** Index is a bijection between in-range coordinates and positions:
      decoding a position by division recovers the coordinate. */
  lemma {:induction false} IndexRoundTrip(w: int, x: int, y: int)
    requires 0 <= x < w
    ensures Index(w, x, y) / w == y && Index(w, x, y) % w == x
  {
    var i := Index(w, x, y);
    var q, r := i / w, i % w;
    assert i == q * w + r;
    assert (y - q) * w == r - x;
    if y - q >= 1 {
      MulMono(1, y - q, w);
    } else if y - q <= -1 {
      MulMono(y - q, -1, w);
    }
  }

  /** Two in-range coordinates share an index only if they are equal. */
  lemma IndexInjective(w: int, x: int, y: int, x': int, y': int)
    requires 0 <= x < w && 0 <= x' < w
    requires Index(w, x, y) == Index(w, x', y')
    ensures x == x' && y == y'
  {
    IndexRoundTrip(w, x, y);
    IndexRoundTrip(w, x', y');
  }

  /** 1 for a grain of sand, 0 for an empty cell. */
  function Weight(c: CellType): nat {
    if c == Sand then 1 else 0
  }

  /** The number of Sand cells in s. */
  function CountSand(s: seq<CellType>): (n: nat)
    ensures n <= |s|
    ensures n == 0 <== forall i :: 0 <= i < |s| ==> s[i] == Empty
  {
    if s == [] then 0 else Weight(s[0]) + CountSand(s[1..])
  }

  /** CountSand agrees with the multiplicity of Sand in the multiset of cells. */
  lemma {:induction false} CountSandIsMultiplicity(s: seq<CellType>)
    ensures CountSand(s) == multiset(s)[Sand]
  {
    if s != [] {
      CountSandIsMultiplicity(s[1..]);
      assert s == [s[0]] + s[1..];
    }
  }

  /** Counting distributes over concatenation. */
  lemma {:induction false} CountSandAppend(a: seq<CellType>, b: seq<CellType>)
    ensures CountSand(a + b) == CountSand(a) + CountSand(b)
  {
    if a == [] {
      assert a + b == b;
    } else {
      assert (a + b)[1..] == a[1..] + b;
      CountSandAppend(a[1..], b);
    }
  }

  /** Overwriting one cell changes the count by the new cell's weight minus the old one's. */
  lemma {:induction false} CountSandUpdate(s: seq<CellType>, i: int, v: CellType)
    requires 0 <= i < |s|
    ensures CountSand(s[i := v]) == CountSand(s) - Weight(s[i]) + Weight(v)
  {
    if i > 0 {
      assert s[i := v][1..] == s[1..][i - 1 := v];
      CountSandUpdate(s[1..], i - 1, v);
    } else {
      assert s[i := v][1..] == s[1..];
    }
  }

  /** The abstract value of a world: its cells and its running sand counter. */
  datatype WorldState = WorldState(cells: seq<CellType>, sandCount: int)

  /** The counter invariant: the counter equals the number of Sand cells. */
  predicate CounterInvariant(st: WorldState) {
    st.sandCount == CountSand(st.cells)
  }

  /** What GetCell returns for (x, y) of a w-by-h world with cells s. */
  function CellAt(s: seq<CellType>, w: int, h: int, x: int, y: int): (r: CellType)
    requires |s| == w * h
    ensures !InBounds(w, h, x, y) ==> r == Empty
  {
    if InBounds(w, h, x, y) then
      IndexInGrid(w, h, x, y);
      s[Index(w, x, y)]
    else
      Empty
  }

  /** An in-range read returns the cell stored at index y * w + x, which lies in the vector. */
  lemma CellAtInRange(s: seq<CellType>, w: int, h: int, x: int, y: int)
    requires |s| == w * h && InBounds(w, h, x, y)
    ensures 0 <= Index(w, x, y) < |s| && CellAt(s, w, h, x, y) == s[Index(w, x, y)]
  {
    IndexInGrid(w, h, x, y);
  }

  /** The effect of SetCell(x, y, t) on a w-by-h world. */
  function Write(st: WorldState, w: int, h: int, x: int, y: int, t: CellType): (r: WorldState)
    requires |st.cells| == w * h
    ensures |r.cells| == |st.cells|
    ensures !InBounds(w, h, x, y) ==> r == st
  {
    if InBounds(w, h, x, y) then
      IndexInGrid(w, h, x, y);
      var i := Index(w, x, y);
      if t != st.cells[i] then
        var count := if t == Sand then st.sandCount + 1 else st.sandCount - 1;
        WorldState(st.cells[i := t], count)
      else
        st
    else
      st
  }

  /** Reading after a write: the written coordinate reads back the new type
      (when it is in range); every other coordinate reads as before. */
  lemma ReadAfterWrite(st: WorldState, w: int, h: int, x: int, y: int, t: CellType, x': int, y': int)
    requires |st.cells| == w * h
    ensures CellAt(Write(st, w, h, x, y, t).cells, w, h, x', y') ==
            if InBounds(w, h, x, y) && x' == x && y' == y then t else CellAt(st.cells, w, h, x', y')
  {
    if InBounds(w, h, x, y) && InBounds(w, h, x', y') {
      IndexInGrid(w, h, x, y);
      IndexInGrid(w, h, x', y');
      var i, i' := Index(w, x, y), Index(w, x', y');
      if x' != x || y' != y {
        if i == i' {
          IndexInjective(w, x, y, x', y');
        }
        assert i != i';
      }
    }
  }

  /** A write changes the counter by +1 when a cell becomes Sand, by -1 when
      a Sand cell is cleared, and not at all otherwise. */
  lemma WriteCountDelta(st: WorldState, w: int, h: int, x: int, y: int, t: CellType)
    requires |st.cells| == w * h
    ensures var old_t := CellAt(st.cells, w, h, x, y);
            Write(st, w, h, x, y, t).sandCount ==
              if !InBounds(w, h, x, y) || old_t == t then st.sandCount
              else if t == Sand then st.sandCount + 1
              else st.sandCount - 1
  {
  }

  /** Every write keeps the counter equal to the number of Sand cells. */
  lemma WriteKeepsCounter(st: WorldState, w: int, h: int, x: int, y: int, t: CellType)
    requires |st.cells| == w * h && CounterInvariant(st)
    ensures CounterInvariant(Write(st, w, h, x, y, t))
  {
    if InBounds(w, h, x, y) {
      IndexInGrid(w, h, x, y);
      CountSandUpdate(st.cells, Index(w, x, y), t);
    }
  }

  /** Writing the same type twice is the same as writing it once. */
  lemma WriteIdempotent(st: WorldState, w: int, h: int, x: int, y: int, t: CellType)
    requires |st.cells| == w * h
    ensures var once := Write(st, w, h, x, y, t);
            Write(once, w, h, x, y, t) == once
  {
    if InBounds(w, h, x, y) {
      IndexInGrid(w, h, x, y);
      var i := Index(w, x, y);
      assert Write(st, w, h, x, y, t).cells[i] == t;
    }
  }
}
