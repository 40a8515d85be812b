/** The 8-byte occupancy bitmap of `ChunkUtilImpl`: byte `y` is row `y`, bit
    `x` of that byte marks cell (x, y) as occupied.  `IsEmpty`, `GetPos` and
    `GetSize` follow the Java code, including its sign-extending byte
    arithmetic; `Count` and `Rank` are the row-major population count and
    rank that the dense encoding needs. */
module Bitmap {
  import opened JavaInt

  /** The eight row bytes of one layer of one chunk. */
  type Rows = s: seq<Byte> | |s| == 8 witness [0, 0, 0, 0, 0, 0, 0, 0]

  /** Per-column masks.  The last one is the Java byte -128, whose pattern is
      0x80 and which widens to the int 0xFFFFFF80. */
  const INDEX: seq<Byte> := [0x01, 0x02, 0x04, 0x08, 0x10, 0x20, 0x40, 0x80]

  /** The masks are the Java bytes 1, 2, 4, ..., 64, -128. */
  lemma IndexValues()
    ensures forall i :: 0 <= i < 8 ==> SignedValue(INDEX[i]) == [1, 2, 4, 8, 16, 32, 64, -128][i]
  {
    assert SignedValue(INDEX[7]) == -128;
  }

  function Min(a: int, b: int): (m: int)
    ensures m <= a && m <= b && (m == a || m == b)
  {
    if a <= b then a else b
  }

  /** Reference meaning of the bitmap: bit `x` of `row`, read as unsigned. */
  predicate Bit(row: Byte, x: nat)
    requires x < 8
  {
    (row >> x) & 1 == 1
  }

  /** `isEmpty(rows, x, y)`: `((rows[y] & INDEX[x]) >>> x) == 0` on
      sign-extended operands.  Correct for every column, including 7. */
  function IsEmpty(rows: Rows, x: int, y: int): (r: bool)
    requires 0 <= x <= 7 && 0 <= y <= 7
    ensures r <==> !Bit(rows[y], x)
  {
    (SignExtend(rows[y]) & SignExtend(INDEX[x])) >> x == 0
  }

  /** The test `((row & INDEX[x]) >>> x) == 1` that `getPos` and `getSize`
      use.  For column 7 the shifted value is 0x1FFFFFF when the bit is set,
      so that column is never counted. */
  function Counted(row: Byte, x: nat): (r: bool)
    requires x < 8
    ensures r <==> x < 7 && Bit(row, x)
  {
    (SignExtend(row) & SignExtend(INDEX[x])) >> x == 1
  }

  /** Number of set bits of `row` among columns 0 .. w-1. */
  function RowPop(row: Byte, w: nat): (n: nat)
    requires w <= 8
    ensures n <= w
  {
    if w == 0 then 0 else RowPop(row, w - 1) + (if Bit(row, w - 1) then 1 else 0)
  }

  /** Number of set bits in the rectangle of columns 0 .. w-1 and rows 0 .. h-1. */
  function Rect(rows: Rows, w: nat, h: nat): (n: nat)
    requires w <= 8 && h <= 8
    ensures n <= w * h
  {
    if h == 0 then 0 else Rect(rows, w, h - 1) + RowPop(rows[h - 1], w)
  }

  /** Occupancy of the cell with row-major index `i` (cell (i % 8, i / 8)). */
  predicate Occupied(rows: Rows, i: nat)
    requires i < 64
  {
    Bit(rows[i / 8], i % 8)
  }

  /** Number of occupied cells among the first `n` in row-major order. */
  function Prefix(rows: Rows, n: nat): (k: nat)
    requires n <= 64
    ensures k <= n
  {
    if n == 0 then 0 else Prefix(rows, n - 1) + (if Occupied(rows, n - 1) then 1 else 0)
  }

  // ---------------------------------------------------------------------
  // The Java loops as written
  // ---------------------------------------------------------------------

  /** `getPos(rows, x, y)`: counts the set bits of the rectangle of columns
      0..x and rows 0..y, except column 7, minus one. */
  method GetPos(rows: Rows, x: int, y: int) returns (pos: int)
    requires 0 <= x <= 7 && 0 <= y <= 7
    ensures pos == Rect(rows, Min(x + 1, 7), y + 1) - 1
    ensures -1 <= pos <= Rect(rows, 7, 8) - 1
    ensures !IsEmpty(rows, x, y) && x <= 6 ==> pos >= 0
  {
    pos := -1;
    var yIndex := 0;
    while yIndex <= y
      invariant 0 <= yIndex <= y + 1
      invariant pos == Rect(rows, Min(x + 1, 7), yIndex) - 1
    {
      var row := rows[yIndex];
      var xIndex := 0;
      while xIndex <= x
        invariant 0 <= xIndex <= x + 1
        invariant pos == Rect(rows, Min(x + 1, 7), yIndex) + RowPop(row, Min(xIndex, 7)) - 1
      {
        if Counted(row, xIndex) {
          pos := pos + 1;
        }
        xIndex := xIndex + 1;
      }
      yIndex := yIndex + 1;
    }
    RectMonotone(rows, Min(x + 1, 7), y + 1, 7, 8);
    if !IsEmpty(rows, x, y) && x <= 6 {
      RowPopCovers(rows[y], x, x + 1);
    }
  }

  /** `getSize(rows)`: the number of set bits in columns 0..6 of all rows;
      set bits in column 7 are not counted. */
  method GetSize(rows: Rows) returns (count: int)
    ensures count == Rect(rows, 7, 8)
    ensures 0 <= count <= 56
    ensures count == Prefix(rows, 64) <==> forall y :: 0 <= y < 8 ==> !Bit(rows[y], 7)
  {
    count := 0;
    var yIndex := 0;
    while yIndex <= 7
      invariant 0 <= yIndex <= 8
      invariant count == Rect(rows, 7, yIndex)
    {
      var row := rows[yIndex];
      var xIndex := 0;
      while xIndex <= 7
        invariant 0 <= xIndex <= 8
        invariant count == Rect(rows, 7, yIndex) + RowPop(row, Min(xIndex, 7))
      {
        if Counted(row, xIndex) {
          count := count + 1;
        }
        xIndex := xIndex + 1;
      }
      yIndex := yIndex + 1;
    }
    CountIsFullRect(rows);
    SizeMissesColumnSeven(rows, 8);
  }

  // ---------------------------------------------------------------------
  // Row-major count and rank
  // ---------------------------------------------------------------------

  /** Number of occupied cells, visiting them in row-major order with the
      `isEmpty` test. */
  method Count(rows: Rows) returns (count: int)
    ensures count == Prefix(rows, 64)
    ensures count == Rect(rows, 8, 8)
    ensures 0 <= count <= 64
  {
    count := 0;
    var y := 0;
    while y <= 7
      invariant 0 <= y <= 8
      invariant count == Prefix(rows, 8 * y)
    {
      var x := 0;
      while x <= 7
        invariant 0 <= x <= 8
        invariant count == Prefix(rows, 8 * y + x)
      {
        IsEmptyIsOccupancy(rows, x, y);
        if !IsEmpty(rows, x, y) {
          count := count + 1;
        }
        x := x + 1;
      }
      y := y + 1;
    }
    CountIsFullRect(rows);
  }

  /** Zero-based position of the occupied cell (x, y) among all occupied
      cells in row-major order.  Asking for an empty cell is a caller error. */
  method Rank(rows: Rows, x: int, y: int) returns (pos: int)
    requires 0 <= x <= 7 && 0 <= y <= 7
    requires !IsEmpty(rows, x, y)
    ensures pos == Prefix(rows, 8 * y + x + 1) - 1
    ensures 0 <= pos < Prefix(rows, 64)
  {
    var last := 8 * y + x;
    IsEmptyIsOccupancy(rows, x, y);
    pos := -1;
    var i := 0;
    while i <= last
      invariant 0 <= i <= last + 1
      invariant pos == Prefix(rows, i) - 1
    {
      var empty := IsEmptyAt(rows, i);
      if !empty {
        pos := pos + 1;
      }
      i := i + 1;
    }
    PrefixMonotone(rows, last + 1, 64);
  }

  /** `isEmpty` at the cell with row-major index `i`. */
  function IsEmptyAt(rows: Rows, i: nat): (r: bool)
    requires i < 64
    ensures r <==> !Occupied(rows, i)
  {
    CellOfIndex(i);
    IsEmpty(rows, i % 8, i / 8)
  }

  /** The cell of row-major index `i` is (i % 8, i / 8), inside the chunk. */
  lemma CellOfIndex(i: nat)
    requires i < 64
    ensures 0 <= i % 8 <= 7 && 0 <= i / 8 <= 7 && 8 * (i / 8) + i % 8 == i
  {
  }

  // ---------------------------------------------------------------------
  // Lemmas
  // ---------------------------------------------------------------------

  /** A set bit at column c < w contributes to the population of columns 0..w-1. */
  lemma {:induction false} RowPopCovers(row: Byte, c: nat, w: nat)
    requires c < w <= 8
    requires Bit(row, c)
    ensures RowPop(row, w) >= 1
  {
    if w - 1 != c {
      RowPopCovers(row, c, w - 1);
    }
  }

  lemma {:induction false} RowPopMonotone(row: Byte, w1: nat, w2: nat)
    requires w1 <= w2 <= 8
    ensures RowPop(row, w1) <= RowPop(row, w2)
  {
    if w1 < w2 {
      RowPopMonotone(row, w1, w2 - 1);
    }
  }

  /** A larger rectangle holds at least as many set bits. */
  lemma {:induction false} RectMonotone(rows: Rows, w1: nat, h1: nat, w2: nat, h2: nat)
    requires w1 <= w2 <= 8 && h1 <= h2 <= 8
    ensures Rect(rows, w1, h1) <= Rect(rows, w2, h2)
  {
    if h2 > h1 {
      RectMonotone(rows, w1, h1, w2, h2 - 1);
    } else if h1 > 0 {
      RectMonotone(rows, w1, h1 - 1, w2, h2 - 1);
      RowPopMonotone(rows[h1 - 1], w1, w2);
    }
  }

  lemma {:induction false} PrefixMonotone(rows: Rows, n1: nat, n2: nat)
    requires n1 <= n2 <= 64
    ensures Prefix(rows, n1) <= Prefix(rows, n2)
  {
    if n1 < n2 {
      PrefixMonotone(rows, n1, n2 - 1);
    }
  }

  /** Row-major prefixes that end on a row boundary cover full-width rectangles. */
  lemma {:induction false} PrefixRowBoundary(rows: Rows, h: nat, c: nat)
    requires h < 8 && c <= 8
    ensures Prefix(rows, 8 * h + c) == Rect(rows, 8, h) + RowPop(rows[h], c)
  {
    if c > 0 {
      PrefixRowBoundary(rows, h, c - 1);
      assert (8 * h + c - 1) / 8 == h && (8 * h + c - 1) % 8 == c - 1;
    } else if h > 0 {
      PrefixRowBoundary(rows, h - 1, 8);
    }
  }

  /** The row-major count and the full 8 x 8 rectangle agree. */
  lemma CountIsFullRect(rows: Rows)
    ensures Prefix(rows, 64) == Rect(rows, 8, 8)
  {
    PrefixRowBoundary(rows, 7, 8);
  }

  /** Number of rows among the first `h` whose column-7 bit is set. */
  function HighBitRows(rows: Rows, h: nat): (n: nat)
    requires h <= 8
    ensures n <= h
  {
    if h == 0 then 0 else HighBitRows(rows, h - 1) + (if Bit(rows[h - 1], 7) then 1 else 0)
  }

  /** Dropping column 7 loses exactly the rows whose high bit is set, so the
      seven-column count equals the full count iff no row has bit 7 set. */
  lemma {:induction false} SizeMissesColumnSeven(rows: Rows, h: nat)
    requires h <= 8
    ensures Rect(rows, 8, h) == Rect(rows, 7, h) + HighBitRows(rows, h)
    ensures Rect(rows, 8, h) == Rect(rows, 7, h) <==> forall y :: 0 <= y < h ==> !Bit(rows[y], 7)
  {
    if h > 0 {
      SizeMissesColumnSeven(rows, h - 1);
    }
  }

  /** A single set bit in column 7 is a cell `isEmpty` reports occupied but
      `getSize` does not count, and whose `getPos` value is -1. */
  lemma ColumnSevenExample()
    ensures var rows: Rows := [0x80, 0, 0, 0, 0, 0, 0, 0];
      && !IsEmpty(rows, 7, 0)
      && Rect(rows, 7, 8) == 0
      && Prefix(rows, 64) == 1
      && Rect(rows, Min(7 + 1, 7), 1) - 1 == -1
  {
    var rows: Rows := [0x80, 0, 0, 0, 0, 0, 0, 0];
    assert RowPop(rows[0], 7) == 0;
    assert Rect(rows, 7, 1) == 0;
    CountIsFullRect(rows);
    SizeMissesColumnSeven(rows, 8);
  }

  /** The rectangle count gives two distinct occupied cells, (5, 0) and
      (0, 1), the same `getPos` value 0. */
  lemma GetPosCollision()
    ensures var rows: Rows := [0x20, 0x01, 0, 0, 0, 0, 0, 0];
      && !IsEmpty(rows, 5, 0) && !IsEmpty(rows, 0, 1)
      && Rect(rows, Min(5 + 1, 7), 0 + 1) - 1 == 0
      && Rect(rows, Min(0 + 1, 7), 1 + 1) - 1 == 0
  {
  }

  /** On row 0, away from column 7, `getPos` agrees with the row-major rank. */
  lemma GetPosFirstRowIsRank(rows: Rows, x: nat)
    requires x <= 6
    ensures Rect(rows, Min(x + 1, 7), 1) == Prefix(rows, x + 1)
  {
    PrefixRowBoundary(rows, 0, x + 1);
  }

  /** On any later row it can differ: with bits at (7, 0) and (0, 1) the
      rectangle count at (0, 1) is 1 while the row-major prefix is 2. */
  lemma GetPosLaterRowIsNotRank()
    ensures var rows: Rows := [0x80, 0x01, 0, 0, 0, 0, 0, 0];
      && !IsEmpty(rows, 0, 1)
      && Rect(rows, Min(0 + 1, 7), 1 + 1) - 1 == 0
      && Prefix(rows, 8 * 1 + 0 + 1) - 1 == 1
  {
  }

  /** Rank is strictly increasing over occupied cells in row-major order, so
      distinct occupied cells get distinct positions. */
  lemma {:induction false} RankStrictlyIncreasing(rows: Rows, i: nat, j: nat)
    requires i < j < 64
    requires Occupied(rows, j)
    ensures Prefix(rows, i + 1) < Prefix(rows, j + 1)
  {
    PrefixMonotone(rows, i + 1, j);
  }

  /** Every position 0 .. count-1 is the rank of some occupied cell. */
  lemma {:induction false} RankOnto(rows: Rows, n: nat, k: nat)
    requires n <= 64
    requires k < Prefix(rows, n)
    ensures exists i :: 0 <= i < n && Occupied(rows, i) && Prefix(rows, i + 1) == k + 1
  {
    if k < Prefix(rows, n - 1) {
      RankOnto(rows, n - 1, k);
    } else {
      assert Occupied(rows, n - 1) && Prefix(rows, n) == k + 1;
    }
  }

  /** `isEmpty` and the row-major occupancy describe the same cells. */
  lemma IsEmptyIsOccupancy(rows: Rows, x: nat, y: nat)
    requires x <= 7 && y <= 7
    ensures !IsEmpty(rows, x, y) <==> Occupied(rows, 8 * y + x)
  {
    assert (8 * y + x) / 8 == y && (8 * y + x) % 8 == x;
  }
}
