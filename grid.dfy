/**
 * Geometry of a grid filled row by row: the 1-based child position `i` of
 * a grid with `cols` equal-width columns sits in 0-based row `Row(i, cols)`
 * and 0-based column `Col(i, cols)`.
 */
module Grid {

  function Row(i: int, cols: int): int
    requires cols >= 1
  {
    (i - 1) / cols
  }

  function Col(i: int, cols: int): int
    requires cols >= 1
  {
    (i - 1) % cols
  }

  /** Position of the first cell of the row that holds the last of `total` children. */
  function LastRowStart(total: int, cols: int): int
    requires cols >= 1
  {
    total - Col(total, cols)
  }

  /** Euclidean division has one quotient and one remainder. */
  lemma DivModUnique(x: int, d: int, q: int, r: int)
    requires d >= 1 && 0 <= r < d && x == d * q + r
    ensures x / d == q && x % d == r
  {
    var k := q - x / d;
    assert d * k == x % d - r;
    MultipleOutside(d, k);
  }

  /** A non-zero multiple of `d` is at least `d` away from zero. */
  lemma MultipleOutside(d: int, k: int)
    requires d >= 1
    ensures k >= 1 ==> d * k >= d
    ensures k <= -1 ==> d * k <= -d
  {
  }

  /** A position and its row and column determine each other. */
  lemma PlaceOf(i: int, cols: int, row: int, col: int)
    requires cols >= 1 && 0 <= col < cols && i - 1 == cols * row + col
    ensures Row(i, cols) == row && Col(i, cols) == col
  {
    DivModUnique(i - 1, cols, row, col);
  }

  /**
   * The last row starts at a first-column cell no later than `total` and
   * fewer than `cols` places before its end, and no later cell up to
   * `total` is in the first column.
   */
  lemma LastRowStartIsLastFirstColumnCell(total: int, cols: int)
    requires total >= 1 && cols >= 1
    ensures var s := LastRowStart(total, cols);
      && total - cols < s <= total
      && s >= 1
      && Col(s, cols) == 0
      && Row(s, cols) == Row(total, cols)
      && forall i :: s < i <= total ==> Col(i, cols) != 0
  {
    var s := LastRowStart(total, cols);
    var b := Row(total, cols);
    assert s - 1 == cols * b + 0;
    PlaceOf(s, cols, b, 0);
    assert b >= 0;
    assert cols * b >= 0;
    forall i | s < i <= total
      ensures Col(i, cols) != 0
    {
      PlaceOf(i, cols, b, i - s);
    }
  }

  /** A cell is in the last row exactly when it is at or after the last row's start. */
  lemma InLastRowIff(i: int, total: int, cols: int)
    requires cols >= 1 && 1 <= i <= total
    ensures Row(i, cols) == Row(total, cols) <==> i >= LastRowStart(total, cols)
    ensures Row(i, cols) <= Row(total, cols)
  {
    var s := LastRowStart(total, cols);
    var b := Row(total, cols);
    var a := Row(i, cols);
    assert i - 1 == cols * a + Col(i, cols);
    assert total - 1 == cols * b + Col(total, cols);
    if i >= s {
      PlaceOf(i, cols, b, i - s);
    }
  }

  /** The cells of the second-to-last row with no cell directly below. */
  predicate Overhangs(i: int, total: int, cols: int)
    requires cols >= 1
  {
    Row(i, cols) + 1 == Row(total, cols) && i + cols > total
  }

  /**
   * The cells strictly between `total - cols` and the last row's start are
   * exactly the cells of the second-to-last row with no cell below them.
   */
  lemma OverhangIff(i: int, total: int, cols: int)
    requires cols >= 1 && 1 <= i <= total
    ensures total - cols < i < LastRowStart(total, cols) <==> Overhangs(i, total, cols)
  {
    var s := LastRowStart(total, cols);
    var b := Row(total, cols);
    assert total - 1 == cols * b + Col(total, cols);
    if total - cols < i < s {
      assert cols * (b - 1) < i - 1 < cols * b;
      PlaceOf(i, cols, b - 1, i - 1 - cols * (b - 1));
    }
    if Row(i, cols) + 1 == Row(total, cols) {
      assert i - 1 == cols * (b - 1) + Col(i, cols);
    }
  }
}
