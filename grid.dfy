/**
 * Row-major layout of a width-by-height grid: y outer, x inner, so that
 * cell (x, y) lands at position y * width + x. Positions are counted with
 * Area, the number of cells in the rows above, so that the layout reasons
 * by adding one row at a time.
 */
module Grid {

  /** The number of cells in the first h rows of a grid that is w cells wide. */
  function Area(w: nat, h: nat): nat
  {
    if h == 0 then 0 else Area(w, h - 1) + w
  }

  /** h rows of w cells are w * h cells. */
  lemma {:induction false} AreaIsProduct(w: nat, h: nat)
    ensures Area(w, h) == w * h
  {
    if h > 0 {
      AreaIsProduct(w, h - 1);
      assert w * h == w * (h - 1) + w;
    }
  }

  /** More rows hold at least as many cells. */
  lemma {:induction false} AreaMonotone(w: nat, a: nat, b: nat)
    requires a <= b
    ensures Area(w, a) <= Area(w, b)
    decreases b - a
  {
    if a < b {
      AreaMonotone(w, a, b - 1);
    }
  }

  /** The position of cell (x, y) in a row-major grid that is w cells wide and h high. */
  function Index(w: nat, h: nat, x: int, y: int): (k: nat)
    requires 0 <= x < w && 0 <= y < h
    ensures k < Area(w, h)
  {
    AreaMonotone(w, y + 1, h);
    Area(w, y) + x
  }

  /** Cell (x, y) is stored at position y * w + x. */
  lemma IndexFormula(w: nat, h: nat, x: int, y: int)
    requires 0 <= x < w && 0 <= y < h
    ensures Index(w, h, x, y) == y * w + x
  {
    AreaIsProduct(w, y);
  }

  /** Distinct cells of a w-by-h grid have distinct positions. */
  lemma IndexInjective(w: nat, h: nat)
    ensures forall x1, y1, x2, y2 ::
      0 <= x1 < w && 0 <= x2 < w && 0 <= y1 < h && 0 <= y2 < h && Index(w, h, x1, y1) == Index(w, h, x2, y2)
      ==> x1 == x2 && y1 == y2
  {
    forall x1, y1, x2, y2 |
      0 <= x1 < w && 0 <= x2 < w && 0 <= y1 < h && 0 <= y2 < h && Index(w, h, x1, y1) == Index(w, h, x2, y2)
      ensures x1 == x2 && y1 == y2
    {
      if y1 < y2 {
        AreaMonotone(w, y1 + 1, y2);
      } else if y2 < y1 {
        AreaMonotone(w, y2 + 1, y1);
      }
    }
  }

  /** The first n cells of row y, left to right. */
  function Row<T>(g: (int, int) -> T, n: nat, y: int): (r: seq<T>)
    ensures |r| == n
  {
    seq(n, x => g(x, y))
  }

  /** One more cell of the row. */
  lemma RowSnoc<T>(g: (int, int) -> T, n: nat, y: int)
    ensures Row(g, n + 1, y) == Row(g, n, y) + [g(n, y)]
  {
  }

  /** The cells of a w-by-h grid in row-major order: rows 0 .. h-1, each left to right. */
  function RowMajor<T>(g: (int, int) -> T, w: nat, h: nat): (r: seq<T>)
    ensures |r| == Area(w, h)
  {
    if h == 0 then [] else RowMajor(g, w, h - 1) + Row(g, w, h - 1)
  }

  /** Position y * w + x of the row-major sequence holds cell (x, y). */
  lemma {:induction false} RowMajorAt<T>(g: (int, int) -> T, w: nat, h: nat, x: int, y: int)
    requires 0 <= x < w && 0 <= y < h
    ensures RowMajor(g, w, h)[Index(w, h, x, y)] == g(x, y)
  {
    if y < h - 1 {
      RowMajorAt(g, w, h - 1, x, y);
      assert Index(w, h - 1, x, y) == Index(w, h, x, y);
    } else {
      assert Index(w, h, x, y) == |RowMajor(g, w, h - 1)| + x;
    }
  }

  /**
   * A sequence of w * h elements whose position y * w + x holds cell (x, y)
   * for every cell is the row-major sequence of the grid.
   */
  lemma {:induction false} RowMajorUnique<T>(s: seq<T>, g: (int, int) -> T, w: nat, h: nat)
    requires |s| == Area(w, h)
    requires forall x, y :: 0 <= x < w && 0 <= y < h ==> s[Index(w, h, x, y)] == g(x, y)
    ensures s == RowMajor(g, w, h)
    decreases h
  {
    if h > 0 {
      var cut := Area(w, h - 1);
      var prefix, last := s[..cut], s[cut..];
      forall x, y | 0 <= x < w && 0 <= y < h - 1
        ensures prefix[Index(w, h - 1, x, y)] == g(x, y)
      {
        assert Index(w, h - 1, x, y) == Index(w, h, x, y);
      }
      RowMajorUnique(prefix, g, w, h - 1);
      forall x | 0 <= x < w
        ensures last[x] == Row(g, w, h - 1)[x]
      {
        assert Index(w, h, x, h - 1) == cut + x;
      }
      assert s == prefix + last;
    }
  }
}
