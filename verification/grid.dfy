/** The sampling grid (main.py, the two nested loops of `draw_layer`):
    `for y in range(0, h, step): for x in range(0, w, step)`. */
module Grid {

  /** The top-left corner of one sampling cell. */
  datatype Cell = Cell(x: nat, y: nat)

  /** Number of values in `range(0, n, step)` for a positive step, that is ceil(n / step). */
  function Span(n: int, step: nat): nat
    requires 1 <= step
  {
    if n <= 0 then 0 else (n - 1) / step + 1
  }

  /** `for x in range(x, w, step)` at a fixed row `y`. */
  function Row(w: nat, y: nat, step: nat, x: nat): seq<Cell>
    requires 1 <= step
    decreases if x < w then w - x else 0
  {
    if w <= x then [] else [Cell(x, y)] + Row(w, y, step, x + step)
  }

  /** `for y in range(y, h, step)`, each row walked completely before the next. */
  function Rows(w: nat, h: nat, step: nat, y: nat): seq<Cell>
    requires 1 <= step
    decreases if y < h then h - y else 0
  {
    if h <= y then [] else Row(w, y, step, 0) + Rows(w, h, step, y + step)
  }

  /** The cells visited for an image of size w x h. Python's `range` raises
      on a zero step and is empty for a negative one. */
  function Cells(w: nat, h: nat, step: int): seq<Cell>
    requires step != 0
  {
    if step < 0 then [] else Rows(w, h, step, 0)
  }

  /** Row-major order: rows top to bottom, within a row left to right. */
  predicate Before(a: Cell, b: Cell) {
    a.y < b.y || (a.y == b.y && a.x < b.x)
  }

  ghost predicate RowMajor(cs: seq<Cell>) {
    forall i, j :: 0 <= i < j < |cs| ==> Before(cs[i], cs[j])
  }

  /** A cell of the w x h grid with stride `step`: corner inside the image, on a multiple of `step`. */
  predicate OnGrid(c: Cell, w: nat, h: nat, step: nat)
    requires 1 <= step
  {
    c.x < w && c.y < h && c.x % step == 0 && c.y % step == 0
  }

  /** Euclidean division is determined by any quotient/remainder pair. */
  lemma DivModUnique(a: int, d: int, q: int, r: int)
    requires 0 < d && a == q * d + r && 0 <= r < d
    ensures a / d == q && a % d == r
  {
    var q', r' := a / d, a % d;
    assert (q - q') * d == r' - r;
    if q' < q {
      MulAtLeast(q - q', d);
    } else if q < q' {
      MulAtLeast(q' - q, d);
    }
  }

  lemma MulAtLeast(k: int, d: int)
    requires 1 <= k && 0 < d
    ensures d <= k * d
  {
    assert k * d == d + (k - 1) * d;
  }

  /** Removing one stride from a count: ceil(n / step) = 1 + ceil((n - step) / step). */
  lemma SpanStep(n: int, step: nat)
    requires 1 <= step && 0 < n
    ensures Span(n, step) == 1 + Span(n - step, step)
  {
    if step < n {
      var a := n - step - 1;
      DivModUnique(a + step, step, a / step + 1, a % step);
    } else {
      DivModUnique(n - 1, step, 0, n - 1);
    }
  }

  /** Stepping a multiple of `step` by one stride keeps it a multiple. */
  lemma ModStep(a: int, step: nat)
    requires 1 <= step
    ensures (a + step) % step == a % step
  {
    DivModUnique(a + step, step, a / step + 1, a % step);
  }

  /** A positive multiple of `step` is at least `step`. */
  lemma MultipleAtLeast(a: int, step: nat)
    requires 1 <= step && 0 < a && a % step == 0
    ensures step <= a
  {
    if a < step {
      DivModUnique(a, step, 0, a);
    }
  }

  lemma {:induction false} RowLength(w: nat, y: nat, step: nat, x: nat)
    requires 1 <= step
    ensures |Row(w, y, step, x)| == Span(w - x, step)
    decreases if x < w then w - x else 0
  {
    if x < w {
      RowLength(w, y, step, x + step);
      SpanStep(w - x, step);
    }
  }

  lemma {:induction false} RowsLength(w: nat, h: nat, step: nat, y: nat)
    requires 1 <= step
    ensures |Rows(w, h, step, y)| == Span(h - y, step) * Span(w, step)
    decreases if y < h then h - y else 0
  {
    if y < h {
      RowsLength(w, h, step, y + step);
      RowLength(w, y, step, 0);
      SpanStep(h - y, step);
      var n := Span(h - y - step, step);
      assert (1 + n) * Span(w, step) == Span(w, step) + n * Span(w, step);
    }
  }

  /** Exactly the cells x, x + step, ... below w, all on row y. */
  lemma {:induction false} RowMembers(w: nat, y: nat, step: nat, x: nat, c: Cell)
    requires 1 <= step
    ensures c in Row(w, y, step, x) <==> c.y == y && x <= c.x < w && (c.x - x) % step == 0
    decreases if x < w then w - x else 0
  {
    if x < w {
      RowMembers(w, y, step, x + step, c);
      ModStep(c.x - x - step, step);
      if c.y == y && x < c.x < w && (c.x - x) % step == 0 {
        MultipleAtLeast(c.x - x, step);
      }
    }
  }

  /** Exactly the on-stride cells whose row lies in [y, h). */
  lemma {:induction false} RowsMembers(w: nat, h: nat, step: nat, y: nat, c: Cell)
    requires 1 <= step
    ensures c in Rows(w, h, step, y) <==>
      c.x < w && c.x % step == 0 && y <= c.y < h && (c.y - y) % step == 0
    decreases if y < h then h - y else 0
  {
    if y < h {
      RowsMembers(w, h, step, y + step, c);
      RowMembers(w, y, step, 0, c);
      ModStep(c.y - y - step, step);
      if y < c.y < h && (c.y - y) % step == 0 {
        MultipleAtLeast(c.y - y, step);
      }
    }
  }

  /** The walk visits exactly the grid cells: each visited corner lies
      inside the image on multiples of `step`, and every such corner is visited. */
  lemma CellsAreGrid(w: nat, h: nat, step: int, c: Cell)
    requires 1 <= step
    ensures c in Cells(w, h, step) <==> OnGrid(c, w, h, step)
  {
    RowsMembers(w, h, step, 0, c);
  }

  /** The walk visits ceil(h / step) * ceil(w / step) cells. */
  lemma CellCount(w: nat, h: nat, step: int)
    requires 1 <= step
    ensures |Cells(w, h, step)| == Span(h, step) * Span(w, step)
  {
    RowsLength(w, h, step, 0);
  }

  /** A negative stride visits nothing. */
  lemma NegativeStepIsEmpty(w: nat, h: nat, step: int)
    requires step < 0
    ensures Cells(w, h, step) == []
  {
  }

  /** Concatenating two row-major runs, the first wholly before the second, is row-major. */
  lemma RowMajorConcat(a: seq<Cell>, b: seq<Cell>)
    requires RowMajor(a) && RowMajor(b)
    requires forall i, j :: 0 <= i < |a| && 0 <= j < |b| ==> Before(a[i], b[j])
    ensures RowMajor(a + b)
  {
    forall i, j | 0 <= i < j < |a + b|
      ensures Before((a + b)[i], (a + b)[j])
    {
      if j < |a| {
        assert Before(a[i], a[j]);
      } else if i < |a| {
        assert Before(a[i], b[j - |a|]);
      } else {
        assert Before(b[i - |a|], b[j - |a|]);
      }
    }
  }

  /** Dropping the first cell of a row-major list leaves a row-major list, all after that cell. */
  lemma RowMajorTail(cs: seq<Cell>)
    requires RowMajor(cs) && |cs| > 0
    ensures RowMajor(cs[1..])
    ensures forall c :: c in cs[1..] ==> Before(cs[0], c)
  {
    forall i, j | 0 <= i < j < |cs[1..]|
      ensures Before(cs[1..][i], cs[1..][j])
    {
      assert Before(cs[i + 1], cs[j + 1]);
    }
    forall c | c in cs[1..]
      ensures Before(cs[0], c)
    {
      var m :| 0 <= m < |cs[1..]| && cs[1..][m] == c;
      assert Before(cs[0], cs[m + 1]);
    }
  }

  /** A cell before every cell of a row-major list can be put in front of it. */
  lemma RowMajorPrepend(c: Cell, cs: seq<Cell>)
    requires RowMajor(cs)
    requires forall c' :: c' in cs ==> Before(c, c')
    ensures RowMajor([c] + cs)
  {
    forall j | 0 <= j < |cs|
      ensures Before(c, cs[j])
    {
      assert cs[j] in cs;
    }
    RowMajorConcat([c], cs);
  }

  lemma {:induction false} RowRowMajor(w: nat, y: nat, step: nat, x: nat)
    requires 1 <= step
    ensures RowMajor(Row(w, y, step, x))
    decreases if x < w then w - x else 0
  {
    if x < w {
      var rest := Row(w, y, step, x + step);
      RowRowMajor(w, y, step, x + step);
      forall j | 0 <= j < |rest|
        ensures Before(Cell(x, y), rest[j])
      {
        RowMembers(w, y, step, x + step, rest[j]);
      }
      RowMajorConcat([Cell(x, y)], rest);
    }
  }

  lemma {:induction false} RowsRowMajor(w: nat, h: nat, step: nat, y: nat)
    requires 1 <= step
    ensures RowMajor(Rows(w, h, step, y))
    decreases if y < h then h - y else 0
  {
    if y < h {
      var row := Row(w, y, step, 0);
      var rest := Rows(w, h, step, y + step);
      RowRowMajor(w, y, step, 0);
      RowsRowMajor(w, h, step, y + step);
      forall i, j | 0 <= i < |row| && 0 <= j < |rest|
        ensures Before(row[i], rest[j])
      {
        RowMembers(w, y, step, 0, row[i]);
        RowsMembers(w, h, step, y + step, rest[j]);
      }
      RowMajorConcat(row, rest);
    }
  }

  /** Rows are walked outer and columns inner: the cells come in strict row-major order. */
  lemma CellsRowMajor(w: nat, h: nat, step: int)
    requires step != 0
    ensures RowMajor(Cells(w, h, step))
  {
    if 0 < step {
      RowsRowMajor(w, h, step, 0);
    }
  }
}
