/** The nonzero cells of a matrix, counted row by row and listed column by column. */
module Find3 {

  /** A matrix as stored: row after row. */
  class Matrix {
    const height: nat
    const width: nat
    const data: array<real>

    ghost predicate Valid() { data.Length == height * width }

    constructor (rows: nat, cols: nat, val: real)
      ensures Valid() && height == rows && width == cols && fresh(data)
      ensures forall k :: 0 <= k < data.Length ==> data[k] == val
    {
      NonNegative(rows, cols);
      height, width := rows, cols;
      data := new real[rows * cols](_ => val);
    }

    method Get(i: nat, j: nat) returns (v: real)
      requires Valid() && i < height && j < width
      ensures v == Cell(data[..], width, i, j)
    {
      Inside(i, j, height, width);
      v := data[i * width + j];
    }
  }

  lemma NonNegative(a: nat, b: nat)
    ensures a * b >= 0
  {
  }

  lemma Inside(i: nat, j: nat, h: nat, w: nat)
    requires i < h && j < w
    ensures 0 <= i * w + j < h * w
  {
    assert h * w == i * w + w + (h - 1 - i) * w;
    NonNegative(h - 1 - i, w);
    NonNegative(i, w);
  }

  function Cell(d: seq<real>, w: nat, i: nat, j: nat): real
  {
    var k := i * w + j;
    if 0 <= k < |d| then d[k] else 0.0
  }

  function One(d: seq<real>, w: nat, i: nat, j: nat): nat { if Cell(d, w, i, j) != 0.0 then 1 else 0 }

  // ---- counting by rows and by columns ----

  /** Nonzero cells among the first `n` of row `i`. */
  function InRow(d: seq<real>, w: nat, i: nat, n: nat): nat
  {
    if n == 0 then 0 else InRow(d, w, i, n - 1) + One(d, w, i, n - 1)
  }

  function InRows(d: seq<real>, w: nat, m: nat, n: nat): nat
  {
    if m == 0 then 0 else InRows(d, w, m - 1, n) + InRow(d, w, m - 1, n)
  }

  /** Nonzero cells among the first `m` of column `j`. */
  function InColumn(d: seq<real>, w: nat, j: nat, m: nat): nat
  {
    if m == 0 then 0 else InColumn(d, w, j, m - 1) + One(d, w, m - 1, j)
  }

  function InColumns(d: seq<real>, w: nat, m: nat, n: nat): nat
  {
    if n == 0 then 0 else InColumns(d, w, m, n - 1) + InColumn(d, w, n - 1, m)
  }

  lemma {:induction false} OneMoreColumn(d: seq<real>, w: nat, m: nat, n: nat)
    ensures InRows(d, w, m, n + 1) == InRows(d, w, m, n) + InColumn(d, w, n, m)
    decreases m
  {
    if m > 0 {
      OneMoreColumn(d, w, m - 1, n);
    }
  }

  /** The row-major count is the column-major one. */
  lemma {:induction false} CountsAgree(d: seq<real>, w: nat, m: nat, n: nat)
    ensures InRows(d, w, m, n) == InColumns(d, w, m, n)
    decreases n
  {
    if n == 0 {
      NoColumns(d, w, m);
    } else {
      CountsAgree(d, w, m, n - 1);
      OneMoreColumn(d, w, m, n - 1);
    }
  }

  lemma {:induction false} NoColumns(d: seq<real>, w: nat, m: nat)
    ensures InRows(d, w, m, 0) == 0
    decreases m
  {
    if m > 0 {
      NoColumns(d, w, m - 1);
    }
  }

  // ---- the list ----

  datatype Point = Point(col: nat, row: nat, value: real)

  /** Nonzero cells among the first `m` of column `j`, top to bottom. */
  function ColumnList(d: seq<real>, w: nat, j: nat, m: nat): (ps: seq<Point>)
    ensures |ps| == InColumn(d, w, j, m)
  {
    if m == 0 then []
    else
      ColumnList(d, w, j, m - 1)
      + (if Cell(d, w, m - 1, j) != 0.0 then [Point(j, m - 1, Cell(d, w, m - 1, j))] else [])
  }

  /** Nonzero cells of the first `n` columns, column after column. */
  function List(d: seq<real>, w: nat, m: nat, n: nat): (ps: seq<Point>)
    ensures |ps| == InColumns(d, w, m, n)
  {
    if n == 0 then [] else List(d, w, m, n - 1) + ColumnList(d, w, n - 1, m)
  }

  predicate Before(p: Point, q: Point) { p.col < q.col || (p.col == q.col && p.row < q.row) }

  ghost predicate Ordered(ps: seq<Point>) { forall a, b :: 0 <= a < b < |ps| ==> Before(ps[a], ps[b]) }

  /** A nonzero cell of the matrix's first `m` rows and `n` columns. */
  predicate IsPoint(d: seq<real>, w: nat, m: nat, n: nat, p: Point)
  {
    p.row < m && p.col < n && p.value == Cell(d, w, p.row, p.col) && p.value != 0.0
  }

  lemma {:induction false} ColumnListIs(d: seq<real>, w: nat, j: nat, m: nat)
    ensures Ordered(ColumnList(d, w, j, m))
    ensures forall p :: p in ColumnList(d, w, j, m) <==> p.col == j && IsPoint(d, w, m, j + 1, p)
    decreases m
  {
    if m > 0 {
      ColumnListIs(d, w, j, m - 1);
      var l := ColumnList(d, w, j, m - 1);
      forall a | 0 <= a < |l| ensures l[a].row < m - 1 && l[a].col == j {
        assert l[a] in l;
      }
    }
  }

  /** The list is every nonzero cell, each once, in column-major order. */
  lemma {:induction false} ListIs(d: seq<real>, w: nat, m: nat, n: nat)
    ensures Ordered(List(d, w, m, n))
    ensures forall p :: p in List(d, w, m, n) <==> IsPoint(d, w, m, n, p)
    decreases n
  {
    if n > 0 {
      ListIs(d, w, m, n - 1);
      ColumnListIs(d, w, n - 1, m);
      var l, c := List(d, w, m, n - 1), ColumnList(d, w, n - 1, m);
      forall a | 0 <= a < |l| ensures l[a].col < n - 1 {
        assert l[a] in l;
      }
      forall a | 0 <= a < |c| ensures c[a].col == n - 1 {
        assert c[a] in c;
      }
    }
  }

  // ---- the result, word by word ----

  /** Row `k` of a result of three columns. */
  ghost predicate Triple(points: seq<real>, k: nat, col: nat, row: nat, value: real)
  {
    3 * k + 3 <= |points| && points[3 * k] == col as real && points[3 * k + 1] == row as real
    && points[3 * k + 2] == value
  }

  /** The cell in row `i` and column `j` of an `h` by `w` matrix stored row after row is not zero, and row `k` of
      the result holds it. */
  ghost predicate HoldsCell(points: seq<real>, d: seq<real>, h: nat, w: nat, k: nat, i: nat, j: nat)
  {
    i < h && j < w && 0 <= i * w + j < |d| && d[i * w + j] != 0.0 && Triple(points, k, j, i, d[i * w + j])
  }

  lemma CellAt(d: seq<real>, h: nat, w: nat, i: nat, j: nat)
    requires |d| == h * w && i < h && j < w
    ensures 0 <= i * w + j < |d| && Cell(d, w, i, j) == d[i * w + j]
  {
    Inside(i, j, h, w);
  }

  /** Every row of the result holds a nonzero cell. */
  lemma RowIsCell(points: seq<real>, d: seq<real>, h: nat, w: nat, k: nat) returns (i: nat, j: nat)
    requires |d| == h * w && Holds(points, List(d, w, h, w)) && 3 * k < |points| == 3 * |List(d, w, h, w)|
    ensures HoldsCell(points, d, h, w, k, i, j)
  {
    var ps := List(d, w, h, w);
    ListIs(d, w, h, w);
    var p := ps[k];
    i, j := p.row, p.col;
    assert p in ps && HoldsAt(points, ps, k);
    CellAt(d, h, w, i, j);
  }

  /** Every nonzero cell is in one. */
  lemma CellIsInRow(points: seq<real>, d: seq<real>, h: nat, w: nat, i: nat, j: nat) returns (k: nat)
    requires |d| == h * w && Holds(points, List(d, w, h, w)) && |points| == 3 * |List(d, w, h, w)|
    requires i < h && j < w && (0 <= i * w + j < |d| ==> d[i * w + j] != 0.0)
    ensures HoldsCell(points, d, h, w, k, i, j)
  {
    var ps := List(d, w, h, w);
    ListIs(d, w, h, w);
    CellAt(d, h, w, i, j);
    var p := Point(j, i, d[i * w + j]);
    assert p in ps;
    k :| 0 <= k < |ps| && ps[k] == p;
    assert HoldsAt(points, ps, k);
  }

  /** They are in order of column, and of row within a column. */
  lemma RowsInOrder(points: seq<real>, d: seq<real>, h: nat, w: nat, a: nat, b: nat)
    requires Holds(points, List(d, w, h, w)) && a < b && 3 * b < |points| == 3 * |List(d, w, h, w)|
    ensures points[3 * a] < points[3 * b]
      || (points[3 * a] == points[3 * b] && points[3 * a + 1] < points[3 * b + 1])
  {
    var ps := List(d, w, h, w);
    ListIs(d, w, h, w);
    assert Before(ps[a], ps[b]) && HoldsAt(points, ps, a) && HoldsAt(points, ps, b);
  }

  // ---- the algorithm ----

  /** The rows of the result, as stored. */
  ghost predicate Holds(points: seq<real>, ps: seq<Point>)
  {
    forall k :: 0 <= k < |ps| ==> HoldsAt(points, ps, k)
  }

  predicate HoldsAt(points: seq<real>, ps: seq<Point>, k: nat)
    requires k < |ps|
  {
    3 * k + 3 <= |points| && points[3 * k] == ps[k].col as real && points[3 * k + 1] == ps[k].row as real
    && points[3 * k + 2] == ps[k].value
  }

  lemma {:induction false} ColumnGrows(d: seq<real>, w: nat, j: nat, i: nat, m: nat)
    requires i <= m
    ensures InColumn(d, w, j, i) <= InColumn(d, w, j, m)
    decreases m - i
  {
    if i < m {
      ColumnGrows(d, w, j, i, m - 1);
    }
  }

  lemma {:induction false} ColumnsGrow(d: seq<real>, w: nat, m: nat, j: nat, n: nat)
    requires j <= n
    ensures InColumns(d, w, m, j) <= InColumns(d, w, m, n)
    decreases n - j
  {
    if j < n {
      ColumnsGrow(d, w, m, j, n - 1);
    }
  }

  /** There is a row left for every nonzero cell that is reached. */
  lemma RoomFor(d: seq<real>, w: nat, m: nat, n: nat, j: nat, i: nat)
    requires i < m && j < n && Cell(d, w, i, j) != 0.0
    ensures InColumns(d, w, m, j) + InColumn(d, w, j, i) < InColumns(d, w, m, n)
  {
    ColumnGrows(d, w, j, i + 1, m);
    ColumnsGrow(d, w, m, j + 1, n);
  }

  lemma AddsRow(b: seq<real>, ps: seq<Point>, p: Point)
    requires Holds(b, ps) && 3 * |ps| + 3 <= |b|
    ensures var k := 3 * |ps|;
      Holds(b[k := p.col as real][k + 1 := p.row as real][k + 2 := p.value], ps + [p])
  {
    var k := 3 * |ps|;
    var b' := b[k := p.col as real][k + 1 := p.row as real][k + 2 := p.value];
    forall x | 0 <= x < |ps| + 1 ensures HoldsAt(b', ps + [p], x) {
      assert x < |ps| ==> HoldsAt(b, ps, x);
    }
  }

  method CountRows(a: Matrix) returns (r: nat)
    requires a.Valid()
    ensures r == InRows(a.data[..], a.width, a.height, a.width)
  {
    r := 0;
    var i := 0;
    while i < a.height
      invariant 0 <= i <= a.height && r == InRows(a.data[..], a.width, i, a.width)
    {
      ghost var before := r;
      var j := 0;
      while j < a.width
        invariant 0 <= j <= a.width && r == before + InRow(a.data[..], a.width, i, j)
      {
        var v := a.Get(i, j);
        if v != 0.0 {
          r := r + 1;
        }
        j := j + 1;
      }
      i := i + 1;
    }
  }

  /** All nonzero cells; the rows counted are exactly the rows filled. */
  method Find3(a: Matrix) returns (points: Matrix)
    requires a.Valid()
    ensures points.Valid() && fresh(points) && points.width == 3
    ensures var ps := List(a.data[..], a.width, a.height, a.width);
      points.height == |ps| && Holds(points.data[..], ps)
  {
    var r := CountRows(a);
    ghost var d := a.data[..];
    CountsAgree(d, a.width, a.height, a.width);
    points := new Matrix(r, 3, 0.0);
    var k, j := 0, 0;
    while j < a.width
      invariant 0 <= j <= a.width && a.data[..] == d
      invariant k == |List(d, a.width, a.height, j)| && Holds(points.data[..], List(d, a.width, a.height, j))
    {
      k := FillColumn(a, points, j, k, r);
      j := j + 1;
    }
  }

  method FillColumn(a: Matrix, points: Matrix, j: nat, k0: nat, ghost r: nat) returns (k: nat)
    requires a.Valid() && points.Valid() && points.width == 3 && points.height == r && points.data != a.data
    requires j < a.width && r == InColumns(a.data[..], a.width, a.height, a.width)
    requires var l := List(a.data[..], a.width, a.height, j); k0 == |l| && Holds(points.data[..], l)
    modifies points.data
    ensures var l := List(a.data[..], a.width, a.height, j + 1); k == |l| && Holds(points.data[..], l)
  {
    ghost var d, l := a.data[..], List(a.data[..], a.width, a.height, j);
    ghost var all := l;
    k := k0;
    var i := 0;
    while i < a.height
      invariant 0 <= i <= a.height && a.data[..] == d
      invariant all == l + ColumnList(d, a.width, j, i) && k == |all| && Holds(points.data[..], all)
    {
      var v := a.Get(i, j);
      if v != 0.0 {
        RoomFor(d, a.width, a.height, a.width, j, i);
        k := PutRow(points, k, j, i, v, all);
        all := all + [Point(j, i, v)];
      }
      i := i + 1;
    }
  }

  method PutRow(points: Matrix, k0: nat, j: nat, i: nat, v: real, ghost all: seq<Point>) returns (k: nat)
    requires points.Valid() && points.width == 3 && k0 == |all| < points.height && Holds(points.data[..], all)
    modifies points.data
    ensures k == k0 + 1 && Holds(points.data[..], all + [Point(j, i, v)])
  {
    AddsRow(points.data[..], all, Point(j, i, v));
    points.data[3 * k0] := j as real;
    points.data[3 * k0 + 1] := i as real;
    points.data[3 * k0 + 2] := v;
    k := k0 + 1;
  }
}
