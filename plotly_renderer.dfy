/** The plotly renderer's bookkeeping: the subplot cursor that walks a
    rows x cols grid of scenes, and the conversion of a triangle list into
    the shared vertex list and per-triangle vertex indices a mesh trace is
    built from.  The figure objects themselves belong to plotly and are not
    modelled. */
module PlotlyRenderer {
  import opened Common
  import opened MeshGraph

  /** The assertion of the renderer that failed. */
  datatype RenderError =
    | SubplotActive       // init_subplots while a grid is being filled
    | SubplotInactive     // fill/add/next without an active grid
    | BadDimension        // rows or cols not positive
    | UnpairedCustomCell  // only one of custom_row / custom_col given
    | NoFigure            // draw_subplots before any grid was made

  /** A 1-based (row, col) position in the subplot grid. */
  datatype Cell = Cell(row: int, col: int)

  /** The five cursor fields of a renderer, as one value. */
  datatype Cursor = Cursor(active: bool, row: int, rowLimit: int, col: int, colLimit: int)

  /** The cursor of a freshly built or freshly drawn renderer. */
  const Idle := Cursor(false, 0, 0, 0, 0)

  /** The cursor `init_subplots(rows, cols)` leaves behind. */
  function Start(rows: int, cols: int): (c: Cursor)
    ensures c.active && c.row == 1 && c.col == 1
    ensures c.rowLimit == rows && c.colLimit == cols
  {
    Cursor(true, 1, rows, 1, cols)
  }

  /** One step of `next_subplot` on an active cursor: the column advances,
      or at the last column wraps to 1 on the next row; the grid closes once
      the row passes the last one. */
  function Next(c: Cursor): Cursor
    requires c.active
  {
    if c.col == c.colLimit then
      c.(col := 1, row := c.row + 1, active := c.row + 1 <= c.rowLimit)
    else
      c.(col := c.col + 1)
  }

  /** The cursor after `k` fills starting from `c`, where a fill on a closed
      grid fails and leaves the cursor where it is. */
  function Fills(c: Cursor, k: nat): Cursor
  {
    if k == 0 then c
    else
      var p := Fills(c, k - 1);
      if p.active then Next(p) else p
  }

  /** The k-th cell (counting from 0) of a grid with `cols` columns, in
      row-major order. */
  function RowMajor(k: nat, cols: int): (cell: Cell)
    requires cols > 0
    ensures 1 <= cell.col <= cols && 1 <= cell.row
  {
    Cell(1 + k / cols, 1 + k % cols)
  }

  /** The cursor of a rows x cols grid after k of its cells were filled. */
  function After(rows: int, cols: int, k: nat): Cursor
    requires cols > 0
  {
    var cell := RowMajor(k, cols);
    Cursor(k < rows * cols, cell.row, rows, cell.col, cols)
  }

  lemma DivMod(n: nat, d: int, q: nat, r: nat)
    requires d > 0 && r < d && n == q * d + r
    ensures n / d == q && n % d == r
  {
    var q', r' := n / d, n % d;
    assert q' * d + r' == q * d + r;
    if q' > q {
      MulMono(q + 1, q', d);
    } else if q' < q {
      MulMono(q' + 1, q, d);
    }
  }

  lemma MulMono(a: int, b: int, c: int)
    requires a <= b && c >= 0
    ensures a * c <= b * c
  {
    assert b * c - a * c == (b - a) * c;
  }

  lemma BelowGrid(k: nat, rows: int, cols: int)
    requires rows > 0 && cols > 0
    ensures k < rows * cols <==> k / cols < rows
  {
    var q, r := k / cols, k % cols;
    assert k == q * cols + r;
    if q < rows {
      assert q * cols <= (rows - 1) * cols;
    } else {
      assert q * cols >= rows * cols;
    }
  }

  /** A fill moves the cursor from the k-th cell to the (k+1)-th one. */
  lemma FillStep(rows: int, cols: int, k: nat)
    requires rows > 0 && cols > 0 && k < rows * cols
    ensures After(rows, cols, k).active
    ensures Next(After(rows, cols, k)) == After(rows, cols, k + 1)
  {
    var q, r := k / cols, k % cols;
    assert k == q * cols + r;
    BelowGrid(k, rows, cols);
    BelowGrid(k + 1, rows, cols);
    if r + 1 == cols {
      DivMod(k + 1, cols, q + 1, 0);
    } else {
      DivMod(k + 1, cols, q, r + 1);
    }
  }

  /** After k <= rows * cols fills of a new grid the cursor stands on the
      k-th cell in row-major order, and the grid is open exactly while
      cells remain. */
  lemma {:induction false} FillOrder(rows: int, cols: int, k: nat)
    requires rows > 0 && cols > 0 && k <= rows * cols
    ensures Fills(Start(rows, cols), k) == After(rows, cols, k)
  {
    if k == 0 {
      DivMod(0, cols, 0, 0);
    } else {
      FillOrder(rows, cols, k - 1);
      FillStep(rows, cols, k - 1);
    }
  }

  /** Filling all rows * cols cells closes the grid, with the cursor one
      row past the last; a further fill finds the grid closed. */
  lemma FillsCloseGrid(rows: int, cols: int)
    requires rows > 0 && cols > 0
    ensures var c := Fills(Start(rows, cols), rows * cols);
      !c.active && c.row == rows + 1 && c.col == 1
    ensures Fills(Start(rows, cols), rows * cols + 1) == Fills(Start(rows, cols), rows * cols)
  {
    FillOrder(rows, cols, rows * cols);
    DivMod(rows * cols, cols, rows, 0);
  }

  /** The fills of a rows x cols grid visit every cell, each exactly once,
      in row-major order. */
  lemma RowMajorVisitsAll(rows: int, cols: int)
    requires rows > 0 && cols > 0
    ensures forall k: nat | k < rows * cols ::
      1 <= RowMajor(k, cols).row <= rows
    ensures forall row, col | 1 <= row <= rows && 1 <= col <= cols ::
      RowMajor((row - 1) * cols + (col - 1), cols) == Cell(row, col)
        && (row - 1) * cols + (col - 1) < rows * cols
    ensures forall j: nat, k: nat | j < k ::
      var a, b := RowMajor(j, cols), RowMajor(k, cols);
      a.row < b.row || (a.row == b.row && a.col < b.col)
  {
    forall k: nat | k < rows * cols
      ensures 1 <= RowMajor(k, cols).row <= rows
    {
      BelowGrid(k, rows, cols);
    }
    forall row, col | 1 <= row <= rows && 1 <= col <= cols
      ensures RowMajor((row - 1) * cols + (col - 1), cols) == Cell(row, col)
      ensures (row - 1) * cols + (col - 1) < rows * cols
    {
      DivMod((row - 1) * cols + (col - 1), cols, row - 1, col - 1);
      BelowGrid((row - 1) * cols + (col - 1), rows, cols);
    }
    forall j: nat, k: nat | j < k
      ensures var a, b := RowMajor(j, cols), RowMajor(k, cols);
        a.row < b.row || (a.row == b.row && a.col < b.col)
    {
      RowMajorOrdered(j, k, cols);
    }
  }

  lemma RowMajorOrdered(j: nat, k: nat, cols: int)
    requires cols > 0 && j < k
    ensures var a, b := RowMajor(j, cols), RowMajor(k, cols);
      a.row < b.row || (a.row == b.row && a.col < b.col)
  {
    var qj, rj, qk, rk := j / cols, j % cols, k / cols, k % cols;
    assert j == qj * cols + rj && k == qk * cols + rk;
    if qk < qj {
      MulMono(qk + 1, qj, cols);
      assert false;
    }
  }

  /** The renderer's subplot state. `hasFigure` stands for the subplot
      figure being set, which happens at the first successful
      `init_subplots` and is never undone. */
  class Renderer {
    const verbose: bool
    var active: bool
    var rowIndex: int
    var rowLimit: int
    var colIndex: int
    var colLimit: int
    var hasFigure: bool

    function Snapshot(): Cursor
      reads this
    {
      Cursor(active, rowIndex, rowLimit, colIndex, colLimit)
    }

    /** An open grid always has a figure to draw into. */
    ghost predicate Valid()
      reads this
    {
      active ==> hasFigure
    }

    constructor(verbose: bool)
      ensures Valid() && this.verbose == verbose
      ensures Snapshot() == Idle && !hasFigure
    {
      this.verbose := verbose;
      active := false;
      rowIndex, rowLimit, colIndex, colLimit := 0, 0, 0, 0;
      hasFigure := false;
    }

    /** `init_subplots(rows, cols)`: refuses while a grid is open or when a
        dimension is not positive; otherwise opens a fresh grid. */
    method InitSubplots(rows: int, cols: int) returns (r: Outcome<RenderError>)
      requires Valid()
      modifies this
      ensures Valid()
      ensures old(active) ==> r == Fail(SubplotActive)
      ensures !old(active) && (rows <= 0 || cols <= 0) ==> r == Fail(BadDimension)
      ensures r.Fail? ==> unchanged(this)
      ensures r.Pass? <==> !old(active) && rows > 0 && cols > 0
      ensures r.Pass? ==> Snapshot() == Start(rows, cols) && hasFigure
    {
      if active {
        return Fail(SubplotActive);
      }
      if rows <= 0 || cols <= 0 {
        return Fail(BadDimension);
      }
      active := true;
      hasFigure := true;
      rowIndex, rowLimit := 1, rows;
      colIndex, colLimit := 1, cols;
      r := Pass;
    }

    /** `next_subplot`: advances the cursor of an open grid by one cell. */
    method NextSubplot() returns (r: Outcome<RenderError>)
      requires Valid()
      modifies this
      ensures Valid()
      ensures r.Pass? <==> old(active)
      ensures r.Fail? ==> r.error == SubplotInactive && unchanged(this)
      ensures r.Pass? ==> Snapshot() == Next(old(Snapshot())) && hasFigure
    {
      if !active {
        return Fail(SubplotInactive);
      }
      if colIndex == colLimit {
        colIndex := 1;
        rowIndex := rowIndex + 1;
        if rowIndex > rowLimit {
          active := false;
        }
        return Pass;
      }
      colIndex := colIndex + 1;
      r := Pass;
    }

    /** `fill_subplot`: the trace goes into the cell under the cursor, and
        the cursor moves on by one cell. */
    method FillSubplot() returns (r: Result<Cell, RenderError>)
      requires Valid()
      modifies this
      ensures Valid()
      ensures r.Ok? <==> old(active)
      ensures r.Err? ==> r.error == SubplotInactive && unchanged(this)
      ensures r.Ok? ==> r.value == Cell(old(rowIndex), old(colIndex))
      ensures r.Ok? ==> Snapshot() == Next(old(Snapshot()))
      ensures Snapshot() == Fills(old(Snapshot()), 1)
    {
      if !active {
        return Err(SubplotInactive);
      }
      var cell := Cell(rowIndex, colIndex);
      var step := NextSubplot();
      r := Ok(cell);
    }

    /** `add_to_subplot(custom_row, custom_col)`: the trace goes into the
        given cell when both coordinates are given, into the cell under the
        cursor when neither is (-1 means "not given"); the cursor does not
        move. */
    method AddToSubplot(customRow: int, customCol: int) returns (r: Result<Cell, RenderError>)
      requires Valid()
      ensures !active ==> r == Err(SubplotInactive)
      ensures active && (customRow == -1) != (customCol == -1) ==> r == Err(UnpairedCustomCell)
      ensures active && customRow == -1 && customCol == -1 ==> r == Ok(Cell(rowIndex, colIndex))
      ensures active && customRow != -1 && customCol != -1 ==> r == Ok(Cell(customRow, customCol))
    {
      if !active {
        return Err(SubplotInactive);
      }
      if customRow != -1 {
        if customCol == -1 {
          return Err(UnpairedCustomCell);
        }
      } else if customCol != -1 {
        return Err(UnpairedCustomCell);
      }
      var row := if customRow == -1 then rowIndex else customRow;
      var col := if customCol == -1 then colIndex else customCol;
      r := Ok(Cell(row, col));
    }

    /** `draw_subplots`: shows the figure, which must exist, and closes the
        grid with every index and limit back at 0; the figure is kept. */
    method DrawSubplots() returns (r: Outcome<RenderError>)
      requires Valid()
      modifies this
      ensures Valid()
      ensures r.Pass? <==> old(hasFigure)
      ensures r.Fail? ==> r.error == NoFigure && unchanged(this)
      ensures r.Pass? ==> Snapshot() == Idle && hasFigure
    {
      if !hasFigure {
        return Fail(NoFigure);
      }
      active := false;
      rowIndex, rowLimit, colIndex, colLimit := 0, 0, 0, 0;
      r := Pass;
    }
  }

  // ---------------------------------------------------------------------
  // Mesh draw data

  /** The vertices of each triangle, in its own order (`iter_coords`). */
  function Corners<V>(ts: seq<Triangle<V>>): (r: seq<V>)
    ensures |r| == 3 * |ts|
  {
    if ts == [] then []
    else
      var t := ts[|ts| - 1];
      Corners(ts[..|ts| - 1]) + [t.p0, t.p1, t.p2]
  }

  /** Every index of `face` is a position in `vertices`. */
  predicate InRange<V>(vertices: seq<V>, face: Triangle<nat>) {
    face.p0 < |vertices| && face.p1 < |vertices| && face.p2 < |vertices|
  }

  /** The triangles an index list denotes over a vertex list. */
  function Resolve<V>(vertices: seq<V>, faces: seq<Triangle<nat>>): (r: seq<Triangle<V>>)
    requires forall i | 0 <= i < |faces| :: InRange(vertices, faces[i])
    ensures |r| == |faces|
  {
    seq(|faces|, i requires 0 <= i < |faces| =>
      assert InRange(vertices, faces[i]);
      Triangle(vertices[faces[i].p0], vertices[faces[i].p1], vertices[faces[i].p2]))
  }

  /** A mesh trace: the shared vertex list (x, y, z) and one index triple
      per triangle (i, j, k). */
  datatype MeshData<V> = MeshData(vertices: seq<V>, faces: seq<Triangle<nat>>)

  /** The position of `v` in `list` (`list.index(v)`). */
  method IndexOf<V(==)>(list: seq<V>, v: V) returns (i: nat)
    requires v in list
    ensures i < |list| && list[i] == v && v !in list[..i]
  {
    i := 0;
    while list[i] != v
      invariant i < |list| && v in list[i..] && v !in list[..i]
      decreases |list| - i
    {
      assert list[i..] == [list[i]] + list[i + 1..];
      assert list[..i + 1] == list[..i] + [list[i]];
      i := i + 1;
    }
  }

  /** One vertex of a triangle: its position in the vertex list, which is
      extended with it when it is new. */
  method Place<V(==)>(list: seq<V>, length: nat, v: V)
    returns (list': seq<V>, length': nat, index: nat)
    requires length == |list|
    ensures list' == if v in list then list else list + [v]
    ensures length' == |list'| && index < |list'| && list'[index] == v
  {
    if v !in list {
      list' := list + [v];
      length' := length + 1;
      index := length' - 1;
    } else {
      list' := list;
      length' := length;
      index := IndexOf(list, v);
    }
  }

  /** The vertex and index lists of `get_polyhedron_draw_data` (and of the
      older `get_polygon_draw_data`): each vertex is listed once, in the
      order first met, and every triangle becomes the positions of its
      three vertices.  No triangles give no trace at all. */
  method DrawData<V(==)>(triangles: seq<Triangle<V>>) returns (r: seq<MeshData<V>>)
    ensures triangles == [] <==> r == []
    ensures r != [] ==> |r| == 1
    ensures r != [] ==> r[0].vertices == Dedup(Corners(triangles)) && NoDup(r[0].vertices)
    ensures r != [] ==> forall i | 0 <= i < |r[0].faces| :: InRange(r[0].vertices, r[0].faces[i])
    ensures r != [] ==> Resolve(r[0].vertices, r[0].faces) == triangles
  {
    var vertexList: seq<V> := [];
    var vertexListLength: nat := 0;
    var faces: seq<Triangle<nat>> := [];
    for n := 0 to |triangles|
      invariant vertexList == Dedup(Corners(triangles[..n]))
      invariant vertexListLength == |vertexList|
      invariant |faces| == n
      invariant forall i | 0 <= i < n :: InRange(vertexList, faces[i])
      invariant Resolve(vertexList, faces) == triangles[..n]
    {
      ghost var before := vertexList;
      var face;
      vertexList, vertexListLength, face := PlaceTriangle(vertexList, vertexListLength, triangles[n], Corners(triangles[..n]));
      assert triangles[..n + 1][..n] == triangles[..n];
      ExtendFaces(before, vertexList, faces, face);
      faces := faces + [face];
    }
    assert triangles[..|triangles|] == triangles;
    if vertexList == [] && faces == [] {
      return [];
    }
    r := [MeshData(vertexList, faces)];
  }

  /** The inner loop over one triangle's vertices. */
  method PlaceTriangle<V(==)>(list: seq<V>, length: nat, t: Triangle<V>, ghost cs: seq<V>)
    returns (list': seq<V>, length': nat, face: Triangle<nat>)
    requires length == |list| && list == Dedup(cs)
    ensures list' == Dedup(cs + [t.p0, t.p1, t.p2]) && list <= list'
    ensures length' == |list'| && InRange(list', face)
    ensures Triangle(list'[face.p0], list'[face.p1], list'[face.p2]) == t
  {
    var l0, l1, i0, i1, i2;
    var n0, n1;
    l0, n0, i0 := Place(list, length, t.p0);
    l1, n1, i1 := Place(l0, n0, t.p1);
    list', length', i2 := Place(l1, n1, t.p2);
    ExtendThree(cs, t, list, l0, l1, list');
    face := Triangle(i0, i1, i2);
  }

  /** Placing a triangle's three vertices in turn extends the deduplicated
      corner list by that triangle's corners. */
  lemma ExtendThree<V>(cs: seq<V>, t: Triangle<V>, before: seq<V>, l0: seq<V>, l1: seq<V>, after: seq<V>)
    requires before == Dedup(cs)
    requires l0 == if t.p0 in before then before else before + [t.p0]
    requires l1 == if t.p1 in l0 then l0 else l0 + [t.p1]
    requires after == if t.p2 in l1 then l1 else l1 + [t.p2]
    ensures after == Dedup(cs + [t.p0, t.p1, t.p2])
  {
    var c0 := cs + [t.p0];
    var c1 := c0 + [t.p1];
    DedupSnoc(cs, t.p0);
    DedupSnoc(c0, t.p1);
    DedupSnoc(c1, t.p2);
    SnocThree(cs, t.p0, t.p1, t.p2);
  }

  lemma SnocThree<V>(cs: seq<V>, a: V, b: V, c: V)
    ensures cs + [a] + [b] + [c] == cs + [a, b, c]
  {
  }

  /** Extending the vertex list keeps the earlier faces' meaning. */
  lemma ExtendFaces<V>(before: seq<V>, after: seq<V>, faces: seq<Triangle<nat>>, face: Triangle<nat>)
    requires before <= after
    requires forall i | 0 <= i < |faces| :: InRange(before, faces[i])
    requires InRange(after, face)
    ensures forall i | 0 <= i < |faces + [face]| :: InRange(after, (faces + [face])[i])
    ensures Resolve(after, faces + [face])
      == Resolve(before, faces) + [Triangle(after[face.p0], after[face.p1], after[face.p2])]
  {
  }
}
