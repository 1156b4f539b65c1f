/** The triangle index buffer of the terrain: each cell of the vertex grid,
    with top-left vertex i, becomes the triangles (i, i + width, i + 1) and
    (i + 1, i + width, i + 1 + width). The cells are laid out row-major, six
    numbers per cell. */
module TriangleIndices {
  import opened RowMajor

  /** Iterations of `for (j = 0; j < height - 1; j++)`: none when height < 1. */
  function CellRows(height: nat): (n: nat)
    ensures n >= height - 1 && (n == 0 || n == height - 1)
  {
    if height >= 1 then height - 1 else 0
  }

  /** Iterations of the inner loop `i < offset + width - 1`: none when width < 1. */
  function CellCols(width: nat): (n: nat)
    ensures n >= width - 1 && (n == 0 || n == width - 1)
  {
    if width >= 1 then width - 1 else 0
  }

  /** The six indices one inner iteration pushes for the cell whose top-left
      vertex is i. */
  function CellIndices(width: nat, i: int): (s: seq<int>)
    ensures |s| == 6
  {
    [i, i + width, i + 1, i + 1, i + width, i + 1 + width]
  }

  /** The cells as a grid: row j of cells, cell c, whose top-left vertex is
      vertex j * width + c. */
  function CellGrid(width: nat, height: nat): (g: seq<seq<seq<int>>>)
    ensures |g| == CellRows(height)
  {
    seq(CellRows(height), j requires 0 <= j < CellRows(height) =>
      seq(CellCols(width), c requires 0 <= c < CellCols(width) => CellIndices(width, j * width + c)))
  }

  /** Every row of cells holds `width - 1` cells of six indices each. */
  lemma CellGridShape(width: nat, height: nat)
    ensures Rectangular(CellGrid(width, height), CellCols(width), 6)
  {
    var g := CellGrid(width, height);
    forall j | 0 <= j < |g|
      ensures |g[j]| == CellCols(width)
      ensures forall c | 0 <= c < CellCols(width) :: |g[j][c]| == 6
    {
      forall c | 0 <= c < CellCols(width)
        ensures |g[j][c]| == 6
      {
        assert g[j][c] == CellIndices(width, j * width + c);
      }
    }
  }

  /** The finished `indices` buffer. */
  function Indices(width: nat, height: nat): (s: seq<int>)
    ensures |s| == 6 * CellCols(width) * CellRows(height)
  {
    CellGridShape(width, height);
    FlattenLength(CellGrid(width, height), CellCols(width), 6, CellRows(height));
    MulAssoc(6, CellCols(width), CellRows(height));
    Flatten(CellGrid(width, height), CellRows(height))
  }

  /** The buffer holds exactly the first j rows of cells. */
  ghost predicate CellRowsBuilt(width: nat, height: nat, j: nat, indices: seq<int>)
    requires j <= CellRows(height)
  {
    indices == Flatten(CellGrid(width, height), j)
  }

  /** The buffer holds exactly the first j rows of cells and the first n
      cells of row j. */
  ghost predicate CellsBuilt(width: nat, height: nat, j: nat, n: nat, indices: seq<int>)
    requires j < CellRows(height) && n <= CellCols(width)
  {
    indices == Flatten(CellGrid(width, height), j) + Row(CellGrid(width, height), j, n)
  }

  /** Starting row j of cells: none of its cells is in the buffer yet. */
  lemma CellRowStart(width: nat, height: nat, j: nat, indices: seq<int>)
    requires j < CellRows(height) && CellRowsBuilt(width, height, j, indices)
    ensures CellsBuilt(width, height, j, 0, indices)
  {
  }

  /** One iteration of the inner loop, at vertex i of the row of cells that
      starts at vertex `offset = j * width`, pushes that cell's six indices. */
  lemma CellStep(width: nat, height: nat, j: nat, offset: nat, i: nat, indices: seq<int>)
    requires j < CellRows(height) && offset == j * width && offset <= i < offset + CellCols(width)
    requires CellsBuilt(width, height, j, i - offset, indices)
    ensures CellsBuilt(width, height, j, i - offset + 1,
      indices + [i] + [i + width] + [i + 1] + [i + 1] + [i + width] + [i + 1 + width])
  {
    var g := CellGrid(width, height);
    var after := indices + [i] + [i + width] + [i + 1] + [i + 1] + [i + width] + [i + 1 + width];
    assert g[j][i - offset] == CellIndices(width, i);
    assert after == indices + g[j][i - offset];
    RecordStep(g, j, i - offset, Flatten(g, j), indices, after);
  }

  /** Finishing row j of cells: the buffer holds the first j + 1 rows. */
  lemma CellRowEnd(width: nat, height: nat, j: nat, indices: seq<int>)
    requires j < CellRows(height) && CellsBuilt(width, height, j, CellCols(width), indices)
    ensures CellRowsBuilt(width, height, j + 1, indices)
  {
    CellGridShape(width, height);
    RowDone(CellGrid(width, height), j, CellCols(width));
  }

  /** Two triangles per cell, (width - 1) * (height - 1) cells: the buffer is
      empty exactly when the grid is less than two vertices wide or high. */
  lemma IndexCount(width: nat, height: nat)
    ensures |Indices(width, height)| == 6 * CellCols(width) * CellRows(height)
    ensures width >= 1 && height >= 1 ==> |Indices(width, height)| == 6 * (width - 1) * (height - 1)
    ensures Indices(width, height) == [] <==> width < 2 || height < 2
  {
    CellGridShape(width, height);
    FlattenLength(CellGrid(width, height), CellCols(width), 6, CellRows(height));
    MulAssoc(6, CellCols(width), CellRows(height));
    if width >= 2 && height >= 2 {
      MulLeft(1, CellRows(height), CellCols(width));
    }
  }

  /** Cell c of row j, the q-th cell in row-major order, has its top-left
      vertex at i = j * width + c, and its six entries, at 6q, are the
      triangles (i, i + width, i + 1) and (i + 1, i + width, i + 1 + width). */
  lemma CellAt(width: nat, height: nat, j: nat, c: nat, q: nat)
    requires j < CellRows(height) && c < CellCols(width) && q == j * (width - 1) + c
    ensures 6 * q + 6 <= |Indices(width, height)|
    ensures Indices(width, height)[6 * q..6 * q + 3] == [j * width + c, j * width + c + width, j * width + c + 1]
    ensures Indices(width, height)[6 * q + 3..6 * q + 6]
         == [j * width + c + 1, j * width + c + width, j * width + c + 1 + width]
  {
    var g := CellGrid(width, height);
    CellGridShape(width, height);
    FlattenSlots(g, CellCols(width), 6, c, j, q);
    var slots := Indices(width, height)[6 * q..6 * q + 6];
    assert slots == CellIndices(width, j * width + c);
    assert Indices(width, height)[6 * q..6 * q + 3] == slots[..3];
    assert Indices(width, height)[6 * q + 3..6 * q + 6] == slots[3..];
  }

  /** The two triangles of a cell are proper triangles (three different
      vertices each) that share the diagonal (i + 1, i + width), traversed in
      opposite directions, so both have the same winding. */
  lemma CellWinding(width: nat, height: nat, j: nat, c: nat, q: nat)
    requires j < CellRows(height) && c < CellCols(width) && q == j * (width - 1) + c
    ensures 6 * q + 6 <= |Indices(width, height)|
    ensures var s := Indices(width, height);
      s[6 * q] != s[6 * q + 1] && s[6 * q + 1] != s[6 * q + 2] && s[6 * q] != s[6 * q + 2] &&
      s[6 * q + 3] != s[6 * q + 4] && s[6 * q + 4] != s[6 * q + 5] && s[6 * q + 3] != s[6 * q + 5] &&
      s[6 * q + 1] == s[6 * q + 4] && s[6 * q + 2] == s[6 * q + 3] &&
      s[6 * q] != s[6 * q + 5]
  {
    var s := Indices(width, height);
    CellAt(width, height, j, c, q);
    assert s[6 * q..6 * q + 3][0] == s[6 * q] && s[6 * q..6 * q + 3][1] == s[6 * q + 1];
    assert s[6 * q..6 * q + 3][2] == s[6 * q + 2];
    assert s[6 * q + 3..6 * q + 6][0] == s[6 * q + 3] && s[6 * q + 3..6 * q + 6][1] == s[6 * q + 4];
    assert s[6 * q + 3..6 * q + 6][2] == s[6 * q + 5];
  }

  /** The top-left vertex of every cell is neither in the last column nor in
      the last row of the vertex grid. */
  lemma CellBaseInterior(width: nat, height: nat, j: nat, c: nat)
    requires j < CellRows(height) && c < CellCols(width)
    ensures (j * width + c) % width == c && (j * width + c) / width == j
    ensures (j * width + c) % width != width - 1
    ensures (j * width + c) / width < height - 1
  {
    RowMajorDivMod(width, c, j);
  }

  /** The vertices of cell (j, c) all lie in the width * height grid. */
  lemma CellInGrid(width: nat, height: nat, j: nat, c: nat)
    requires j < CellRows(height) && c < CellCols(width)
    ensures j * width + c + 1 + width < width * height
  {
    PixelInGrid(width, height, c + 1, j + 1);
    assert (j + 1) * width == j * width + width;
  }

  /** Every index names one of the width * height vertices. */
  lemma IndicesInRange(width: nat, height: nat)
    ensures forall p | 0 <= p < |Indices(width, height)| ::
      0 <= Indices(width, height)[p] < width * height
  {
    var g := CellGrid(width, height);
    CellGridShape(width, height);
    FlattenLength(g, CellCols(width), 6, CellRows(height));
    assert CellRows(height) * CellCols(width) == CellCols(width) * CellRows(height);
    forall p | 0 <= p < |Indices(width, height)|
      ensures 0 <= Indices(width, height)[p] < width * height
    {
      var c, j, t := Locate(CellCols(width), CellRows(height), 6, p);
      FlattenAt(g, CellCols(width), 6, CellRows(height), c, j, t);
      CellInGrid(width, height, j, c);
      assert Indices(width, height)[p] == CellIndices(width, j * width + c)[t];
    }
  }
}
