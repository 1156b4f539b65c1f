/** Row-major layout, shared by the three buffers of the terrain: a grid of
    rows, each holding `width` records of `stride` numbers, written out row
    after row and, within a row, record after record. Also the integer facts
    about row-major numbering (`z * width + x`) that the layout needs. */
module RowMajor {

  lemma MulLeft(a: nat, b: nat, c: nat)
    requires a <= b
    ensures a * c <= b * c
  {
    assert b * c == a * c + (b - a) * c;
  }

  lemma MulAssoc(a: nat, b: nat, c: nat)
    ensures a * b * c == a * (b * c)
  {
  }

  lemma MulSucc(a: nat, n: nat)
    ensures a * n + a == a * (n + 1)
  {
  }

  lemma RowsGrow(stride: nat, m: nat, width: nat)
    ensures stride * (m * width) + stride * width == stride * ((m + 1) * width)
  {
    assert (m + 1) * width == m * width + width;
  }

  /** Pixel (x, z) of a `width * height` grid has a row-major number below
      `width * height`. */
  lemma PixelInGrid(width: nat, height: nat, x: nat, z: nat)
    requires x < width && z < height
    ensures z * width + x < width * height
  {
    assert z * width + width == (z + 1) * width;
    MulLeft(z + 1, height, width);
  }

  /** Row-major numbering is undone by division and remainder: number
      `z * width + x` sits in row z, column x. */
  lemma RowMajorDivMod(width: nat, x: nat, z: nat)
    requires x < width
    ensures (z * width + x) / width == z
    ensures (z * width + x) % width == x
  {
    var k := z * width + x;
    var q, r := k / width, k % width;
    assert q * width + r == z * width + x;
    if q < z {
      assert (q + 1) * width == q * width + width;
      MulLeft(q + 1, z, width);
      assert false;
    } else if q > z {
      assert (z + 1) * width == z * width + width;
      MulLeft(z + 1, q, width);
      assert false;
    }
  }

  /** Slot c of record (x, z) lies `stride * x + c` past the start of row z. */
  lemma SlotInLastRow(stride: nat, width: nat, z: nat, x: nat, c: nat)
    ensures stride * (z * width + x) + c == stride * (z * width) + (stride * x + c)
  {
  }

  /** A number below `stride * n` has quotient below n. */
  lemma DivBound(p: nat, stride: nat, n: nat)
    requires 0 < stride && p < stride * n
    ensures p / stride < n
  {
    if p / stride >= n {
      MulLeft(n, p / stride, stride);
      assert false;
    }
  }

  /** Euclidean division, with the factors in row-major order. */
  lemma DivMod(p: nat, stride: nat)
    requires 0 < stride
    ensures p == stride * (p / stride) + p % stride && p % stride < stride
  {
  }

  /** Splits a position p of a buffer holding `stride` numbers per record
      into the record (x, z) and the slot c it belongs to. */
  lemma Locate(width: nat, height: nat, stride: nat, p: nat) returns (x: nat, z: nat, c: nat)
    requires 0 < stride && p < stride * (width * height)
    ensures x < width && z < height && c < stride
    ensures p == stride * (z * width + x) + c
    ensures c == p % stride
  {
    var k := p / stride;
    c := p % stride;
    DivMod(p, stride);
    DivBound(p, stride, width * height);
    assert 0 < width;
    x, z := k % width, k / width;
    DivMod(k, width);
    DivBound(k, width, height);
    assert k == z * width + x;
  }

  /** Every row of g holds `width` records of `stride` values. */
  ghost predicate Rectangular<T>(g: seq<seq<seq<T>>>, width: nat, stride: nat) {
    forall z | 0 <= z < |g| :: |g[z]| == width && forall x | 0 <= x < width :: |g[z][x]| == stride
  }

  /** The first n records of row z, one after the other. */
  function Row<T>(g: seq<seq<seq<T>>>, z: nat, n: nat): seq<T>
    requires z < |g| && n <= |g[z]|
  {
    if n == 0 then [] else Row(g, z, n - 1) + g[z][n - 1]
  }

  /** The first m rows of g, one after the other. */
  function Flatten<T>(g: seq<seq<seq<T>>>, m: nat): seq<T>
    requires m <= |g|
  {
    if m == 0 then [] else Flatten(g, m - 1) + Row(g, m - 1, |g[m - 1]|)
  }

  /** Appending record x of row z to what precedes it extends the row. */
  lemma RecordStep<T>(g: seq<seq<seq<T>>>, z: nat, x: nat, front: seq<T>, before: seq<T>, after: seq<T>)
    requires z < |g| && x < |g[z]|
    requires before == front + Row(g, z, x) && after == before + g[z][x]
    ensures after == front + Row(g, z, x + 1)
  {
  }

  /** A completed row z extends the first z rows to the first z + 1. */
  lemma RowDone<T>(g: seq<seq<seq<T>>>, z: nat, width: nat)
    requires z < |g| && |g[z]| == width
    ensures Flatten(g, z) + Row(g, z, width) == Flatten(g, z + 1)
  {
  }

  /** The record of n + 1 slots at i, split into its first n slots and its
      last one. */
  lemma SliceParts<T>(s: seq<T>, i: nat, n: nat)
    requires i + n < |s|
    ensures s[i..i + n + 1][..n] == s[i..i + n] && s[i..i + n + 1][n] == s[i + n]
  {
  }

  /** Indexing past the first part of a concatenation. */
  lemma Concat<T>(front: seq<T>, back: seq<T>, i: nat)
    requires i < |back|
    ensures (front + back)[|front| + i] == back[i]
  {
  }

  /** The first n records of a row take `stride * n` slots. */
  lemma {:induction false} RowLength<T>(g: seq<seq<seq<T>>>, width: nat, stride: nat, z: nat, n: nat)
    requires Rectangular(g, width, stride) && z < |g| && n <= width
    ensures |Row(g, z, n)| == stride * n
  {
    if n > 0 {
      RowLength(g, width, stride, z, n - 1);
      MulSucc(stride, n - 1);
    }
  }

  /** Slot c of record x sits at `stride * x + c` in its row. */
  lemma {:induction false} RowAt<T>(g: seq<seq<seq<T>>>, width: nat, stride: nat, z: nat, n: nat, x: nat, c: nat)
    requires Rectangular(g, width, stride) && z < |g| && n <= width
    requires x < n && c < stride
    ensures stride * x + c < |Row(g, z, n)|
    ensures Row(g, z, n)[stride * x + c] == g[z][x][c]
  {
    var front, back := Row(g, z, n - 1), g[z][n - 1];
    assert Row(g, z, n) == front + back;
    RowLength(g, width, stride, z, n - 1);
    if x < n - 1 {
      RowAt(g, width, stride, z, n - 1, x, c);
      assert (front + back)[stride * x + c] == front[stride * x + c];
    } else {
      assert stride * x + c == |front| + c;
      Concat(front, back, c);
    }
  }

  /** The first m rows take `stride * (m * width)` slots. */
  lemma {:induction false} FlattenLength<T>(g: seq<seq<seq<T>>>, width: nat, stride: nat, m: nat)
    requires Rectangular(g, width, stride) && m <= |g|
    ensures |Flatten(g, m)| == stride * (m * width)
  {
    if m > 0 {
      FlattenLength(g, width, stride, m - 1);
      RowLength(g, width, stride, m - 1, width);
      RowsGrow(stride, m - 1, width);
    }
  }

  /** The first n rows are a prefix of the first m rows. */
  lemma {:induction false} FlattenPrefix<T>(g: seq<seq<seq<T>>>, n: nat, m: nat)
    requires n <= m <= |g|
    ensures |Flatten(g, n)| <= |Flatten(g, m)|
    ensures Flatten(g, m)[..|Flatten(g, n)|] == Flatten(g, n)
  {
    if n < m {
      FlattenPrefix(g, n, m - 1);
      var front := Flatten(g, m - 1);
      assert Flatten(g, m) == front + Row(g, m - 1, |g[m - 1]|);
      assert Flatten(g, m)[..|Flatten(g, n)|] == front[..|Flatten(g, n)|];
    }
  }

  /** Slot c of record x of row z, counted from the start of that row. */
  lemma FlattenRowAt<T>(g: seq<seq<seq<T>>>, width: nat, stride: nat, z: nat, x: nat, c: nat)
    requires Rectangular(g, width, stride) && z < |g|
    requires x < width && c < stride
    ensures |Flatten(g, z)| + (stride * x + c) < |Flatten(g, z + 1)|
    ensures Flatten(g, z + 1)[|Flatten(g, z)| + (stride * x + c)] == g[z][x][c]
  {
    var front, back := Flatten(g, z), Row(g, z, width);
    assert |g[z]| == width;
    assert Flatten(g, z + 1) == front + back;
    RowAt(g, width, stride, z, width, x, c);
    Concat(front, back, stride * x + c);
  }

  /** Row-major layout: slot c of record (x, z) sits at
      `stride * (z * width + x) + c`. */
  lemma FlattenAt<T>(g: seq<seq<seq<T>>>, width: nat, stride: nat, m: nat, x: nat, z: nat, c: nat)
    requires Rectangular(g, width, stride) && m <= |g|
    requires x < width && z < m && c < stride
    ensures stride * (z * width + x) + c < |Flatten(g, m)|
    ensures Flatten(g, m)[stride * (z * width + x) + c] == g[z][x][c]
  {
    FlattenRowAt(g, width, stride, z, x, c);
    FlattenPrefix(g, z + 1, m);
    FlattenLength(g, width, stride, z);
    SlotInLastRow(stride, width, z, x, c);
  }

  /** The `stride` slots of record (x, z), whose row-major number is k,
      hold exactly that record. */
  lemma FlattenSlots<T>(g: seq<seq<seq<T>>>, width: nat, stride: nat, x: nat, z: nat, k: nat)
    requires Rectangular(g, width, stride)
    requires x < width && z < |g| && k == z * width + x
    ensures |Flatten(g, |g|)| == stride * (|g| * width)
    ensures stride * k + stride <= |Flatten(g, |g|)|
    ensures Flatten(g, |g|)[stride * k..stride * k + stride] == g[z][x]
  {
    FlattenLength(g, width, stride, |g|);
    PixelInGrid(width, |g|, x, z);
    MulLeft(k + 1, |g| * width, stride);
    assert (k + 1) * stride == stride * k + stride;
    var slots := Flatten(g, |g|)[stride * k..stride * k + stride];
    forall c | 0 <= c < stride
      ensures slots[c] == g[z][x][c]
    {
      FlattenAt(g, width, stride, |g|, x, z, c);
    }
  }
}
