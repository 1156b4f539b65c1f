/** `generateTerrain`: the heightmap-to-mesh builder. Both demo components
    carry the same body; this is that body, up to the point where the three
    arrays are handed to the rendering engine. */
module TerrainGenerator {
  import opened Image
  import opened Bands
  import opened VertexBuffers
  import opened TriangleIndices

  /** The first half of the body: one vertex and one colour per pixel,
      rows z outside, columns x inside. */
  method BuildVertexBuffers(img: ImageData) returns (vertices: seq<real>, colors: seq<real>)
    requires img.Valid()
    ensures vertices == Positions(img) && colors == Colors(img)
    ensures |vertices| == 3 * img.width * img.height
    ensures |colors| == 4 * img.width * img.height
  {
    vertices, colors := [], [];
    var z := 0;
    while z < img.height
      invariant 0 <= z <= img.height
      invariant RowsBuilt(img, z, vertices, colors)
    {
      var x := 0;
      RowStart(img, z, vertices, colors);
      while x < img.width
        invariant 0 <= x <= img.width
        invariant Built(img, z, x, vertices, colors)
      {
        var index := x * 4 + z * img.width * 4;
        RedRead(img, x, z);
        var y := img.data[index] as real / 255.0;
        PixelStep(img, x, z, y, vertices, colors);
        vertices := vertices + [x as real - img.width as real / 2.0];
        vertices := vertices + [y * 5.0];
        vertices := vertices + [z as real - img.height as real / 2.0];
        if y <= 0.5 {
          colors := colors + BandColors[0] + [1.0];
        } else if y > 0.5 && y <= 0.8 {
          colors := colors + BandColors[1] + [1.0];
        } else {
          colors := colors + BandColors[2] + [1.0];
        }
        x := x + 1;
      }
      RowEnd(img, z, vertices, colors);
      z := z + 1;
    }
    AllRowsBuilt(img, vertices, colors);
  }

  /** The second half: two triangles per grid cell, rows of cells j outside,
      cells i of the row inside. */
  method BuildIndexBuffer(width: nat, height: nat) returns (indices: seq<int>)
    ensures indices == Indices(width, height)
    ensures |indices| == 6 * CellCols(width) * CellRows(height)
  {
    indices := [];
    var j: int := 0;
    while j < height - 1
      invariant 0 <= j <= CellRows(height)
      invariant CellRowsBuilt(width, height, j, indices)
    {
      var offset := j * width;
      var i := offset;
      CellRowStart(width, height, j, indices);
      while i < offset + width - 1
        invariant offset <= i <= offset + CellCols(width)
        invariant CellsBuilt(width, height, j, i - offset, indices)
      {
        CellStep(width, height, j, offset, i, indices);
        indices := indices + [i];
        indices := indices + [i + width];
        indices := indices + [i + 1];

        indices := indices + [i + 1];
        indices := indices + [i + width];
        indices := indices + [i + 1 + width];
        i := i + 1;
      }
      CellRowEnd(width, height, j, indices);
      j := j + 1;
    }

    IndexCount(width, height);
  }

  /** The whole data-building part of `generateTerrain`. */
  method GenerateTerrain(img: ImageData) returns (vertices: seq<real>, colors: seq<real>, indices: seq<int>)
    requires img.Valid()
    ensures vertices == Positions(img) && colors == Colors(img)
    ensures indices == Indices(img.width, img.height)
    ensures |vertices| == 3 * img.width * img.height
    ensures |colors| == 4 * img.width * img.height
    ensures |indices| == 6 * CellCols(img.width) * CellRows(img.height)
  {
    vertices, colors := BuildVertexBuffers(img);
    indices := BuildIndexBuffer(img.width, img.height);
  }
}
