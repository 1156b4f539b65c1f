/** The two per-vertex buffers of the terrain, `vertices` (x, y, z per pixel)
    and `colors` (r, g, b, a per pixel): the grid of pixels, each turned into
    its numbers, written out in row-major order. */
module VertexBuffers {
  import opened RowMajor
  import opened Image
  import opened Bands

  /** Which of the two per-pixel buffers is meant. */
  datatype Attribute = Position | Color

  /** Numbers pushed per pixel. */
  function Stride(a: Attribute): nat {
    match a
    case Position => 3
    case Color => 4
  }

  /** What one iteration of the inner loop pushes for pixel (x, z): the
      position centred on the grid with height 5 * red / 255, or the band
      colour with alpha 1. */
  function PixelAttribute(img: ImageData, a: Attribute, x: nat, z: nat): (v: seq<real>)
    requires img.Valid() && x < img.width && z < img.height
    ensures |v| == Stride(a)
  {
    var r := Red(img, x, z);
    match a
    case Position =>
      [x as real - img.width as real / 2.0, Height(r), z as real - img.height as real / 2.0]
    case Color =>
      PixelColor(r)
  }

  /** The image as a grid of per-pixel records: row z, column x. */
  function PixelGrid(img: ImageData, a: Attribute): (g: seq<seq<seq<real>>>)
    requires img.Valid()
    ensures |g| == img.height && Rectangular(g, img.width, Stride(a))
  {
    seq(img.height, z requires 0 <= z < img.height =>
      seq(img.width, x requires 0 <= x < img.width => PixelAttribute(img, a, x, z)))
  }

  /** The finished `vertices` buffer. */
  function Positions(img: ImageData): (s: seq<real>)
    requires img.Valid()
    ensures |s| == 3 * img.width * img.height
  {
    FlattenLength(PixelGrid(img, Position), img.width, 3, img.height);
    MulAssoc(3, img.width, img.height);
    Flatten(PixelGrid(img, Position), img.height)
  }

  /** The finished `colors` buffer. */
  function Colors(img: ImageData): (s: seq<real>)
    requires img.Valid()
    ensures |s| == 4 * img.width * img.height
  {
    FlattenLength(PixelGrid(img, Color), img.width, 4, img.height);
    MulAssoc(4, img.width, img.height);
    Flatten(PixelGrid(img, Color), img.height)
  }

  /** The three numbers one inner iteration pushes onto `vertices`, where
      y is the scaled red byte, are pixel (x, z)'s position: pushed after
      the first x pixels of row z, they give the first x + 1. */
  lemma VertexStep(img: ImageData, x: nat, z: nat, y: real, before: seq<real>)
    requires img.Valid() && z < img.height && x < img.width
    requires y == Red(img, x, z) as real / 255.0
    requires before == Flatten(PixelGrid(img, Position), z) + Row(PixelGrid(img, Position), z, x)
    ensures before + [x as real - img.width as real / 2.0] + [y * 5.0] + [z as real - img.height as real / 2.0]
         == Flatten(PixelGrid(img, Position), z) + Row(PixelGrid(img, Position), z, x + 1)
  {
    var g := PixelGrid(img, Position);
    var after := before + [x as real - img.width as real / 2.0] + [y * 5.0] + [z as real - img.height as real / 2.0];
    assert after == before + g[z][x];
    RecordStep(g, z, x, Flatten(g, z), before, after);
  }

  /** The band colour of y followed by alpha 1 is pixel (x, z)'s colour:
      pushed after the first x pixels of row z, it gives the first x + 1. */
  lemma ColorStep(img: ImageData, x: nat, z: nat, y: real, before: seq<real>)
    requires img.Valid() && z < img.height && x < img.width
    requires y == Red(img, x, z) as real / 255.0
    requires before == Flatten(PixelGrid(img, Color), z) + Row(PixelGrid(img, Color), z, x)
    ensures before + BandColors[Band(y)] + [1.0] == Flatten(PixelGrid(img, Color), z) + Row(PixelGrid(img, Color), z, x + 1)
  {
    var g := PixelGrid(img, Color);
    assert y == Elevation(Red(img, x, z));
    var after := before + BandColors[Band(y)] + [1.0];
    assert after == before + g[z][x];
    RecordStep(g, z, x, Flatten(g, z), before, after);
  }

  /** The buffers hold exactly the first z rows of pixels. */
  ghost predicate RowsBuilt(img: ImageData, z: nat, vertices: seq<real>, colors: seq<real>)
    requires img.Valid() && z <= img.height
  {
    vertices == Flatten(PixelGrid(img, Position), z) && colors == Flatten(PixelGrid(img, Color), z)
  }

  /** The buffers hold exactly the first z rows and the first x pixels of
      row z. */
  ghost predicate Built(img: ImageData, z: nat, x: nat, vertices: seq<real>, colors: seq<real>)
    requires img.Valid() && z < img.height && x <= img.width
  {
    vertices == Flatten(PixelGrid(img, Position), z) + Row(PixelGrid(img, Position), z, x) &&
    colors == Flatten(PixelGrid(img, Color), z) + Row(PixelGrid(img, Color), z, x)
  }

  /** Starting row z: no pixel of it is in the buffers yet. */
  lemma RowStart(img: ImageData, z: nat, vertices: seq<real>, colors: seq<real>)
    requires img.Valid() && z < img.height
    requires RowsBuilt(img, z, vertices, colors)
    ensures Built(img, z, 0, vertices, colors)
  {
  }

  /** One iteration of the inner loop, where y is the scaled red byte of
      pixel (x, z), pushes that pixel's position and, whichever branch of
      the if chain of `generateTerrain` y selects, that pixel's colour. */
  lemma PixelStep(img: ImageData, x: nat, z: nat, y: real, vertices: seq<real>, colors: seq<real>)
    requires img.Valid() && z < img.height && x < img.width
    requires y == Red(img, x, z) as real / 255.0
    requires Built(img, z, x, vertices, colors)
    ensures var pushed := vertices + [x as real - img.width as real / 2.0] + [y * 5.0] + [z as real - img.height as real / 2.0];
      (y <= 0.5 ==> Built(img, z, x + 1, pushed, colors + BandColors[0] + [1.0])) &&
      (y > 0.5 && y <= 0.8 ==> Built(img, z, x + 1, pushed, colors + BandColors[1] + [1.0])) &&
      (!(y <= 0.5) && !(y > 0.5 && y <= 0.8) ==> Built(img, z, x + 1, pushed, colors + BandColors[2] + [1.0]))
  {
    VertexStep(img, x, z, y, vertices);
    ColorStep(img, x, z, y, colors);
  }

  /** Finishing row z: the buffers hold the first z + 1 rows. */
  lemma RowEnd(img: ImageData, z: nat, vertices: seq<real>, colors: seq<real>)
    requires img.Valid() && z < img.height
    requires Built(img, z, img.width, vertices, colors)
    ensures RowsBuilt(img, z + 1, vertices, colors)
  {
    RowDone(PixelGrid(img, Position), z, img.width);
    RowDone(PixelGrid(img, Color), z, img.width);
  }

  /** After all rows, the buffers are the finished ones, three and four
      numbers per pixel. */
  lemma AllRowsBuilt(img: ImageData, vertices: seq<real>, colors: seq<real>)
    requires img.Valid() && RowsBuilt(img, img.height, vertices, colors)
    ensures vertices == Positions(img) && colors == Colors(img)
    ensures |vertices| == 3 * img.width * img.height
    ensures |colors| == 4 * img.width * img.height
  {
    FlattenLength(PixelGrid(img, Position), img.width, 3, img.height);
    FlattenLength(PixelGrid(img, Color), img.width, 4, img.height);
    MulAssoc(3, img.width, img.height);
    MulAssoc(4, img.width, img.height);
  }

  /** The `stride` slots of pixel (x, z), whose row-major number is k, in
      either finished buffer, hold that pixel's record; its red byte is the
      byte at 4k. */
  lemma PixelSlots(img: ImageData, a: Attribute, x: nat, z: nat, k: nat)
    requires img.Valid() && x < img.width && z < img.height && k == z * img.width + x
    ensures |Flatten(PixelGrid(img, a), img.height)| == Stride(a) * img.width * img.height
    ensures Stride(a) * k + Stride(a) <= |Flatten(PixelGrid(img, a), img.height)|
    ensures Flatten(PixelGrid(img, a), img.height)[Stride(a) * k..Stride(a) * k + Stride(a)]
         == PixelAttribute(img, a, x, z)
    ensures 4 * k < |img.data| && img.data[4 * k] == Red(img, x, z)
  {
    FlattenSlots(PixelGrid(img, a), img.width, Stride(a), x, z, k);
    MulAssoc(Stride(a), img.width, img.height);
    ReadIndexInBounds(img, x, z);
  }

  /** The `vertices` buffer holds 3 * width * height numbers, and pixel
      (x, z), whose row-major number is k = z * width + x, is the vertex
      (x - width/2, 5 * red/255, z - height/2) in slots 3k, 3k + 1, 3k + 2,
      where red is the byte at 4k. */
  lemma VertexAt(img: ImageData, x: nat, z: nat, k: nat)
    requires img.Valid() && x < img.width && z < img.height && k == z * img.width + x
    ensures |Positions(img)| == 3 * img.width * img.height
    ensures 3 * k + 3 <= |Positions(img)| && 4 * k < |img.data|
    ensures Positions(img)[3 * k..3 * k + 3]
         == [x as real - img.width as real / 2.0,
             (img.data[4 * k] as real / 255.0) * 5.0,
             z as real - img.height as real / 2.0]
  {
    PixelSlots(img, Position, x, z, k);
  }

  /** The `colors` buffer holds 4 * width * height numbers; pixel (x, z),
      whose row-major number is k = z * width + x, gets, in slots
      4k .. 4k + 2, exactly one of the three band colours (the one its red
      byte selects) and, in slot 4k + 3, alpha 1. */
  lemma ColorAt(img: ImageData, x: nat, z: nat, k: nat, b: nat)
    requires img.Valid() && x < img.width && z < img.height && k == z * img.width + x
    requires b < |BandColors|
    ensures |Colors(img)| == 4 * img.width * img.height
    ensures 4 * k + 4 <= |Colors(img)| && 4 * k < |img.data|
    ensures Colors(img)[4 * k + 3] == 1.0
    ensures Colors(img)[4 * k..4 * k + 3] == BandColors[b] <==> b == Band(Elevation(img.data[4 * k]))
  {
    PixelSlots(img, Color, x, z, k);
    var r := Red(img, x, z);
    PixelColorExactlyOneBand(r, b);
    SliceParts(Colors(img), 4 * k, 3);
  }

  /** Every vertex lies in the box [-width/2, width/2 - 1] x [0, 5] x
      [-height/2, height/2 - 1]. */
  lemma VertexBounds(img: ImageData)
    requires img.Valid()
    ensures forall p | 0 <= p < |Positions(img)| ::
      (p % 3 == 0 ==> -(img.width as real) / 2.0 <= Positions(img)[p] <= img.width as real / 2.0 - 1.0) &&
      (p % 3 == 1 ==> 0.0 <= Positions(img)[p] <= 5.0) &&
      (p % 3 == 2 ==> -(img.height as real) / 2.0 <= Positions(img)[p] <= img.height as real / 2.0 - 1.0)
  {
    var g := PixelGrid(img, Position);
    FlattenLength(g, img.width, 3, img.height);
    forall p | 0 <= p < |Positions(img)|
      ensures p % 3 == 0 ==> -(img.width as real) / 2.0 <= Positions(img)[p] <= img.width as real / 2.0 - 1.0
      ensures p % 3 == 1 ==> 0.0 <= Positions(img)[p] <= 5.0
      ensures p % 3 == 2 ==> -(img.height as real) / 2.0 <= Positions(img)[p] <= img.height as real / 2.0 - 1.0
    {
      var x, z, c := Locate(img.width, img.height, 3, p);
      FlattenAt(g, img.width, 3, img.height, x, z, c);
      assert Positions(img)[p] == PixelAttribute(img, Position, x, z)[c];
    }
  }

  /** Every fourth colour component, the alpha, is 1. */
  lemma AlphaOpaque(img: ImageData)
    requires img.Valid()
    ensures forall p | 0 <= p < |Colors(img)| && p % 4 == 3 :: Colors(img)[p] == 1.0
  {
    var g := PixelGrid(img, Color);
    FlattenLength(g, img.width, 4, img.height);
    forall p | 0 <= p < |Colors(img)| && p % 4 == 3
      ensures Colors(img)[p] == 1.0
    {
      var x, z, c := Locate(img.width, img.height, 4, p);
      FlattenAt(g, img.width, 4, img.height, x, z, c);
      assert Colors(img)[p] == PixelColor(Red(img, x, z))[3];
    }
  }
}
