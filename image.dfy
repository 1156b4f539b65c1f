/** The pixel buffer the terrain generator reads: a canvas `ImageData` of
    `width * height` pixels stored row by row, four bytes (R, G, B, A) per
    pixel. Pixel (x, z) is pixel number `z * width + x`. */
module Image {
  import opened RowMajor

  /** One entry of the canvas' `Uint8ClampedArray`. */
  type Byte = b: int | 0 <= b < 256

  datatype ImageData = ImageData(width: nat, height: nat, data: seq<Byte>)
  {
    /** A canvas always hands out exactly four bytes per pixel. */
    predicate Valid() {
      |data| == 4 * width * height
    }
  }

  /** The offset `x * 4 + z * width * 4` at which the generator reads pixel (x, z). */
  function ReadIndex(width: nat, x: nat, z: nat): (i: nat)
    ensures i == 4 * (z * width + x)
  {
    x * 4 + z * width * 4
  }

  /** The read at x * 4 + z * width * 4 stays inside the buffer with room for
      all four channels, and it is the red byte of pixel z * width + x. */
  lemma ReadIndexInBounds(img: ImageData, x: nat, z: nat)
    requires img.Valid() && x < img.width && z < img.height
    ensures ReadIndex(img.width, x, z) == 4 * (z * img.width + x)
    ensures z * img.width + x < img.width * img.height
    ensures ReadIndex(img.width, x, z) + 3 < |img.data|
  {
    PixelInGrid(img.width, img.height, x, z);
  }

  /** The red byte of pixel (x, z), the only channel the generator uses. */
  function Red(img: ImageData, x: nat, z: nat): (r: Byte)
    requires img.Valid() && x < img.width && z < img.height
    ensures 4 * (z * img.width + x) < |img.data| && r == img.data[4 * (z * img.width + x)]
  {
    ReadIndexInBounds(img, x, z);
    img.data[ReadIndex(img.width, x, z)]
  }

  /** The byte the generator reads at `x * 4 + z * width * 4` is in the
      buffer and is pixel (x, z)'s red byte. */
  lemma RedRead(img: ImageData, x: nat, z: nat)
    requires img.Valid() && x < img.width && z < img.height
    ensures x * 4 + z * img.width * 4 < |img.data|
    ensures img.data[x * 4 + z * img.width * 4] == Red(img, x, z)
  {
    ReadIndexInBounds(img, x, z);
  }
}
