/** Elevation and the three fixed colour bands of the terrain. `generateTerrain`
    works in JavaScript numbers; here they are exact reals. */
module Bands {
  import opened Image

  /** `data[index] / 255`: the red byte scaled to the unit interval. */
  function Elevation(r: Byte): (y: real)
    ensures 0.0 <= y <= 1.0
    ensures y == 0.0 <==> r == 0
    ensures y == 1.0 <==> r == 255
  {
    r as real / 255.0
  }

  /** `y * 5`: the height of a vertex above the ground plane. */
  function Height(r: Byte): (h: real)
    ensures 0.0 <= h <= 5.0
  {
    Elevation(r) * 5.0
  }

  /** The RGB triples of `colorInfos`: low ground, middle ground, peaks. */
  const BandColors: seq<seq<real>> := [[0.38, 0.68, 0.3], [0.8, 0.8, 0.3], [0.99, 0.99, 0.99]]

  /** The band picked by the `if y <= 0.5 … else if y > 0.5 && y <= 0.8 … else`
      chain. */
  function Band(y: real): (b: nat)
    ensures b < |BandColors|
  {
    if y <= 0.5 then 0
    else if y > 0.5 && y <= 0.8 then 1
    else 2
  }

  /** The four colour components pushed for a pixel with red byte r: the
      band's RGB followed by an opaque alpha. */
  function PixelColor(r: Byte): (c: seq<real>)
    ensures |c| == 4 && c[3] == 1.0
    ensures c[..3] == BandColors[Band(Elevation(r))]
  {
    BandColors[Band(Elevation(r))] + [1.0]
  }

  /** The thresholds 0.5 and 0.8 on the elevation fall between the bytes
      127 / 128 and 204 / 205. */
  lemma BandOfByte(r: Byte)
    ensures Band(Elevation(r)) == 0 <==> r <= 127
    ensures Band(Elevation(r)) == 1 <==> 128 <= r <= 204
    ensures Band(Elevation(r)) == 2 <==> 205 <= r
  {
    assert 127.0 / 255.0 <= 0.5 < 128.0 / 255.0;
    assert 204.0 / 255.0 <= 0.8 < 205.0 / 255.0;
  }

  /** A higher elevation never lands in a lower band. */
  lemma BandMonotone(y1: real, y2: real)
    requires y1 <= y2
    ensures Band(y1) <= Band(y2)
  {
  }

  /** The same for bytes: a brighter red never gives a lower band. */
  lemma BandOfByteMonotone(r1: Byte, r2: Byte)
    requires r1 <= r2
    ensures Band(Elevation(r1)) <= Band(Elevation(r2))
  {
    BandMonotone(Elevation(r1), Elevation(r2));
  }

  /** The three band colours are pairwise distinct RGB triples, so a colour
      names its band. */
  lemma BandColorsDistinct(b1: nat, b2: nat)
    requires b1 < |BandColors| && b2 < |BandColors|
    ensures |BandColors[b1]| == 3
    ensures BandColors[b1] == BandColors[b2] <==> b1 == b2
  {
    if b1 != b2 {
      assert BandColors[b1][0] != BandColors[b2][0] || BandColors[b1][1] != BandColors[b2][1];
    }
  }

  /** Every pixel gets exactly one band colour and an alpha of 1. */
  lemma PixelColorExactlyOneBand(r: Byte, b: nat)
    requires b < |BandColors|
    ensures |PixelColor(r)| == 4 && PixelColor(r)[3] == 1.0
    ensures PixelColor(r)[..3] == BandColors[b] <==> b == Band(Elevation(r))
  {
    assert PixelColor(r)[..3] == BandColors[Band(Elevation(r))];
    BandColorsDistinct(b, Band(Elevation(r)));
  }
}
