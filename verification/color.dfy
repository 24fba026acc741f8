/**
  The colour constants and the distinct-colour palette of the engine's
  colour type.

  A colour is modelled by its red, green and blue components. The colour
  type's own declaration (its alpha component and its byte layout) is not
  part of this model; the palette is taken to hold exactly the 36 colours
  listed, which is what the source's length expression (the size of the
  table divided by the size of a 32-bit word) yields for a 4-byte colour.
 */
module Colors {

  /** One colour channel: an unsigned 8-bit value. */
  type Byte = x: int | 0 <= x < 0x100

  /** The C++ `int` the palette lookup takes. */
  type Int32 = x: int | -0x8000_0000 <= x < 0x8000_0000

  datatype Color = Color(r: Byte, g: Byte, b: Byte)

  // The predefined colours
  const Black: Color := Color(0, 0, 0)
  const DarkRed: Color := Color(128, 0, 0)
  const Red: Color := Color(255, 0, 0)
  const DarkGreen: Color := Color(0, 128, 0)
  const Green: Color := Color(0, 255, 0)
  const DarkBlue: Color := Color(0, 0, 128)
  const Blue: Color := Color(0, 0, 255)
  const Yellow: Color := Color(255, 255, 0)
  const Purple: Color := Color(255, 0, 255)
  const Cyan: Color := Color(0, 255, 255)
  const Orange: Color := Color(255, 128, 0)
  const DarkOrange: Color := Color(128, 64, 0)
  const Grey: Color := Color(128, 128, 128)
  const LightGrey: Color := Color(192, 192, 192)
  const White: Color := Color(255, 255, 255)

  /** All predefined colours, in declaration order. */
  const Predefined: seq<Color> := [
    Black, DarkRed, Red, DarkGreen, Green, DarkBlue, Blue, Yellow,
    Purple, Cyan, Orange, DarkOrange, Grey, LightGrey, White
  ]

  /** The palette of mutually distinguishable colours, in table order. */
  const DistinctColors: seq<Color> := [
    Color(255, 0, 0), Color(204, 143, 102), Color(226, 242, 0), Color(41, 166, 124),
    Color(0, 170, 255), Color(69, 38, 153), Color(153, 38, 130), Color(229, 57, 80),
    Color(204, 0, 0), Color(255, 170, 0), Color(85, 128, 0), Color(64, 255, 217),
    Color(0, 75, 140), Color(161, 115, 230), Color(242, 61, 157), Color(178, 101, 89),
    Color(140, 94, 0), Color(181, 217, 108), Color(64, 242, 255), Color(77, 117, 153),
    Color(157, 61, 242), Color(140, 0, 56), Color(127, 57, 32), Color(204, 173, 51),
    Color(64, 255, 64), Color(38, 145, 153), Color(0, 102, 255), Color(242, 0, 226),
    Color(153, 77, 107), Color(229, 92, 0), Color(140, 126, 70), Color(0, 179, 71),
    Color(0, 194, 242), Color(27, 0, 204), Color(230, 115, 222), Color(127, 0, 17)
  ]

  /** A colour is grey when its three channels are equal. */
  predicate IsGrey(c: Color) {
    c.r == c.g == c.b
  }

  /**
    The colour with the given index in the palette; indices past the end
    wrap around. Only non-negative indices are accepted.
   */
  function GetDistinctColor(index: Int32): (c: Color)
    requires index >= 0
    ensures c in DistinctColors
    ensures index < |DistinctColors| ==> c == DistinctColors[index]
  {
    var k := index % |DistinctColors|;
    assert index < |DistinctColors| ==> k == index;
    assert DistinctColors[k] in DistinctColors;
    DistinctColors[k]
  }

  /** The palette has 36 entries and the first one is pure red. */
  lemma PaletteShape()
    ensures |DistinctColors| == 36
    ensures GetDistinctColor(0) == Red
  {
  }

  /** No colour occurs twice in the palette. */
  lemma DistinctColorsAreDistinct()
    ensures forall i, j :: 0 <= i < j < |DistinctColors| ==> DistinctColors[i] != DistinctColors[j]
  {
  }

  /** Stepping the index by the palette length gives the same colour. */
  lemma DistinctColorPeriodic(index: Int32)
    requires 0 <= index && index + 36 < 0x8000_0000
    ensures GetDistinctColor(index) == GetDistinctColor(index + 36)
  {
    ResidueOfMultiple(index, 1);
  }

  /** Stepping the index by any multiple of the palette length gives the same colour. */
  lemma DistinctColorPeriodicMultiple(index: Int32, k: nat)
    requires 0 <= index && index + 36 * k < 0x8000_0000
    ensures GetDistinctColor(index + 36 * k) == GetDistinctColor(index)
  {
    ResidueOfMultiple(index, k);
  }

  lemma ResidueOfMultiple(x: nat, k: nat)
    ensures (x + 36 * k) % 36 == x % 36
  {
  }

  /**
    Two indices give the same colour exactly when they are congruent
    modulo the palette length.
   */
  lemma SameDistinctColorIffCongruent(i: Int32, j: Int32)
    requires 0 <= i && 0 <= j
    ensures GetDistinctColor(i) == GetDistinctColor(j) <==> i % 36 == j % 36
  {
    DistinctColorsAreDistinct();
  }

  /**
    The predefined colours are pairwise distinct; black, grey, light grey
    and white are the grey levels, from darkest to lightest; and pure red
    is the first colour of the palette.
   */
  lemma PredefinedColors()
    ensures forall i, j :: 0 <= i < j < |Predefined| ==> Predefined[i] != Predefined[j]
    ensures IsGrey(Black) && IsGrey(Grey) && IsGrey(LightGrey) && IsGrey(White)
    ensures Black.r < Grey.r < LightGrey.r < White.r
    ensures Black.r == 0 && Grey.r == 128 && LightGrey.r == 192 && White.r == 0xFF
    ensures forall c :: c in Predefined && IsGrey(c) ==> c in {Black, Grey, LightGrey, White}
    ensures Red == DistinctColors[0]
  {
  }
}
