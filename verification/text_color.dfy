/**
 The colour of the percentage text drawn over the most frequent colour:
 `(~c & 0xff) + (~c & 0xff00) + (~c & 0xff0000)` on a packed ARGB `Int`.
 An `Int` is modelled by its 32 bits; Kotlin's wrapping `+` is `bv32` addition.
 */
module TextColor {

  type Argb = bv32

  function Alpha(c: Argb): bv32 { (c >> 24) & 0xFF }
  function Red(c: Argb): bv32 { (c >> 16) & 0xFF }
  function Green(c: Argb): bv32 { (c >> 8) & 0xFF }
  function Blue(c: Argb): bv32 { c & 0xFF }

  /**
   The expression as written. The three masks are disjoint, so the sum is the
   bitwise union: the colour with its RGB bits inverted and the alpha byte
   cleared.
   */
  function ComplementAsWritten(color: Argb): (c: Argb)
    ensures c == !color & 0x00FF_FFFF
    ensures Alpha(c) == 0
  {
    (!color & 0xFF) + (!color & 0xFF00) + (!color & 0xFF_0000)
  }

  /** Each channel of the as-written result is the complement of the input's channel. */
  lemma ComplementChannels(color: Argb)
    ensures Red(ComplementAsWritten(color)) == 0xFF - Red(color)
    ensures Green(ComplementAsWritten(color)) == 0xFF - Green(color)
    ensures Blue(ComplementAsWritten(color)) == 0xFF - Blue(color)
  {
  }

  /** Every colour, opaque or not, yields a text colour with alpha 0: fully transparent text. */
  lemma AsWrittenIsTransparent()
    ensures ComplementAsWritten(0xFF00_0000) == 0x00FF_FFFF
    ensures forall color: Argb :: Alpha(ComplementAsWritten(color)) == 0
  {
  }

  /** The evidently intended text colour: the RGB complement, fully opaque. */
  function OpaqueComplement(color: Argb): (c: Argb)
    ensures Alpha(c) == 0xFF
    ensures c & 0x00FF_FFFF == ComplementAsWritten(color)
  {
    0xFF00_0000 | ComplementAsWritten(color)
  }

  /** Each channel of the intended text colour is the complement of the input's channel. */
  lemma OpaqueComplementChannels(color: Argb)
    ensures Red(OpaqueComplement(color)) == 0xFF - Red(color)
    ensures Green(OpaqueComplement(color)) == 0xFF - Green(color)
    ensures Blue(OpaqueComplement(color)) == 0xFF - Blue(color)
  {
    var c := OpaqueComplement(color);
    assert c == 0xFF00_0000 | (!color & 0x00FF_FFFF);
    assert Red(c) == 0xFF - Red(color);
    assert Green(c) == 0xFF - Green(color);
  }

  /** Complementing twice gives back the colour made opaque. */
  lemma OpaqueComplementInvolution(color: Argb)
    ensures OpaqueComplement(OpaqueComplement(color)) == 0xFF00_0000 | color
  {
  }
}
