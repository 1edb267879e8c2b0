/** Colours as the image stores and blends them: four real channels, with no clamping. */
module Colors {

  /** Unity's `Color`: red, green, blue and alpha, conventionally in [0, 1]. */
  datatype Color = Color(r: real, g: real, b: real, a: real)

  /** `Color.clear`: every channel zero. */
  const Clear: Color := Color(0.0, 0.0, 0.0, 0.0)

  /** One step of the blend in `UPAImage.GetBlendedPixel`: `src` is laid over the
      accumulated colour `dst`, every channel (alpha included) becoming
      src + dst * (1 - src.a). This is the Porter-Duff "source over" formula for
      premultiplied colours, applied to the colours exactly as stored. */
  function Over(src: Color, dst: Color): (c: Color)
    ensures src.a == 1.0 ==> c == src
    ensures dst == Clear ==> c == src
    ensures src == Clear ==> c == dst
    ensures src.a == 0.0 ==> c.a == dst.a
  {
    Color(src.r + dst.r * (1.0 - src.a),
          src.g + dst.g * (1.0 - src.a),
          src.b + dst.b * (1.0 - src.a),
          src.a + dst.a * (1.0 - src.a))
  }

  /** Every channel in [0, 1]: a colour as a straight-alpha picker produces it. */
  predicate InUnitRange(c: Color)
  {
    0.0 <= c.r <= 1.0 && 0.0 <= c.g <= 1.0 && 0.0 <= c.b <= 1.0 && 0.0 <= c.a <= 1.0
  }

  /** Every colour channel in [0, a] and alpha in [0, 1]: the range of a premultiplied colour. */
  predicate Premultiplied(c: Color)
  {
    0.0 <= c.r <= c.a && 0.0 <= c.g <= c.a && 0.0 <= c.b <= c.a && c.a <= 1.0
  }

  /** One channel of the blend over premultiplied inputs stays in [0, the blended alpha]. */
  lemma ChannelOver(s: real, sa: real, d: real, da: real)
    requires 0.0 <= s <= sa <= 1.0 && 0.0 <= d <= da <= 1.0
    ensures 0.0 <= s + d * (1.0 - sa) <= sa + da * (1.0 - sa) <= 1.0
  {
    var k := 1.0 - sa;
    assert 0.0 <= d * k by { assert 0.0 <= k; }
    assert da * k - d * k == (da - d) * k;
    assert 1.0 * k - da * k == (1.0 - da) * k;
  }

  /** The blend keeps colours premultiplied: over premultiplied inputs it behaves as the
      textbook operator and never leaves the premultiplied range. */
  lemma OverKeepsPremultiplied(src: Color, dst: Color)
    requires Premultiplied(src) && Premultiplied(dst)
    ensures Premultiplied(Over(src, dst))
  {
    ChannelOver(src.r, src.a, dst.r, dst.a);
    ChannelOver(src.g, src.a, dst.g, dst.a);
    ChannelOver(src.b, src.a, dst.b, dst.a);
    ChannelOver(src.a, src.a, dst.a, dst.a);
  }

  /** The blend keeps alpha in [0, 1] whatever the colour channels hold. */
  lemma OverKeepsAlphaInUnitRange(src: Color, dst: Color)
    requires 0.0 <= src.a <= 1.0 && 0.0 <= dst.a <= 1.0
    ensures 0.0 <= Over(src, dst).a <= 1.0
  {
    ChannelOver(src.a, src.a, dst.a, dst.a);
  }

  /** Applied to straight-alpha colours the blend can leave [0, 1]: half-transparent red
      over opaque red has a red channel of 1.5. */
  lemma OverOfStraightColoursCanOverflow()
    ensures exists src, dst :: InUnitRange(src) && InUnitRange(dst) && !InUnitRange(Over(src, dst))
  {
    var src := Color(1.0, 0.0, 0.0, 0.5);
    var dst := Color(1.0, 0.0, 0.0, 1.0);
    assert Over(src, dst).r == 1.5;
    assert InUnitRange(src) && InUnitRange(dst) && !InUnitRange(Over(src, dst));
  }

  /** A pixel of alpha 0 can still show: its colour channels are added whole, so fully
      transparent red laid over a clear pixel leaves it red. */
  lemma AlphaZeroSourceIsVisible()
    ensures exists src: Color, dst: Color :: src.a == 0.0 && Over(src, dst) != dst
  {
    var src := Color(1.0, 0.0, 0.0, 0.0);
    assert Over(src, Clear) == src;
    assert src.r != Clear.r;
  }

  /** A pixel of alpha 0 leaves the colour below it unchanged exactly when its colour
      channels are 0 as well, that is, when it is clear. */
  lemma AlphaZeroInvisibleOnlyIfClear(src: Color, dst: Color)
    requires src.a == 0.0
    ensures Over(src, dst) == dst <==> src == Clear
  {
    var c := Over(src, dst);
    assert c.r == src.r + dst.r && c.g == src.g + dst.g && c.b == src.b + dst.b;
  }

  /** Half-transparent blue, as a straight colour (0, 0, 1, 0.5), over opaque red gives
      (0.5, 0, 1, 1): the blue channel is taken whole, not weighted by its alpha. */
  lemma HalfBlueOverRed()
    ensures Over(Color(0.0, 0.0, 1.0, 0.5), Color(1.0, 0.0, 0.0, 1.0)) == Color(0.5, 0.0, 1.0, 1.0)
  {
  }
}
