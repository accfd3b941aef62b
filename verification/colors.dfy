/** Colours as the strips store them: four 8-bit channels (red, green, blue,
    white). A strip compares colours either exactly, or only on the first
    `bpp` channels, where `bpp` is the length of the strip's pixel order
    (3 for GRB strips, 4 for GRBW strips). */
module Colors {

  newtype byte = x: int | 0 <= x < 256

  datatype Color = Color(r: byte, g: byte, b: byte, w: byte)

  const OFF := Color(0, 0, 0, 0)
  const WHITE := Color(0, 0, 0, 255)

  const YELLOW := Color(200, 155, 0, 0)
  const GREEN := Color(50, 150, 50, 0)
  const BLUE := Color(0, 0, 100, 0)
  const PURPLE := Color(180, 50, 180, 0)
  const PINK := Color(231, 84, 128, 0)
  const ORANGE := Color(155, 50, 0, 0)
  const WHITE_RGB := Color(100, 100, 100, 0)

  const RED := Color(100, 5, 5, 0)
  const CYAN := Color(0, 100, 100, 0)
  const MINT := Color(62, 180, 137, 0)

  /** The channels of `c` in tuple order. */
  function Channels(c: Color): seq<byte> {
    [c.r, c.g, c.b, c.w]
  }

  /** Python's slice `c[:k]` of the channel tuple: the first `k` channels,
      or all four when `k` is larger. */
  function Prefix(c: Color, k: nat): (p: seq<byte>)
    ensures |p| == if k < 4 then k else 4
  {
    if k < 4 then Channels(c)[..k] else Channels(c)
  }

  /** Equality scoped to the strip's bits per pixel: `a[:bpp] == b[:bpp]`. */
  function SameOn(a: Color, b: Color, bpp: nat): (same: bool)
    ensures a == b ==> same
    ensures bpp >= 4 ==> (same <==> a == b)
    ensures bpp == 3 ==> (same <==> a.r == b.r && a.g == b.g && a.b == b.b)
    ensures bpp == 2 ==> (same <==> a.r == b.r && a.g == b.g)
    ensures bpp == 1 ==> (same <==> a.r == b.r)
    ensures bpp == 0 ==> same
  {
    var same := Prefix(a, bpp) == Prefix(b, bpp);
    assert bpp >= 4 && same ==> Channels(a)[3] == Channels(b)[3];
    assert bpp == 3 ==> Prefix(a, bpp) == [a.r, a.g, a.b] && Prefix(b, bpp) == [b.r, b.g, b.b];
    assert bpp == 2 ==> Prefix(a, bpp) == [a.r, a.g] && Prefix(b, bpp) == [b.r, b.g];
    assert bpp == 1 ==> Prefix(a, bpp) == [a.r] && Prefix(b, bpp) == [b.r];
    same
  }

  /** The indices of `pixels` whose colour matches `c` on the first `bpp` channels. */
  function Matching(pixels: seq<Color>, c: Color, bpp: nat): set<int> {
    set i | 0 <= i < |pixels| && SameOn(pixels[i], c, bpp)
  }

  /** The number of pixels showing `c` (NovaStar.count_pixels_colored). */
  function CountColored(pixels: seq<Color>, c: Color, bpp: nat): (count: nat)
    ensures count <= |pixels|
  {
    if |pixels| == 0 then 0
    else
      var last := |pixels| - 1;
      var front := pixels[..last];
      var hit := SameOn(pixels[last], c, bpp);
      assert forall i :: 0 <= i < last ==> front[i] == pixels[i];
      CountColored(front, c, bpp) + (if hit then 1 else 0)
  }

  /** The count is 0 exactly when no pixel matches. */
  lemma {:induction false} CountNone(pixels: seq<Color>, c: Color, bpp: nat)
    ensures CountColored(pixels, c, bpp) == 0 <==> forall i :: 0 <= i < |pixels| ==> !SameOn(pixels[i], c, bpp)
  {
    if |pixels| > 0 {
      var last := |pixels| - 1;
      var front := pixels[..last];
      CountNone(front, c, bpp);
      assert forall i :: 0 <= i < last ==> front[i] == pixels[i];
    }
  }

  /** The count is the pixel count exactly when every pixel matches. */
  lemma {:induction false} CountAll(pixels: seq<Color>, c: Color, bpp: nat)
    ensures CountColored(pixels, c, bpp) == |pixels| <==> forall i :: 0 <= i < |pixels| ==> SameOn(pixels[i], c, bpp)
  {
    if |pixels| > 0 {
      var last := |pixels| - 1;
      var front := pixels[..last];
      CountAll(front, c, bpp);
      assert forall i :: 0 <= i < last ==> front[i] == pixels[i];
    }
  }

  /** The count is the number of matching indices that `Matching` collects. */
  lemma {:induction false} CountIsMatchingSize(pixels: seq<Color>, c: Color, bpp: nat)
    ensures CountColored(pixels, c, bpp) == |Matching(pixels, c, bpp)|
  {
    if |pixels| > 0 {
      CountIsMatchingSize(pixels[..|pixels| - 1], c, bpp);
      MatchingSnoc(pixels, c, bpp);
    }
  }

  /** Dropping the last pixel drops at most its own index from the matches. */
  lemma MatchingSnoc(pixels: seq<Color>, c: Color, bpp: nat)
    requires |pixels| > 0
    ensures Matching(pixels, c, bpp) ==
      Matching(pixels[..|pixels| - 1], c, bpp) + (if SameOn(pixels[|pixels| - 1], c, bpp) then {|pixels| - 1} else {})
  {
    var last := |pixels| - 1;
    var front := pixels[..last];
    assert forall i :: 0 <= i < last ==> front[i] == pixels[i];
  }
}
