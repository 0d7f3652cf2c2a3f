/** `createTextTexture` (utils/gallery-helpers.ts:4-23, repeated in
    components/Gallery.tsx:215-234 and framer/GalleryComponent.tsx:405-424): the caption
    of one project, its upper-cased title on the left and its year on the right of a
    2048 × 256 canvas. */
module Caption {
  import opened GalleryTypes
  import opened CanvasModel
  import opened AtlasBuilder
  import opened CellAddressing

  const CAPTION_WIDTH := 2048
  const CAPTION_HEIGHT := 256
  const MARGIN := 30
  const BASELINE_Y := 128
  const CAPTION_FONT := "bold 80px \"IBM Plex Mono\""
  const CAPTION_GREY := "rgb(128, 128, 128)"

  predicate IsLowerAscii(c: char) { 'a' <= c <= 'z' }

  /** `toUpperCase` on one character, for the ASCII letters. */
  function UpperChar(c: char): char
  {
    if IsLowerAscii(c) then (c as int - 32) as char else c
  }

  /** `toUpperCase` on a string, character by character. */
  function Upper(s: string): (r: string)
    ensures |r| == |s|
    ensures forall i :: 0 <= i < |s| ==> r[i] == UpperChar(s[i])
    decreases |s|
  {
    if s == [] then [] else Upper(s[..|s| - 1]) + [UpperChar(s[|s| - 1])]
  }

  /** Upper-casing leaves no lower-case ASCII letter, and keeps every other character. */
  lemma UpperLeavesNoLowerCase(s: string)
    ensures forall i :: 0 <= i < |s| ==> !IsLowerAscii(Upper(s)[i])
    ensures forall i :: 0 <= i < |s| && !IsLowerAscii(s[i]) ==> Upper(s)[i] == s[i]
  {
  }

  /** Upper-casing a caption twice gives what upper-casing it once does. */
  lemma UpperIdempotent(s: string)
    ensures Upper(Upper(s)) == Upper(s)
  {
    UpperLeavesNoLowerCase(s);
  }

  predicate IsDigit(c: char) { '0' <= c <= '9' }

  function DigitChar(d: nat): char
    requires d < 10
  {
    ('0' as int + d) as char
  }

  function DigitValue(c: char): nat
    requires IsDigit(c)
  {
    c as int - '0' as int
  }

  /** The decimal digits of n, most significant first, without leading zeros. */
  function NatDigits(n: nat): (s: string)
    ensures |s| > 0
    ensures forall i :: 0 <= i < |s| ==> IsDigit(s[i])
    ensures |s| > 1 ==> s[0] != '0'
    decreases n
  {
    if n < 10 then [DigitChar(n)] else NatDigits(n / 10) + [DigitChar(n % 10)]
  }

  /** The number a string of digits denotes: the reference reading of a decimal. */
  function DigitsValue(s: string): nat
    requires forall i :: 0 <= i < |s| ==> IsDigit(s[i])
    decreases |s|
  {
    if s == [] then 0 else DigitsValue(s[..|s| - 1]) * 10 + DigitValue(s[|s| - 1])
  }

  /** Reading back the digits of n gives n. */
  lemma {:induction false} NatDigitsRoundTrip(n: nat)
    ensures DigitsValue(NatDigits(n)) == n
    decreases n
  {
    if n >= 10 {
      NatDigitsRoundTrip(n / 10);
      var a := NatDigits(n / 10);
      var s := NatDigits(n);
      assert s == a + [DigitChar(n % 10)];
      assert s[..|s| - 1] == a;
    }
  }

  /** `year.toString()` for an integral year: a minus sign before the digits of a
      negative one. */
  function Decimal(year: int): string
  {
    if year < 0 then "-" + NatDigits(-year) else NatDigits(year)
  }

  /** The reading of a decimal integer: an optional minus sign and at least one digit. */
  function ParseDecimal(s: string): Option<int>
  {
    if |s| > 0 && s[0] == '-' then
      (if |s| > 1 && forall i :: 1 <= i < |s| ==> IsDigit(s[i]) then Some(-(DigitsValue(s[1..]) as int)) else None)
    else if |s| > 0 && forall i :: 0 <= i < |s| ==> IsDigit(s[i]) then Some(DigitsValue(s) as int)
    else None
  }

  /** The year printed on a caption reads back as that year. */
  lemma DecimalRoundTrip(year: int)
    ensures ParseDecimal(Decimal(year)) == Some(year)
  {
    if year < 0 {
      NatDigitsRoundTrip(-year);
      ParseDigits(NatDigits(-year));
    } else {
      NatDigitsRoundTrip(year);
      ParseDigits(NatDigits(year));
    }
  }

  /** A non-empty run of digits reads as its value, and as minus its value behind a sign. */
  lemma ParseDigits(d: string)
    requires |d| > 0 && forall i :: 0 <= i < |d| ==> IsDigit(d[i])
    ensures ParseDecimal(d) == Some(DigitsValue(d) as int)
    ensures ParseDecimal("-" + d) == Some(-(DigitsValue(d) as int))
  {
    var s := "-" + d;
    assert s[1..] == d;
    assert forall i :: 1 <= i < |s| ==> s[i] == d[i - 1];
    assert !IsDigit('-');
  }

  /** Different years print differently. */
  lemma DecimalInjective(a: int, b: int)
    requires Decimal(a) == Decimal(b)
    ensures a == b
  {
    DecimalRoundTrip(a);
    DecimalRoundTrip(b);
  }

  /** What `createTextTexture` paints when a 2D context is available. */
  function CaptionOps(title: string, year: int): seq<PaintOp>
  {
    [ PaintOp.ClearRect(0, 0, CAPTION_WIDTH, CAPTION_HEIGHT),
      PaintOp.FillText(Upper(title), MARGIN, BASELINE_Y, Left, Middle, CAPTION_FONT, CAPTION_GREY),
      PaintOp.FillText(Decimal(year), CAPTION_WIDTH - MARGIN, BASELINE_Y, Right, Middle, CAPTION_FONT, CAPTION_GREY) ]
  }

  /** The texts a list of paint operations writes, in order. */
  function TextsOf(ops: seq<PaintOp>): seq<string>
    decreases |ops|
  {
    if ops == [] then []
    else (if ops[0].FillText? then [ops[0].text] else []) + TextsOf(ops[1..])
  }

  /** A caption writes exactly two texts: the upper-cased title, then the year. */
  lemma CaptionTexts(title: string, year: int)
    ensures TextsOf(CaptionOps(title, year)) == [Upper(title), Decimal(year)]
  {
    var ops := CaptionOps(title, year);
    var last := ops[2..];
    assert last[1..] == [];
    assert TextsOf(last) == [Decimal(year)];
    assert ops[1..][1..] == last;
    assert TextsOf(ops[1..]) == [Upper(title), Decimal(year)];
  }

  /** The title hangs from the left margin and the year from the right one, both margins
      the same width, and both texts are centred on the canvas's horizontal midline. */
  lemma CaptionLayout(title: string, year: int)
    ensures var ops := CaptionOps(title, year);
            ops[1].x == MARGIN && ops[1].align == Left
            && ops[2].align == Right && CAPTION_WIDTH - ops[2].x == ops[1].x
            && ops[1].y == ops[2].y == CAPTION_HEIGHT / 2
            && ops[1].baseline == ops[2].baseline == Middle
  {
  }

  /** The caption canvas holds no paint but its text: the clear covers the whole canvas
      and nothing else fills a rectangle. Glyph coverage is not modelled, so this is every
      pixel here; in the browser it is every pixel away from the glyphs. */
  lemma CaptionTransparent(title: string, year: int, px: int, py: int)
    requires 0 <= px < CAPTION_WIDTH && 0 <= py < CAPTION_HEIGHT
    ensures PixelAt(CaptionOps(title, year), px, py) == Transparent
  {
    var ops := CaptionOps(title, year);
    assert ops[..2][..1] == [ops[0]];
    assert PixelAt([ops[0]], px, py) == Transparent;
    assert PixelAt(ops[..2], px, py) == Transparent;
  }

  /** The caption atlas is black beneath its text: every slot holds a caption canvas,
      scaled from 2048 × 256 down to its 256 × 256 slot, which is transparent but for its
      text, so the black background shows through. Glyph coverage is not modelled, so the
      whole atlas comes out black here. The image of texture
      i is the caption of `captions[i]`; `texel` samples it at the scaled point. */
  lemma TextAtlasBlack(captions: seq<(string, int)>, textures: seq<Texture>,
                                   texel: (ImageId, int, int) -> Pixel, px: nat, py: nat)
    requires |textures| == |captions|
    requires forall i, dx, dy :: 0 <= i < |textures| && textures[i].image.Some? && 0 <= dx < 256 && 0 <= dy < 256
               ==> texel(textures[i].image.value, dx, dy)
                   == PixelAt(CaptionOps(captions[i].0, captions[i].1), dx * CAPTION_WIDTH / 256, dy * CAPTION_HEIGHT / 256)
    requires px < AtlasSide(|textures|, true) && py < AtlasSide(|textures|, true)
    ensures Resolve(PixelAt(AtlasOps(textures, true), px, py), texel) == Solid("black")
  {
    AtlasColour(textures, true, px, py, texel);
    var s := SlotAt(px, py, 256, CeilSqrt(|textures|));
    if s < |textures| && textures[s].image.Some? {
      var dx, dy := px % 256, py % 256;
      CaptionTransparent(captions[s].0, captions[s].1, dx * CAPTION_WIDTH / 256, dy * CAPTION_HEIGHT / 256);
    }
  }

  /** `createTextTexture(title, year)`; `contextAvailable` is whether `getContext` returned
      a context (without one the canvas stays blank). */
  method CreateTextTexture(title: string, year: int, contextAvailable: bool) returns (c: Canvas)
    ensures fresh(c)
    ensures c.width == CAPTION_WIDTH && c.height == CAPTION_HEIGHT
    ensures c.ops == if contextAvailable then CaptionOps(title, year) else []
  {
    c := new Canvas(CAPTION_WIDTH, CAPTION_HEIGHT);
    if !contextAvailable {
      return;
    }
    c.ClearRect(0, 0, c.width, c.height);
    c.SetFont(CAPTION_FONT);
    c.SetFillStyle(CAPTION_GREY);
    c.SetTextBaseline(Middle);
    c.SetTextAlign(Left);
    c.FillText(Upper(title), MARGIN, BASELINE_Y);
    c.SetTextAlign(Right);
    c.FillText(Decimal(year), CAPTION_WIDTH - MARGIN, BASELINE_Y);
  }
}
