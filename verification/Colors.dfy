/**
  src/include/gui/colors.h and the pixel store of src/system/devices/vga.cpp: what filling and
  blending do to the three 5-bit channels of a colour.
 */
module Colors {

  type Color = bv16

  const GREEN: Color := 0x03E0
  const BLACK: Color := 0

  /** GET_ALPHA, moved down to the low bits: 0 for opaque, else the blending factor. */
  function Alpha(c: bv32): bv32 { (c >> 16) & 7 }

  function FastBlend(a: Color, b: Color): Color {
    var mask: bv16 := 0x7BDF;
    (((a & mask) as bv32 + (b & mask) as bv32) >> 1) as bv16
  }

  function MaskBits(factor: bv32): bv32
    requires factor <= 7
  {
    (1 << factor) - 1
  }

  function BlendMask(maskbits: bv32): bv32 {
    0xFFFF_FFFF ^ (maskbits + (maskbits << 5) + (maskbits << 10))
  }

  function Weigh(a: Color, b: Color, mask: bv32, maskbits: bv32, factor: bv32): Color
    requires factor <= 7
  {
    var a' := (a as bv32) & mask;
    var b' := (b as bv32) & mask;
    ((((a' * maskbits) + b') >> factor) & 0xFFFF) as bv16
  }

  function FastBlendFactor(a: Color, b: Color, factor: bv32): Color
    requires factor <= 7
  {
    Weigh(a, b, BlendMask(MaskBits(factor)), MaskBits(factor), factor)
  }

  /** What `rect_fill` stores over `prior`: a blend when the colour has alpha, else its low half. */
  function Mix(prior: Color, fill: bv32): Color {
    var low := (fill & 0xFFFF) as bv16;
    if Alpha(fill) != 0 then FastBlendFactor(prior, low, Alpha(fill)) else low
  }

  /** The background of a text box: a dark green with alpha 1. */
  const TEXT_BACKGROUND: bv32 := 0x1_0000 + FastBlend(BLACK, FastBlend(BLACK, GREEN)) as bv32

  // ---------------------------------------------------------------- channels

  /** The 5-bit channel whose lowest bit is bit `at` of the word: blue at 0, green at 5, red at 10. */
  function Channel(c: bv32, at: bv32): bv32
    requires at <= 10
  {
    (c >> at) & 31
  }

  /** A channel with its `k` low bits cleared. */
  function Coarse(channel: bv32, k: bv32): bv32
    requires k <= 7
  {
    (channel >> k) << k
  }

  /** Alpha and colour as the parts of the word that its layout names. */
  lemma WordParts(fill: bv32)
    ensures Alpha(fill) == fill / 0x1_0000 % 8 && fill & 0xFFFF == fill % 0x1_0000
  {
  }

  /** A colour without alpha is stored as it is, whatever was there. */
  lemma OpaqueMix(prior: Color, fill: bv32)
    requires fill / 0x1_0000 % 8 == 0
    ensures Mix(prior, fill) as bv32 == fill % 0x1_0000
  {
    WordParts(fill);
  }

  /** Of a channel of `a` and of `b` a blend of factor `k` takes 2^k - 1 parts and one part. */
  predicate Blended(a: bv32, b: bv32, k: bv32, at: bv32, mixed: bv32)
    requires 1 <= k <= 7 && at <= 10
  {
    Channel(mixed, at) == (((1 << k) - 1) * Coarse(Channel(a, at), k) + Coarse(Channel(b, at), k)) >> k
  }

  lemma BlendOne(a: Color, b: Color, at: bv32)
    requires a < 0x8000 && b < 0x8000 && (at == 0 || at == 5 || at == 10)
    ensures Blended(a as bv32, b as bv32, 1, at, FastBlendFactor(a, b, 1) as bv32)
    ensures FastBlendFactor(a, b, 1) < 0x8000
  {
    assert MaskBits(1) == 1 && BlendMask(1) == 0xFFFF_FBDE;
    assert FastBlendFactor(a, b, 1) == Weigh(a, b, 0xFFFF_FBDE, 1, 1);
    WeighOne(a as bv32, b as bv32, at);
  }

  lemma WeighOne(a: bv32, b: bv32, at: bv32)
    requires a < 0x8000 && b < 0x8000 && (at == 0 || at == 5 || at == 10)
    ensures Blended(a, b, 1, at, (((a & 0xFFFF_FBDE) * 1 + (b & 0xFFFF_FBDE)) >> 1) & 0xFFFF)
    ensures (((a & 0xFFFF_FBDE) * 1 + (b & 0xFFFF_FBDE)) >> 1) & 0xFFFF < 0x8000
  {
  }

  lemma BlendTwo(a: Color, b: Color, at: bv32)
    requires a < 0x8000 && b < 0x8000 && (at == 0 || at == 5 || at == 10)
    ensures Blended(a as bv32, b as bv32, 2, at, FastBlendFactor(a, b, 2) as bv32)
    ensures FastBlendFactor(a, b, 2) < 0x8000
  {
    assert MaskBits(2) == 3 && BlendMask(3) == 0xFFFF_F39C;
    assert FastBlendFactor(a, b, 2) == Weigh(a, b, 0xFFFF_F39C, 3, 2);
    WeighTwo(a as bv32, b as bv32, at);
  }

  lemma WeighTwo(a: bv32, b: bv32, at: bv32)
    requires a < 0x8000 && b < 0x8000 && (at == 0 || at == 5 || at == 10)
    ensures Blended(a, b, 2, at, (((a & 0xFFFF_F39C) * 3 + (b & 0xFFFF_F39C)) >> 2) & 0xFFFF)
    ensures (((a & 0xFFFF_F39C) * 3 + (b & 0xFFFF_F39C)) >> 2) & 0xFFFF < 0x8000
  {
  }

  lemma BlendThree(a: Color, b: Color, at: bv32)
    requires a < 0x8000 && b < 0x8000 && (at == 0 || at == 5 || at == 10)
    ensures Blended(a as bv32, b as bv32, 3, at, FastBlendFactor(a, b, 3) as bv32)
    ensures FastBlendFactor(a, b, 3) < 0x8000
  {
    assert MaskBits(3) == 7 && BlendMask(7) == 0xFFFF_E318;
    assert FastBlendFactor(a, b, 3) == Weigh(a, b, 0xFFFF_E318, 7, 3);
    WeighThree(a as bv32, b as bv32, at);
  }

  lemma WeighThree(a: bv32, b: bv32, at: bv32)
    requires a < 0x8000 && b < 0x8000 && (at == 0 || at == 5 || at == 10)
    ensures Blended(a, b, 3, at, (((a & 0xFFFF_E318) * 7 + (b & 0xFFFF_E318)) >> 3) & 0xFFFF)
    ensures (((a & 0xFFFF_E318) * 7 + (b & 0xFFFF_E318)) >> 3) & 0xFFFF < 0x8000
  {
  }

  lemma BlendFour(a: Color, b: Color, at: bv32)
    requires a < 0x8000 && b < 0x8000 && (at == 0 || at == 5 || at == 10)
    ensures Blended(a as bv32, b as bv32, 4, at, FastBlendFactor(a, b, 4) as bv32)
    ensures FastBlendFactor(a, b, 4) < 0x8000
  {
    assert MaskBits(4) == 15 && BlendMask(15) == 0xFFFF_C210;
    assert FastBlendFactor(a, b, 4) == Weigh(a, b, 0xFFFF_C210, 15, 4);
    WeighFour(a as bv32, b as bv32, at);
  }

  lemma WeighFour(a: bv32, b: bv32, at: bv32)
    requires a < 0x8000 && b < 0x8000 && (at == 0 || at == 5 || at == 10)
    ensures Blended(a, b, 4, at, (((a & 0xFFFF_C210) * 15 + (b & 0xFFFF_C210)) >> 4) & 0xFFFF)
    ensures (((a & 0xFFFF_C210) * 15 + (b & 0xFFFF_C210)) >> 4) & 0xFFFF < 0x8000
  {
  }

  lemma BlendFive(a: Color, b: Color, at: bv32)
    requires a < 0x8000 && b < 0x8000 && (at == 0 || at == 5 || at == 10)
    ensures Blended(a as bv32, b as bv32, 5, at, FastBlendFactor(a, b, 5) as bv32)
    ensures FastBlendFactor(a, b, 5) < 0x8000
  {
    assert MaskBits(5) == 31 && BlendMask(31) == 0xFFFF_8000;
    assert FastBlendFactor(a, b, 5) == Weigh(a, b, 0xFFFF_8000, 31, 5);
    WeighFive(a as bv32, b as bv32, at);
  }

  lemma WeighFive(a: bv32, b: bv32, at: bv32)
    requires a < 0x8000 && b < 0x8000 && (at == 0 || at == 5 || at == 10)
    ensures Blended(a, b, 5, at, (((a & 0xFFFF_8000) * 31 + (b & 0xFFFF_8000)) >> 5) & 0xFFFF)
    ensures (((a & 0xFFFF_8000) * 31 + (b & 0xFFFF_8000)) >> 5) & 0xFFFF < 0x8000
  {
  }

  /** Where prior pixel and colour leave bit 15 clear and alpha is `k`, the channel at `at` is blended by itself. */
  predicate MixesChannel(prior: Color, fill: bv32, k: bv32, at: bv32)
    requires 1 <= k <= 7
  {
    prior < 0x8000 && fill % 0x1_0000 < 0x8000 && fill / 0x1_0000 % 8 == k && (at == 0 || at == 5 || at == 10) ==>
      Blended(prior as bv32, fill % 0x1_0000, k, at, Mix(prior, fill) as bv32) && Mix(prior, fill) < 0x8000
  }

  /** What a fill leaves: the colour itself when it has no alpha, and a blend over what lies under it otherwise. */
  predicate Filled(fill: bv32, under: Color, c: Color) {
    if fill / 0x1_0000 % 8 == 0 then c as bv32 == fill % 0x1_0000 else c == Mix(under, fill)
  }

  lemma FillShows(fill: bv32, under: Color, prior: Color)
    ensures Filled(fill, under, Mix(if Alpha(fill) != 0 then under else prior, fill))
  {
    hide Mix;
    WordParts(fill);
    if fill / 0x1_0000 % 8 == 0 { OpaqueMix(prior, fill); }
  }

  lemma MixBlends(prior: Color, fill: bv32, at: bv32)
    requires prior < 0x8000 && fill & 0xFFFF < 0x8000 && (at == 0 || at == 5 || at == 10)
    requires 1 <= Alpha(fill) <= 5
    ensures Blended(prior as bv32, fill & 0xFFFF, Alpha(fill), at, Mix(prior, fill) as bv32)
    ensures Mix(prior, fill) < 0x8000
  {
    hide Blended, FastBlendFactor;
    var b, k := (fill & 0xFFFF) as bv16, Alpha(fill);
    if k == 1 { BlendOne(prior, b, at); }
    else if k == 2 { BlendTwo(prior, b, at); }
    else if k == 3 { BlendThree(prior, b, at); }
    else if k == 4 { BlendFour(prior, b, at); }
    else { BlendFive(prior, b, at); }
  }

  /** With alpha 6 or 7 the cleared bits overlap, and green leaks into blue. */
  lemma GreenLeaks(k: bv32)
    requires k == 6 || k == 7
    ensures !Blended(GREEN as bv32, 0, k, 0, Mix(GREEN, k << 16) as bv32)
  {
    if k == 6 { GreenLeaksSix(); } else { GreenLeaksSeven(); }
  }

  lemma GreenLeaksSix()
    ensures !Blended(GREEN as bv32, 0, 6, 0, Mix(GREEN, 0x6_0000) as bv32)
  {
  }

  lemma GreenLeaksSeven()
    ensures !Blended(GREEN as bv32, 0, 7, 0, Mix(GREEN, 0x7_0000) as bv32)
  {
  }

  lemma ByChannel(prior: Color, fill: bv32, k: bv32, at: bv32)
    requires 1 <= k <= 5
    ensures MixesChannel(prior, fill, k, at)
  {
    hide Blended, Mix;
    WordParts(fill);
    if prior < 0x8000 && fill & 0xFFFF < 0x8000 && Alpha(fill) == k && (at == 0 || at == 5 || at == 10) {
      MixBlends(prior, fill, at);
    }
  }

  /** Blending works on each channel by itself exactly for the alphas 1 to 5. */
  lemma ByChannelIff(k: bv32)
    requires 1 <= k <= 7
    ensures (forall prior, fill, at :: MixesChannel(prior, fill, k, at)) <==> k <= 5
  {
    if k <= 5 {
      forall prior, fill, at ensures MixesChannel(prior, fill, k, at) { ByChannel(prior, fill, k, at); }
    } else {
      hide Blended, Mix;
      GreenLeaks(k);
      assert GREEN < 0x8000;
      assert (k << 16) % 0x1_0000 == 0 && (k << 16) / 0x1_0000 % 8 == k;
      assert !MixesChannel(GREEN, k << 16, k, 0);
    }
  }

  /** With alpha 5 no bit of either colour is left. */
  lemma AlphaFiveIsBlack(prior: Color, fill: bv32)
    requires prior < 0x8000 && fill % 0x1_0000 < 0x8000 && fill / 0x1_0000 % 8 == 5
    ensures Mix(prior, fill) == 0
  {
    WordParts(fill);
    var b := (fill & 0xFFFF) as bv16;
    assert MaskBits(5) == 31 && BlendMask(31) == 0xFFFF_8000;
    assert Mix(prior, fill) == Weigh(prior, b, 0xFFFF_8000, 31, 5);
    NothingLeft(prior, b);
  }

  lemma NothingLeft(a: Color, b: Color)
    requires a < 0x8000 && b < 0x8000
    ensures Weigh(a, b, 0xFFFF_8000, 31, 5) == 0
  {
  }

  /** The bit above the red channel is no part of a colour: a background that has it set turns red. */
  lemma TopBitLeaks()
    ensures !Blended(0x8000, 0, 1, 10, Mix(0x8000, 0x1_0000) as bv32)
  {
  }

  /** fast_blend averages each channel; its mask drops the lowest bit of green and red, but not of blue. */
  lemma AveragesChannels(a: Color, b: Color, at: bv32)
    requires a < 0x8000 && b < 0x8000 && (at == 0 || at == 5 || at == 10)
    ensures var x, y := Channel(a as bv32, at), Channel(b as bv32, at);
      Channel(FastBlend(a, b) as bv32, at) == if at == 0 then (x + y) >> 1 else (Coarse(x, 1) + Coarse(y, 1)) >> 1
  {
  }

  lemma TextBackground()
    ensures TEXT_BACKGROUND == 0x1_00E0
  {
  }
}
