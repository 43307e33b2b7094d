/**
  The bit expressions photo.c applies to 16-bit 5:6:5 pixels: channel
  contributions, the 12-bit fine key, the 6-bit coarse index, the
  re-packing of an averaged colour, and the two palette comparisons of
  the remap pass.  Each source expression is stated as written and then
  proved equal to its meaning in terms of the pixel's channels.
*/
module PixelBits {
  import opened PhotoTypes

  /** The 5-bit red, 6-bit green and 5-bit blue fields of a pixel. */
  function Red5(p: bv16): nat { (p >> 11) as int }
  function Green6(p: bv16): nat { ((p >> 5) & 0x3F) as int }
  function Blue5(p: bv16): nat { (p & 0x1F) as int }

  /** Channel sums added per pixel (photo.c:513-515, and 629-631 for re-packed colours). */
  function RedContribution(p: bv16): nat { ((p >> 10) & 0x3E) as int }
  function GreenContribution(p: bv16): nat { ((p >> 5) & 0x3F) as int }
  function BlueContribution(p: bv16): nat { ((p << 1) & 0x3E) as int }

  /** Each contribution is the channel rescaled to 6 bits. */
  lemma ContributionsAreChannels(p: bv16)
    ensures Red5(p) < 32 && Green6(p) < 64 && Blue5(p) < 32
    ensures RedContribution(p) == 2 * Red5(p)
    ensures GreenContribution(p) == Green6(p)
    ensures BlueContribution(p) == 2 * Blue5(p)
  {
  }

  /** The fine bucket key of pass one (photo.c:510). */
  function FineKey(p: bv16): nat {
    (((p >> 4) & 0xF00) | ((p >> 3) & 0xF0) | ((p >> 1) & 0xF)) as int
  }

  /** Fine key of a colour given as three 6-bit channel values: their top four bits. */
  function Key4(r6: nat, g6: nat, b6: nat): nat {
    (r6 / 4) * 256 + (g6 / 4) * 16 + b6 / 4
  }

  /** Coarse key of a colour given as three 6-bit channel values: their top two bits. */
  function Key2(r6: nat, g6: nat, b6: nat): nat {
    (r6 / 16) * 16 + (g6 / 16) * 4 + b6 / 16
  }

  lemma FineKeyBits(p: bv16)
    ensures ((p >> 4) & 0xF00) | ((p >> 3) & 0xF0) | ((p >> 1) & 0xF)
         == (p >> 12) * 256 + ((p >> 7) & 0xF) * 16 + ((p >> 1) & 0xF)
  {
  }

  lemma SmallDigits16(a: bv16, b: bv16, c: bv16)
    requires a < 16 && b < 16 && c < 16
    ensures (a * 256 + b * 16 + c) as int == a as int * 256 + b as int * 16 + c as int
  {
  }

  /** The key digits are the top bits of the channels. */
  lemma TopBitFields(p: bv16)
    ensures (p >> 12) as int == Red5(p) / 2
    ensures ((p >> 7) & 0xF) as int == Green6(p) / 4
    ensures ((p >> 1) & 0xF) as int == Blue5(p) / 2
    ensures (p >> 14) as int == Red5(p) / 8
    ensures ((p >> 9) & 0x3) as int == Green6(p) / 16
    ensures ((p >> 3) & 0x3) as int == Blue5(p) / 8
  {
    FineBitFields(p);
    CoarseBitFields(p);
  }

  lemma FineBitFields(p: bv16)
    ensures (p >> 12) as int == Red5(p) / 2
    ensures ((p >> 7) & 0xF) as int == Green6(p) / 4
    ensures ((p >> 1) & 0xF) as int == Blue5(p) / 2
  {
    RedTop4(p);
    GreenTop4(p);
    BlueTop4(p);
  }

  lemma CoarseBitFields(p: bv16)
    ensures (p >> 14) as int == Red5(p) / 8
    ensures ((p >> 9) & 0x3) as int == Green6(p) / 16
    ensures ((p >> 3) & 0x3) as int == Blue5(p) / 8
  {
    RedTop2(p);
    GreenTop2(p);
    BlueTop2(p);
  }

  lemma RedTop4(p: bv16) ensures (p >> 12) as int == Red5(p) / 2 {}
  lemma GreenTop4(p: bv16) ensures ((p >> 7) & 0xF) as int == Green6(p) / 4 {}
  lemma BlueTop4(p: bv16) ensures ((p >> 1) & 0xF) as int == Blue5(p) / 2 {}
  lemma RedTop2(p: bv16) ensures (p >> 14) as int == Red5(p) / 8 {}
  lemma GreenTop2(p: bv16) ensures ((p >> 9) & 0x3) as int == Green6(p) / 16 {}
  lemma BlueTop2(p: bv16) ensures ((p >> 3) & 0x3) as int == Blue5(p) / 8 {}

  /**
    The pass-one key is the top four bits of red, green and blue, in that
    order, so it is the fine key of the pixel's 6-bit contributions and
    always below 4096.
  */
  lemma FineKeyIsTopBits(p: bv16)
    ensures FineKey(p) == (Red5(p) / 2) * 256 + (Green6(p) / 4) * 16 + Blue5(p) / 2
    ensures FineKey(p) == Key4(RedContribution(p), GreenContribution(p), BlueContribution(p))
    ensures FineKey(p) < 4096
  {
    FineKeyOfChannels(p);
    ContributionsAreChannels(p);
    Key4OfChannels(FineKey(p), Red5(p), Green6(p), Blue5(p), RedContribution(p), GreenContribution(p), BlueContribution(p));
  }

  /** The fine key in terms of the 5:6:5 channels alone. */
  lemma FineKeyOfChannels(p: bv16)
    ensures FineKey(p) == (Red5(p) / 2) * 256 + (Green6(p) / 4) * 16 + Blue5(p) / 2
  {
    FineKeyDigits(p);
    FineBitFields(p);
  }

  /** Integer core of FineKeyIsTopBits, free of bit-vector terms. */
  lemma Key4OfChannels(k: nat, r5: nat, g6: nat, b5: nat, rc: nat, gc: nat, bc: nat)
    requires k == (r5 / 2) * 256 + (g6 / 4) * 16 + b5 / 2 && r5 < 32 && g6 < 64 && b5 < 32
    requires rc == 2 * r5 && gc == g6 && bc == 2 * b5
    ensures k == Key4(rc, gc, bc) && k < 4096
  {
    HalfOfDouble(r5);
    HalfOfDouble(b5);
  }

  lemma HalfOfDouble(x: nat)
    ensures (2 * x) / 4 == x / 2
  {
  }

  lemma FineKeyBound(p: bv16)
    ensures FineKey(p) < 4096
  {
    FineKeyDigits(p);
  }

  /** The contributions are 6-bit values whose fine key is the pixel's key. */
  lemma ContributionFacts(p: bv16)
    ensures RedContribution(p) < 64 && GreenContribution(p) < 64 && BlueContribution(p) < 64
    ensures FineKey(p) == Key4(RedContribution(p), GreenContribution(p), BlueContribution(p))
  {
    FineKeyIsTopBits(p);
    ContributionsAreChannels(p);
  }

  /** The coarse index of set_up_palette (photo.c:627). */
  function CoarseIndex(q: bv16): nat {
    (((q >> 10) & 0x30) | ((q >> 7) & 0xC) | ((q >> 3) & 0x3)) as int
  }

  lemma CoarseIndexBits(q: bv16)
    ensures ((q >> 10) & 0x30) | ((q >> 7) & 0xC) | ((q >> 3) & 0x3)
         == (q >> 14) * 16 + ((q >> 9) & 0x3) * 4 + ((q >> 3) & 0x3)
  {
  }

  lemma SmallDigits4(a: bv16, b: bv16, c: bv16)
    requires a < 4 && b < 4 && c < 4
    ensures (a * 16 + b * 4 + c) as int == a as int * 16 + b as int * 4 + c as int
  {
  }

  /**
    The coarse index is the top two bits of each channel, whatever the
    16-bit value, so it is always below 64.
  */
  lemma CoarseIndexIsTopBits(q: bv16)
    ensures CoarseIndex(q) == (Red5(q) / 8) * 16 + (Green6(q) / 16) * 4 + Blue5(q) / 8
    ensures CoarseIndex(q) == Key2(RedContribution(q), GreenContribution(q), BlueContribution(q))
    ensures CoarseIndex(q) < 64
  {
    CoarseIndexOfChannels(q);
    ContributionsAreChannels(q);
    Key2OfChannels(CoarseIndex(q), Red5(q), Green6(q), Blue5(q), RedContribution(q), GreenContribution(q), BlueContribution(q));
  }

  /** Integer core of CoarseIndexIsTopBits, free of bit-vector terms. */
  lemma Key2OfChannels(c: nat, r5: nat, g6: nat, b5: nat, rc: nat, gc: nat, bc: nat)
    requires c == (r5 / 8) * 16 + (g6 / 16) * 4 + b5 / 8 && r5 < 32 && g6 < 64 && b5 < 32
    requires rc == 2 * r5 && gc == g6 && bc == 2 * b5
    ensures c == Key2(rc, gc, bc) && c < 64
  {
    EighthOfDouble(r5);
    EighthOfDouble(b5);
  }

  lemma EighthOfDouble(x: nat)
    ensures (2 * x) / 16 == x / 8
  {
  }

  lemma CoarseIndexBound(q: bv16)
    ensures CoarseIndex(q) < 64
  {
    CoarseIndexDigits(q);
  }

  /** The contributions of q are 6-bit values whose coarse key is q's coarse index. */
  lemma CoarseContributionFacts(q: bv16)
    ensures RedContribution(q) < 64 && GreenContribution(q) < 64 && BlueContribution(q) < 64
    ensures CoarseIndex(q) == Key2(RedContribution(q), GreenContribution(q), BlueContribution(q))
  {
    ContributionsAreChannels(q);
    CoarseIndexIsTopBits(q);
  }

  /** The coarse index in terms of the 5:6:5 channels alone. */
  lemma CoarseIndexOfChannels(q: bv16)
    ensures CoarseIndex(q) == (Red5(q) / 8) * 16 + (Green6(q) / 16) * 4 + Blue5(q) / 8
  {
    CoarseIndexDigits(q);
    CoarseBitFields(q);
  }

  /**
    pixel2 of set_up_palette (photo.c:626): averaged 5:6:5 channels packed
    back into a uint16_t, each shifted term truncated to 16 bits as the
    assignment to uint16_t does.
  */
  function Pixel2(ra: u16, ga: u16, ba: u16): bv16 {
    ((ra as bv16) << 11) | ((ga as bv16) << 5) | (ba as bv16)
  }

  lemma Pixel2Bits(r: bv16, g: bv16, b: bv16)
    requires r < 32 && g < 64 && b < 32
    ensures (((r << 11) | (g << 5) | b) >> 11) == r
    ensures ((((r << 11) | (g << 5) | b) >> 5) & 0x3F) == g
    ensures (((r << 11) | (g << 5) | b) & 0x1F) == b
  {
  }

  lemma SmallRoundTrip(x: nat)
    requires x < 64
    ensures (x as bv16) as int == x
  {
    var y := x as bv6;
    SixBitRoundTrip(x);
    WidenSixBits(y);
    assert y as bv16 == x as bv16;
  }

  lemma SixBitRoundTrip(x: nat)
    requires x < 64
    ensures (x as bv6) as int == x
  {
  }

  lemma WidenSixBits(y: bv6)
    ensures (y as bv16) as int == y as int
  {
  }

  /** Packing channels that fit their fields loses nothing. */
  lemma Pixel2Channels(ra: u16, ga: u16, ba: u16)
    requires ra < 32 && ga < 64 && ba < 32
    ensures Red5(Pixel2(ra, ga, ba)) == ra
    ensures Green6(Pixel2(ra, ga, ba)) == ga
    ensures Blue5(Pixel2(ra, ga, ba)) == ba
  {
    Pixel2Bits(ra as bv16, ga as bv16, ba as bv16);
    SmallRoundTrip(ra);
    SmallRoundTrip(ga);
    SmallRoundTrip(ba);
  }

  /** The fine-tier comparison of the remap pass (photo.c:554). */
  predicate FineMatch(p: bv16, c: Rgb) {
    && (p >> 12) as int == c.r / 4
    && ((p >> 7) & 0xF) as int == c.g / 4
    && ((p >> 1) & 0xF) as int == c.b / 4
  }

  /** The coarse-tier comparison of the remap pass (photo.c:564). */
  predicate CoarseMatch(p: bv16, c: Rgb) {
    && (p >> 14) as int == c.r / 16
    && ((p >> 9) & 0x3) as int == c.g / 16
    && ((p >> 3) & 0x3) as int == c.b / 16
  }

  /** Base-16 digit triples are determined by their value. */
  lemma Digits16Unique(a: nat, b: nat, c: nat, a': nat, b': nat, c': nat)
    requires b < 16 && c < 16 && b' < 16 && c' < 16
    requires a * 256 + b * 16 + c == a' * 256 + b' * 16 + c'
    ensures a == a' && b == b' && c == c'
  {
    assert (a * 256 + b * 16 + c) / 16 == a * 16 + b;
    assert (a' * 256 + b' * 16 + c') / 16 == a' * 16 + b';
  }

  /** Base-4 digit triples are determined by their value. */
  lemma Digits4Unique(a: nat, b: nat, c: nat, a': nat, b': nat, c': nat)
    requires b < 4 && c < 4 && b' < 4 && c' < 4
    requires a * 16 + b * 4 + c == a' * 16 + b' * 4 + c'
    ensures a == a' && b == b' && c == c'
  {
    assert (a * 16 + b * 4 + c) / 4 == a * 4 + b;
    assert (a' * 16 + b' * 4 + c') / 4 == a' * 4 + b';
  }

  /** The key expressions are three digit fields laid side by side. */
  lemma FineKeyDigits(p: bv16)
    ensures FineKey(p) == ((p >> 12) as int) * 256 + (((p >> 7) & 0xF) as int) * 16 + ((p >> 1) & 0xF) as int
    ensures (p >> 12) as int < 16 && ((p >> 7) & 0xF) as int < 16 && ((p >> 1) & 0xF) as int < 16
  {
    FineKeyBits(p);
    SmallDigits16(p >> 12, (p >> 7) & 0xF, (p >> 1) & 0xF);
  }

  lemma CoarseIndexDigits(q: bv16)
    ensures CoarseIndex(q) == ((q >> 14) as int) * 16 + (((q >> 9) & 0x3) as int) * 4 + ((q >> 3) & 0x3) as int
    ensures (q >> 14) as int < 4 && ((q >> 9) & 0x3) as int < 4 && ((q >> 3) & 0x3) as int < 4
  {
    CoarseIndexBits(q);
    SmallDigits4(q >> 14, (q >> 9) & 0x3, (q >> 3) & 0x3);
  }

  lemma Digits16Iff(a: nat, b: nat, d: nat, cr: nat, cg: nat, cb: nat)
    requires a < 16 && b < 16 && d < 16 && cr < 64 && cg < 64 && cb < 64
    ensures (a == cr / 4 && b == cg / 4 && d == cb / 4) <==> Key4(cr, cg, cb) == a * 256 + b * 16 + d
  {
    if Key4(cr, cg, cb) == a * 256 + b * 16 + d {
      Digits16Unique(cr / 4, cg / 4, cb / 4, a, b, d);
    }
  }

  lemma Digits4Iff(a: nat, b: nat, d: nat, cr: nat, cg: nat, cb: nat)
    requires a < 4 && b < 4 && d < 4 && cr < 64 && cg < 64 && cb < 64
    ensures (a == cr / 16 && b == cg / 16 && d == cb / 16) <==> Key2(cr, cg, cb) == a * 16 + b * 4 + d
  {
    if Key2(cr, cg, cb) == a * 16 + b * 4 + d {
      Digits4Unique(cr / 16, cg / 16, cb / 16, a, b, d);
    }
  }

  /**
    For a colour whose channels are 6-bit values, the fine comparison
    holds exactly when the colour's fine key is the pixel's bucket key.
  */
  lemma FineMatchIffSameKey(p: bv16, c: Rgb)
    requires c.r < 64 && c.g < 64 && c.b < 64
    ensures FineMatch(p, c) <==> Key4(c.r, c.g, c.b) == FineKey(p)
  {
    FineKeyDigits(p);
    Digits16Iff((p >> 12) as int, ((p >> 7) & 0xF) as int, ((p >> 1) & 0xF) as int, c.r, c.g, c.b);
  }

  /**
    For a colour whose channels are 6-bit values, the coarse comparison
    holds exactly when the colour's coarse key is the pixel's own coarse
    index (the index expression of photo.c:627 applied to the pixel).
  */
  lemma CoarseMatchIffSameKey(p: bv16, c: Rgb)
    requires c.r < 64 && c.g < 64 && c.b < 64
    ensures CoarseMatch(p, c) <==> Key2(c.r, c.g, c.b) == CoarseIndex(p)
  {
    CoarseIndexDigits(p);
    Digits4Iff((p >> 14) as int, ((p >> 9) & 0x3) as int, ((p >> 3) & 0x3) as int, c.r, c.g, c.b);
  }
}
