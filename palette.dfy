/**
  set_up_palette and compare_function (photo.c:587-655): the fine buckets
  are sorted by pixel count, the 128 most frequent give palette slots
  0..127, and every other non-empty bucket is folded, by the top two bits
  of its averaged colour, into 64 coarse buckets that give slots 128..191.
*/
module Palette {
  import opened PhotoTypes
  import opened PixelBits
  import opened FineBuckets

  /** LEVEL_TWO_SIZE (photo.c:48): palette slots taken by fine buckets. */
  const FINE_SLOTS: nat := 128
  /** LEVEL_TWO_SIZE1 (photo.c:72): number of coarse buckets. */
  const COARSE_SIZE: nat := 64

  /**
    compare_function (photo.c:653-655): negative when a must come before b,
    that is when a holds more pixels, so qsort orders by count, descending.
  */
  function CompareFunction(a: Bucket, b: Bucket): (r: int)
    ensures r < 0 <==> a.counter > b.counter
    ensures r == 0 <==> a.counter == b.counter
  {
    b.counter - a.counter
  }

  /** The order qsort leaves with compare_function: no bucket after a fuller one. */
  predicate SortedByCount(s: seq<Bucket>) {
    forall i, j :: 0 <= i < j < |s| ==> CompareFunction(s[i], s[j]) <= 0
  }

  /**
    s is t rearranged: s[i] == t[perm[i]], and inv is the inverse of perm,
    so every bucket of t sits at exactly one position of s.
  */
  ghost predicate IsPermutation(s: seq<Bucket>, t: seq<Bucket>, perm: seq<nat>, inv: seq<nat>) {
    && |s| == |t| == |perm| == |inv|
    && (forall i {:trigger s[i]} :: 0 <= i < |s| ==> perm[i] < |t| && s[i] == t[perm[i]] && inv[perm[i]] == i)
    && (forall k {:trigger inv[k]} :: 0 <= k < |t| ==> inv[k] < |s| && perm[inv[k]] == k)
  }

  /** Swapping positions i and m of s keeps it a rearrangement of t. */
  lemma SwapKeepsPermutation(s: seq<Bucket>, t: seq<Bucket>, perm: seq<nat>, inv: seq<nat>, i: nat, m: nat)
    requires IsPermutation(s, t, perm, inv)
    requires i < |s| && m < |s|
    ensures IsPermutation(s[i := s[m]][m := s[i]], t,
                          perm[i := perm[m]][m := perm[i]], inv[perm[i] := m][perm[m] := i])
  {
    var s', perm', inv' := s[i := s[m]][m := s[i]], perm[i := perm[m]][m := perm[i]], inv[perm[i] := m][perm[m] := i];
    forall j | 0 <= j < |s'|
      ensures perm'[j] < |t| && s'[j] == t[perm'[j]] && inv'[perm'[j]] == j
    {
      assert s[j] == t[perm[j]] && inv[perm[j]] == j;
    }
    forall k | 0 <= k < |t|
      ensures inv'[k] < |s'| && perm'[inv'[k]] == k
    {
      assert s[inv[k]] == t[perm[inv[k]]];
    }
  }

  /** Every sequence is a rearrangement of itself. */
  lemma IdentityIsPermutation(s: seq<Bucket>)
    ensures IsPermutation(s, s, seq(|s|, k => k), seq(|s|, k => k))
  {
  }

  /** s[..i] is in final order: sorted, and no fuller than any bucket before it. */
  predicate SettledUpTo(s: seq<Bucket>, i: nat)
    requires i <= |s|
  {
    && (forall p, q :: 0 <= p < q < i ==> s[p].counter >= s[q].counter)
    && (forall p, q :: 0 <= p < i <= q < |s| ==> s[p].counter >= s[q].counter)
  }

  /** Swapping a fullest bucket of s[i..] into position i settles one more position. */
  lemma SwapSettles(s: seq<Bucket>, i: nat, m: nat)
    requires i <= m < |s| && SettledUpTo(s, i)
    requires forall q :: i <= q < |s| ==> s[m].counter >= s[q].counter
    ensures SettledUpTo(s[i := s[m]][m := s[i]], i + 1)
  {
  }

  /** The position of a fullest bucket among a[lo..]. */
  method FullestFrom(a: array<Bucket>, lo: nat) returns (m: nat)
    requires lo < a.Length
    ensures lo <= m < a.Length
    ensures forall q :: lo <= q < a.Length ==> a[m].counter >= a[q].counter
  {
    m := lo;
    var j := lo + 1;
    while j < a.Length
      invariant lo <= m < a.Length && lo < j <= a.Length
      invariant forall q :: lo <= q < j ==> a[m].counter >= a[q].counter
    {
      if CompareFunction(a[j], a[m]) < 0 {
        m := j;
      }
      j := j + 1;
    }
  }

  /** Exchanges a[i] and a[m]. */
  method Swap(a: array<Bucket>, i: nat, m: nat)
    requires i < a.Length && m < a.Length
    modifies a
    ensures a[..] == old(a[..])[i := old(a[m])][m := old(a[i])]
  {
    a[i], a[m] := a[m], a[i];
  }

  /**
    The qsort call of photo.c:601.  qsort's algorithm is not modelled:
    this selection sort promises only what qsort with compare_function
    promises, an ordering by count and a permutation, and nothing about
    the order of equal counts.
  */
  method SortBuckets(a: array<Bucket>) returns (ghost perm: seq<nat>, ghost inv: seq<nat>)
    modifies a
    ensures SortedByCount(a[..])
    ensures IsPermutation(a[..], old(a[..]), perm, inv)
  {
    var n := a.Length;
    ghost var orig := a[..];
    perm := seq(n, k => k);
    inv := seq(n, k => k);
    IdentityIsPermutation(a[..]);
    var i := 0;
    while i < n
      invariant 0 <= i <= n
      invariant IsPermutation(a[..], orig, perm, inv)
      invariant SettledUpTo(a[..], i)
    {
      perm, inv := SelectFullest(a, i, orig, perm, inv);
      i := i + 1;
    }
    SettledIsSorted(a[..]);
  }

  /** One round of the selection sort: the fullest bucket of a[i..] moves to position i. */
  method SelectFullest(a: array<Bucket>, i: nat, ghost orig: seq<Bucket>, ghost perm: seq<nat>, ghost inv: seq<nat>)
    returns (ghost perm': seq<nat>, ghost inv': seq<nat>)
    requires i < a.Length && IsPermutation(a[..], orig, perm, inv) && SettledUpTo(a[..], i)
    modifies a
    ensures IsPermutation(a[..], orig, perm', inv') && SettledUpTo(a[..], i + 1)
  {
    var m := FullestFrom(a, i);
    ghost var s0 := a[..];
    SwapKeepsPermutation(s0, orig, perm, inv, i, m);
    SwapSettles(s0, i, m);
    perm', inv' := perm[i := perm[m]][m := perm[i]], inv[perm[i] := m][perm[m] := i];
    Swap(a, i, m);
  }

  /** A fully settled sequence is in the order of compare_function. */
  lemma SettledIsSorted(s: seq<Bucket>)
    requires SettledUpTo(s, |s|)
    ensures SortedByCount(s)
  {
    forall i, j | 0 <= i < j < |s|
      ensures CompareFunction(s[i], s[j]) <= 0
    {
      assert s[i].counter >= s[j].counter;
    }
  }

  // ---------------------------------------------------------------------
  // Averages and the coarse fold

  /** lo * n <= s < (hi + 1) * n bounds the quotient s / n to [lo, hi]. */
  lemma DivBand(s: nat, n: nat, lo: nat, hi: nat)
    requires n > 0 && lo * n <= s < (hi + 1) * n
    ensures lo <= s / n <= hi
  {
    var q := s / n;
    if q < lo {
      MulMonotone(n, q + 1, lo);
    }
    if q > hi {
      MulMonotone(n, hi + 1, q);
    }
  }

  /** The band of n values, written as the strict bound DivBand takes. */
  lemma BandStrict(sum: nat, n: nat, lo: nat, hi: nat)
    requires n > 0 && Band(sum, n, lo, hi)
    ensures lo * n <= sum < (hi + 1) * n
  {
    assert (hi + 1) * n == hi * n + n;
  }

  /** A palette channel: a bucket's channel average stored in a uint8_t. */
  function ChannelAverage(sum: nat, n: nat): (c: u8)
    requires n > 0
  {
    (sum / n) % 0x100
  }

  /** The average of n values in [lo, hi] is in [lo, hi] when it fits a byte. */
  lemma AverageInBand(sum: nat, n: nat, lo: nat, hi: nat)
    requires n > 0 && Band(sum, n, lo, hi) && hi < 0x100
    ensures lo <= ChannelAverage(sum, n) <= hi
  {
    BandStrict(sum, n, lo, hi);
    DivBand(sum, n, lo, hi);
  }

  /** The palette colour of a non-empty bucket (photo.c:606-608, 639-641). */
  function Average(b: Bucket): Rgb
    requires b.counter > 0
  {
    Rgb(ChannelAverage(b.redsum, b.counter), ChannelAverage(b.greensum, b.counter),
        ChannelAverage(b.bluesum, b.counter))
  }

  /**
    The average of a fine bucket holding only pixels of key k is a 6-bit
    colour with fine key k: the colour the remap pass looks for.
  */
  lemma AverageKeepsFineKey(b: Bucket, k: nat)
    requires k < LEVEL_FOUR_SIZE && b.counter > 0 && FineBanded(b, k)
    ensures Average(b).r < 64 && Average(b).g < 64 && Average(b).b < 64
    ensures Key4(Average(b).r, Average(b).g, Average(b).b) == k
  {
    AverageInBand(b.redsum, b.counter, 4 * KeyRed(k), 4 * KeyRed(k) + 3);
    AverageInBand(b.greensum, b.counter, 4 * KeyGreen(k), 4 * KeyGreen(k) + 3);
    AverageInBand(b.bluesum, b.counter, 4 * KeyBlue(k), 4 * KeyBlue(k) + 3);
    KeyFromBands(k, Average(b).r, Average(b).g, Average(b).b);
  }

  /** Channels in the bands of a fine key's digits have that key. */
  lemma KeyFromBands(k: nat, r6: nat, g6: nat, b6: nat)
    requires k < LEVEL_FOUR_SIZE
    requires 4 * KeyRed(k) <= r6 <= 4 * KeyRed(k) + 3
    requires 4 * KeyGreen(k) <= g6 <= 4 * KeyGreen(k) + 3
    requires 4 * KeyBlue(k) <= b6 <= 4 * KeyBlue(k) + 3
    ensures r6 < 64 && g6 < 64 && b6 < 64 && Key4(r6, g6, b6) == k
  {
    KeyDigitsBound(k);
    QuarterOfBand(r6, KeyRed(k));
    QuarterOfBand(g6, KeyGreen(k));
    QuarterOfBand(b6, KeyBlue(k));
    KeyRecompose(k);
  }

  lemma QuarterOfBand(x: nat, d: nat)
    requires 4 * d <= x <= 4 * d + 3
    ensures x / 4 == d
  {
  }

  /** A fine key is its three digits put back together. */
  lemma KeyRecompose(k: nat)
    ensures KeyRed(k) * 256 + KeyGreen(k) * 16 + KeyBlue(k) == k
  {
    assert k == (k / 16) * 16 + k % 16;
    assert k / 16 == (k / 256) * 16 + (k / 16) % 16;
  }

  /** A C assignment to a uint16_t variable keeps the low 16 bits. */
  function Truncate16(x: nat): (r: u16)
    ensures x < 0x1_0000 ==> r == x
  {
    x % 0x1_0000
  }

  lemma DivAtMost(x: nat, n: nat)
    requires n > 0
    ensures x / n <= x
  {
    MulMonotone(x / n, 1, n);
    assert (x / n) * n <= x;
  }

  /** red_average, green_average, blue_average of photo.c:618-624. */
  function ResidueRed(b: Bucket): u16
    requires b.counter > 0
  {
    DivAtMost(Truncate16(b.redsum / 2), b.counter);
    Truncate16(b.redsum / 2) / b.counter
  }

  function ResidueGreen(b: Bucket): u16
    requires b.counter > 0
  {
    DivAtMost(Truncate16(b.greensum), b.counter);
    Truncate16(b.greensum) / b.counter
  }

  function ResidueBlue(b: Bucket): u16
    requires b.counter > 0
  {
    DivAtMost(Truncate16(b.bluesum / 2), b.counter);
    Truncate16(b.bluesum / 2) / b.counter
  }

  /** pixel2 of photo.c:626: the bucket's average as a 5:6:5 pixel. */
  function ResidueColour(b: Bucket): bv16
    requires b.counter > 0
  {
    Pixel2(ResidueRed(b), ResidueGreen(b), ResidueBlue(b))
  }

  /** The bucket's sums survive the uint16_t variables of photo.c:618-620. */
  predicate NoWrap(b: Bucket) {
    b.redsum / 2 < 0x1_0000 && b.greensum < 0x1_0000 && b.bluesum / 2 < 0x1_0000
  }

  /** Coarse index of a fine key: the top two of its four bits per channel. */
  function CoarseOfFineKey(k: nat): nat {
    (KeyRed(k) / 4) * 16 + (KeyGreen(k) / 4) * 4 + KeyBlue(k) / 4
  }

  /** Halving a sum of values in [4d, 4d + 3] and averaging gives 2d or 2d + 1. */
  lemma HalfAverage(sum: nat, n: nat, d: nat)
    requires n > 0 && Band(sum, n, 4 * d, 4 * d + 3)
    ensures 2 * d <= (sum / 2) / n <= 2 * d + 1
  {
    BandStrict(sum, n, 4 * d, 4 * d + 3);
    assert (4 * d + 4) * n == 2 * ((2 * d + 2) * n);
    assert (4 * d) * n == 2 * ((2 * d) * n);
    DivBand(sum / 2, n, 2 * d, 2 * d + 1);
  }

  lemma ResidueChannels(b: Bucket, k: nat)
    requires k < LEVEL_FOUR_SIZE && b.counter > 0 && FineBanded(b, k) && NoWrap(b)
    ensures 2 * KeyRed(k) <= ResidueRed(b) <= 2 * KeyRed(k) + 1
    ensures 4 * KeyGreen(k) <= ResidueGreen(b) <= 4 * KeyGreen(k) + 3
    ensures 2 * KeyBlue(k) <= ResidueBlue(b) <= 2 * KeyBlue(k) + 1
    ensures ResidueRed(b) < 32 && ResidueGreen(b) < 64 && ResidueBlue(b) < 32
  {
    var n := b.counter;
    assert ResidueRed(b) == (b.redsum / 2) / n;
    assert ResidueGreen(b) == b.greensum / n;
    assert ResidueBlue(b) == (b.bluesum / 2) / n;
    HalfAverage(b.redsum, n, KeyRed(k));
    HalfAverage(b.bluesum, n, KeyBlue(k));
    BandStrict(b.greensum, n, 4 * KeyGreen(k), 4 * KeyGreen(k) + 3);
    DivBand(b.greensum, n, 4 * KeyGreen(k), 4 * KeyGreen(k) + 3);
    KeyDigitsBound(k);
  }

  lemma KeyDigitsBound(k: nat)
    requires k < LEVEL_FOUR_SIZE
    ensures KeyRed(k) < 16 && KeyGreen(k) < 16 && KeyBlue(k) < 16
  {
  }

  /** Integer core of ResidueKeepsCoarseKey, free of bit-vector terms. */
  lemma CoarseOfHalves(kr: nat, kg: nat, kb: nat, ra: nat, ga: nat, ba: nat, c: nat, k: nat)
    requires 2 * kr <= ra <= 2 * kr + 1 && 4 * kg <= ga <= 4 * kg + 3 && 2 * kb <= ba <= 2 * kb + 1
    requires c == (ra / 8) * 16 + (ga / 16) * 4 + ba / 8
    requires kr == KeyRed(k) && kg == KeyGreen(k) && kb == KeyBlue(k)
    ensures c == CoarseOfFineKey(k)
  {
    DropDigit2(ra, kr);
    DropDigit4(ga, kg);
    DropDigit2(ba, kb);
    assert (ra / 8) * 16 + (ga / 16) * 4 + ba / 8 == (kr / 4) * 16 + (kg / 4) * 4 + kb / 4;
  }

  /** A value in [2d, 2d + 1] divided by 8 is d divided by 4. */
  lemma DropDigit2(x: nat, d: nat)
    requires 2 * d <= x <= 2 * d + 1
    ensures x / 8 == d / 4
  {
    var q := d / 4;
    assert 8 * q <= x < 8 * q + 8;
  }

  /** A value in [4d, 4d + 3] divided by 16 is d divided by 4. */
  lemma DropDigit4(x: nat, d: nat)
    requires 4 * d <= x <= 4 * d + 3
    ensures x / 16 == d / 4
  {
    var q := d / 4;
    assert 16 * q <= x < 16 * q + 16;
  }

  /**
    When no sum wraps in its uint16_t variable, the averaged pixel2 of a
    fine bucket of key k falls in the coarse bucket of k's top bits.
  */
  lemma ResidueKeepsCoarseKey(b: Bucket, k: nat)
    requires k < LEVEL_FOUR_SIZE && b.counter > 0 && FineBanded(b, k) && NoWrap(b)
    ensures CoarseIndex(ResidueColour(b)) == CoarseOfFineKey(k)
  {
    ResidueChannels(b, k);
    ResidueIndexFormula(b);
    CoarseOfHalves(KeyRed(k), KeyGreen(k), KeyBlue(k), ResidueRed(b), ResidueGreen(b), ResidueBlue(b),
                   CoarseIndex(ResidueColour(b)), k);
  }

  lemma ResidueIndexFormula(b: Bucket)
    requires b.counter > 0 && ResidueRed(b) < 32 && ResidueGreen(b) < 64 && ResidueBlue(b) < 32
    ensures CoarseIndex(ResidueColour(b))
         == (ResidueRed(b) / 8) * 16 + (ResidueGreen(b) / 16) * 4 + ResidueBlue(b) / 8
  {
    Pixel2Index(ResidueColour(b), ResidueRed(b), ResidueGreen(b), ResidueBlue(b));
  }

  /** The coarse index of a packed pixel whose channels fit their fields. */
  lemma Pixel2Index(q: bv16, ra: u16, ga: u16, ba: u16)
    requires ra < 32 && ga < 64 && ba < 32 && q == Pixel2(ra, ga, ba)
    ensures CoarseIndex(q) == (ra / 8) * 16 + (ga / 16) * 4 + ba / 8
  {
    Pixel2Channels(ra, ga, ba);
    CoarseIndexOfChannels(q);
    SameDigits(CoarseIndex(q), Red5(q), Green6(q), Blue5(q), ra, ga, ba);
  }

  lemma SameDigits(c: nat, r: nat, g: nat, b: nat, r': nat, g': nat, b': nat)
    requires c == (r / 8) * 16 + (g / 16) * 4 + b / 8
    requires r == r' && g == g' && b == b'
    ensures c == (r' / 8) * 16 + (g' / 16) * 4 + b' / 8
  {
  }

  /** Integer core of PixelCoarseKey. */
  lemma CoarseOfChannels(r5: nat, g6: nat, b5: nat, k: nat, c: nat)
    requires r5 < 32 && g6 < 64 && b5 < 32
    requires k == (r5 / 2) * 256 + (g6 / 4) * 16 + b5 / 2
    requires c == (r5 / 8) * 16 + (g6 / 16) * 4 + b5 / 8
    ensures c == CoarseOfFineKey(k)
  {
    KeyOfDigits(r5 / 2, g6 / 4, b5 / 2);
    assert (r5 / 2) / 4 == r5 / 8 && (g6 / 4) / 4 == g6 / 16 && (b5 / 2) / 4 == b5 / 8;
  }

  /** A pixel's own coarse index is the coarse index of its fine key. */
  lemma PixelCoarseKey(p: bv16)
    ensures CoarseIndex(p) == CoarseOfFineKey(FineKey(p))
  {
    FineKeyIsTopBits(p);
    CoarseIndexIsTopBits(p);
    ContributionsAreChannels(p);
    CoarseOfChannels(Red5(p), Green6(p), Blue5(p), FineKey(p), CoarseIndex(p));
  }

  // ---------------------------------------------------------------------
  // The coarse table and the palette

  /** Bands of width 16 around the digits of coarse index j. */
  predicate CoarseBanded(b: Bucket, j: nat) {
    && Band(b.redsum, b.counter, 16 * (j / 16), 16 * (j / 16) + 15)
    && Band(b.greensum, b.counter, 16 * ((j / 4) % 4), 16 * ((j / 4) % 4) + 15)
    && Band(b.bluesum, b.counter, 16 * (j % 4), 16 * (j % 4) + 15)
  }

  /** Each 6-bit channel lies in the band of its digit in the coarse key. */
  lemma Key2Bands(j: nat, r6: nat, g6: nat, b6: nat)
    requires r6 < 64 && g6 < 64 && b6 < 64 && j == Key2(r6, g6, b6)
    ensures && 16 * (j / 16) <= r6 <= 16 * (j / 16) + 15
      && 16 * ((j / 4) % 4) <= g6 <= 16 * ((j / 4) % 4) + 15
      && 16 * (j % 4) <= b6 <= 16 * (j % 4) + 15
  {
    Key2Digits(r6 / 16, g6 / 16, b6 / 16);
  }

  /** The digits of a coarse key written out. */
  lemma Key2Digits(a: nat, b: nat, c: nat)
    requires a < 4 && b < 4 && c < 4
    ensures (a * 16 + b * 4 + c) / 16 == a
    ensures ((a * 16 + b * 4 + c) / 4) % 4 == b
    ensures (a * 16 + b * 4 + c) % 4 == c
  {
    assert (a * 16 + b * 4 + c) / 4 == a * 4 + b;
  }

  /** The contributions of pixel2 lie in the bands of its coarse index. */
  lemma CoarseContributionsInBand(q: bv16)
    ensures var j := CoarseIndex(q);
      && 16 * (j / 16) <= RedContribution(q) <= 16 * (j / 16) + 15
      && 16 * ((j / 4) % 4) <= GreenContribution(q) <= 16 * ((j / 4) % 4) + 15
      && 16 * (j % 4) <= BlueContribution(q) <= 16 * (j % 4) + 15
  {
    CoarseContributionFacts(q);
    Key2Bands(CoarseIndex(q), RedContribution(q), GreenContribution(q), BlueContribution(q));
  }

  /**
    leveltwo[] after the fold loop of photo.c:615-634 has visited the
    sorted buckets FINE_SLOTS .. n-1: each non-empty one adds its pixel2
    once to the coarse bucket of pixel2's index.
  */
  function CoarseTable(sorted: seq<Bucket>, n: nat): (t: seq<Bucket>)
    requires FINE_SLOTS <= n <= |sorted|
    ensures |t| == COARSE_SIZE
    decreases n
  {
    if n == FINE_SLOTS then seq(COARSE_SIZE, _ => EMPTY)
    else
      var t := CoarseTable(sorted, n - 1);
      var b := sorted[n - 1];
      if b.counter == 0 then t
      else
        var q := ResidueColour(b);
        CoarseIndexBound(q);
        t[CoarseIndex(q) := AddPixel(t[CoarseIndex(q)], q)]
  }

  lemma AddKeepsCoarseBand(c: Bucket, q: bv16, j: nat)
    requires CoarseBanded(c, j) && CoarseIndex(q) == j
    ensures CoarseBanded(AddPixel(c, q), j)
  {
    CoarseContributionsInBand(q);
    CoarseBandedAdd(c, j, RedContribution(q), GreenContribution(q), BlueContribution(q));
  }

  lemma CoarseBandedAdd(c: Bucket, j: nat, rc: nat, gc: nat, bc: nat)
    requires CoarseBanded(c, j)
    requires 16 * (j / 16) <= rc <= 16 * (j / 16) + 15
    requires 16 * ((j / 4) % 4) <= gc <= 16 * ((j / 4) % 4) + 15
    requires 16 * (j % 4) <= bc <= 16 * (j % 4) + 15
    ensures CoarseBanded(Bucket(c.redsum + rc, c.greensum + gc, c.bluesum + bc, c.counter + 1), j)
  {
    BandStep(c.redsum, c.counter, 16 * (j / 16), 16 * (j / 16) + 15, rc);
    BandStep(c.greensum, c.counter, 16 * ((j / 4) % 4), 16 * ((j / 4) % 4) + 15, gc);
    BandStep(c.bluesum, c.counter, 16 * (j % 4), 16 * (j % 4) + 15, bc);
  }

  /** Whatever the sums, each coarse bucket only receives colours of its own index. */
  lemma {:induction false} CoarseTableBanded(sorted: seq<Bucket>, n: nat, j: nat)
    requires FINE_SLOTS <= n <= |sorted| && j < COARSE_SIZE
    ensures CoarseBanded(CoarseTable(sorted, n)[j], j)
    decreases n
  {
    if n > FINE_SLOTS {
      CoarseTableBanded(sorted, n - 1, j);
      var b := sorted[n - 1];
      if b.counter != 0 {
        var q := ResidueColour(b);
        CoarseIndexBound(q);
        if CoarseIndex(q) == j {
          AddKeepsCoarseBand(CoarseTable(sorted, n - 1)[j], q, j);
        }
      }
    }
  }

  /** Number of non-empty buckets in s. */
  function Occupied(s: seq<Bucket>): nat {
    if s == [] then 0 else Occupied(s[..|s| - 1]) + (if s[|s| - 1].counter != 0 then 1 else 0)
  }

  /**
    The coarse counters count folded buckets, not pixels: together they
    equal the number of non-empty buckets past the first FINE_SLOTS.
  */
  lemma {:induction false} CoarseCountsBuckets(sorted: seq<Bucket>, n: nat)
    requires FINE_SLOTS <= n <= |sorted|
    ensures TotalCount(CoarseTable(sorted, n)) == Occupied(sorted[FINE_SLOTS..n])
    decreases n
  {
    if n == FINE_SLOTS {
      var t := CoarseTable(sorted, n);
      assert forall k :: 0 <= k < |t| ==> t[k] == EMPTY;
      AllEmptyCount(t);
    } else {
      CoarseCountsBuckets(sorted, n - 1);
      assert sorted[FINE_SLOTS..n][..n - 1 - FINE_SLOTS] == sorted[FINE_SLOTS..n - 1];
      var b := sorted[n - 1];
      if b.counter != 0 {
        var q := ResidueColour(b);
        var t := CoarseTable(sorted, n - 1);
        CoarseIndexBound(q);
        TotalCountUpdate(t, CoarseIndex(q), AddPixel(t[CoarseIndex(q)], q));
      }
    }
  }

  /** A non-empty folded bucket leaves its coarse bucket non-empty. */
  lemma {:induction false} CoarseReceives(sorted: seq<Bucket>, n: nat, r: nat)
    requires FINE_SLOTS <= r < n <= |sorted| && sorted[r].counter > 0
    ensures CoarseIndex(ResidueColour(sorted[r])) < COARSE_SIZE
    ensures CoarseTable(sorted, n)[CoarseIndex(ResidueColour(sorted[r]))].counter > 0
    decreases n
  {
    CoarseIndexBound(ResidueColour(sorted[r]));
    if r < n - 1 {
      CoarseReceives(sorted, n - 1, r);
    }
  }

  /** The average of a coarse bucket is a 6-bit colour with that bucket's coarse key. */
  lemma AverageKeepsCoarseKey(b: Bucket, j: nat)
    requires j < COARSE_SIZE && b.counter > 0 && CoarseBanded(b, j)
    ensures Average(b).r < 64 && Average(b).g < 64 && Average(b).b < 64
    ensures Key2(Average(b).r, Average(b).g, Average(b).b) == j
  {
    AverageInBand(b.redsum, b.counter, 16 * (j / 16), 16 * (j / 16) + 15);
    AverageInBand(b.greensum, b.counter, 16 * ((j / 4) % 4), 16 * ((j / 4) % 4) + 15);
    AverageInBand(b.bluesum, b.counter, 16 * (j % 4), 16 * (j % 4) + 15);
    CoarseKeyFromBands(j, Average(b).r, Average(b).g, Average(b).b);
  }

  lemma CoarseKeyFromBands(j: nat, r6: nat, g6: nat, b6: nat)
    requires j < COARSE_SIZE
    requires 16 * (j / 16) <= r6 <= 16 * (j / 16) + 15
    requires 16 * ((j / 4) % 4) <= g6 <= 16 * ((j / 4) % 4) + 15
    requires 16 * (j % 4) <= b6 <= 16 * (j % 4) + 15
    ensures r6 < 64 && g6 < 64 && b6 < 64 && Key2(r6, g6, b6) == j
  {
    assert r6 / 16 == j / 16 && g6 / 16 == (j / 4) % 4 && b6 / 16 == j % 4;
  }

  /**
    Fine palette slot i (photo.c:604-610): the average of the i-th fullest
    bucket, or what the slot held before when that bucket is empty.
  */
  function FineSlot(sorted: seq<Bucket>, init: seq<Rgb>, i: nat): Rgb
    requires i < FINE_SLOTS && |sorted| == LEVEL_FOUR_SIZE && |init| == PALETTE_SIZE
  {
    if sorted[i].counter != 0 then Average(sorted[i]) else init[i]
  }

  /**
    Coarse palette slot i (photo.c:637-643): the average of coarse bucket
    i - FINE_SLOTS, or what the slot held before when that bucket is empty.
  */
  function CoarseSlot(coarse: seq<Bucket>, init: seq<Rgb>, i: nat): Rgb
    requires FINE_SLOTS <= i < PALETTE_SIZE && |coarse| == COARSE_SIZE && |init| == PALETTE_SIZE
  {
    if coarse[i - FINE_SLOTS].counter != 0 then Average(coarse[i - FINE_SLOTS]) else init[i]
  }

  /** The palette set_up_palette leaves, from the sorted buckets and the old palette. */
  function BuildPalette(sorted: seq<Bucket>, init: seq<Rgb>): (pal: seq<Rgb>)
    requires |sorted| == LEVEL_FOUR_SIZE && |init| == PALETTE_SIZE
    ensures |pal| == PALETTE_SIZE
  {
    var coarse := CoarseTable(sorted, LEVEL_FOUR_SIZE);
    seq(PALETTE_SIZE, (i: int) requires 0 <= i < PALETTE_SIZE =>
      if i < FINE_SLOTS then FineSlot(sorted, init, i) else CoarseSlot(coarse, init, i))
  }

  /** Slot i of the built palette is its fine or coarse slot. */
  lemma BuildPaletteAt(sorted: seq<Bucket>, init: seq<Rgb>, i: nat)
    requires |sorted| == LEVEL_FOUR_SIZE && |init| == PALETTE_SIZE && i < PALETTE_SIZE
    ensures i < FINE_SLOTS ==> BuildPalette(sorted, init)[i] == FineSlot(sorted, init, i)
    ensures FINE_SLOTS <= i ==>
      BuildPalette(sorted, init)[i] == CoarseSlot(CoarseTable(sorted, LEVEL_FOUR_SIZE), init, i)
  {
  }

  /**
    A fine slot built from a non-empty bucket of the sorted table of ps
    holds a 6-bit colour whose fine key is the key that bucket had before
    sorting.
  */
  lemma FineSlotKey(ps: seq<bv16>, sorted: seq<Bucket>, perm: seq<nat>, inv: seq<nat>, init: seq<Rgb>, i: nat)
    requires IsPermutation(sorted, FineTable(ps), perm, inv) && |init| == PALETTE_SIZE
    requires i < FINE_SLOTS && sorted[i].counter > 0
    ensures var c := BuildPalette(sorted, init)[i];
      c.r < 64 && c.g < 64 && c.b < 64 && Key4(c.r, c.g, c.b) == perm[i]
  {
    assert sorted[i] == FineTable(ps)[perm[i]];
    FineBucketBanded(ps, perm[i]);
    AverageKeepsFineKey(sorted[i], perm[i]);
    BuildPaletteAt(sorted, init, i);
  }

  /** A coarse slot built from a non-empty coarse bucket j holds a 6-bit colour of coarse key j. */
  lemma CoarseSlotKey(sorted: seq<Bucket>, init: seq<Rgb>, j: nat)
    requires |sorted| == LEVEL_FOUR_SIZE && |init| == PALETTE_SIZE
    requires j < COARSE_SIZE && CoarseTable(sorted, LEVEL_FOUR_SIZE)[j].counter > 0
    ensures var c := BuildPalette(sorted, init)[FINE_SLOTS + j];
      c.r < 64 && c.g < 64 && c.b < 64 && Key2(c.r, c.g, c.b) == j
  {
    CoarseTableBanded(sorted, LEVEL_FOUR_SIZE, j);
    AverageKeepsCoarseKey(CoarseTable(sorted, LEVEL_FOUR_SIZE)[j], j);
    BuildPaletteAt(sorted, init, FINE_SLOTS + j);
  }

  /** The loop of photo.c:604-610: fine slots from the 128 fullest buckets. */
  method FillFineSlots(palette: array<Rgb>, levelfour: array<Bucket>)
    requires palette.Length == PALETTE_SIZE && levelfour.Length == LEVEL_FOUR_SIZE
    modifies palette
    ensures forall i :: 0 <= i < FINE_SLOTS ==> palette[i] == FineSlot(levelfour[..], old(palette[..]), i)
    ensures forall i :: FINE_SLOTS <= i < PALETTE_SIZE ==> palette[i] == old(palette[i])
  {
    for index := 0 to FINE_SLOTS
      invariant forall i :: 0 <= i < index ==> palette[i] == FineSlot(levelfour[..], old(palette[..]), i)
      invariant forall i :: index <= i < PALETTE_SIZE ==> palette[i] == old(palette[i])
    {
      if levelfour[index].counter != 0 {
        palette[index] := Average(levelfour[index]);
      }
    }
  }

  /** One iteration of the loop of photo.c:615-634: bucket index folded into leveltwo. */
  method FoldBucket(levelfour: array<Bucket>, leveltwo: array<Bucket>, index: nat)
    requires levelfour.Length == LEVEL_FOUR_SIZE && leveltwo.Length == COARSE_SIZE
    requires FINE_SLOTS <= index < LEVEL_FOUR_SIZE
    requires leveltwo[..] == CoarseTable(levelfour[..], index)
    modifies leveltwo
    ensures leveltwo[..] == CoarseTable(levelfour[..], index + 1)
  {
    var b := levelfour[index];
    if b.counter != 0 {
      var pixel2 := Pixel2(ResidueRed(b), ResidueGreen(b), ResidueBlue(b));
      CoarseTableStep(levelfour[..], index, pixel2);
      var index2 := CoarseIndex(pixel2);
      leveltwo[index2] := AddPixel(leveltwo[index2], pixel2);
    }
  }

  lemma CoarseTableStep(sorted: seq<Bucket>, n: nat, q: bv16)
    requires FINE_SLOTS <= n < |sorted| && sorted[n].counter > 0
    requires q == Pixel2(ResidueRed(sorted[n]), ResidueGreen(sorted[n]), ResidueBlue(sorted[n]))
    ensures CoarseIndex(q) < COARSE_SIZE
    ensures CoarseTable(sorted, n + 1)
         == CoarseTable(sorted, n)[CoarseIndex(q) := AddPixel(CoarseTable(sorted, n)[CoarseIndex(q)], q)]
  {
    CoarseIndexBound(q);
  }

  /** The loop of photo.c:615-634: the remaining buckets folded into leveltwo. */
  method FoldResidue(levelfour: array<Bucket>, leveltwo: array<Bucket>)
    requires levelfour.Length == LEVEL_FOUR_SIZE && leveltwo.Length == COARSE_SIZE
    requires forall j :: 0 <= j < COARSE_SIZE ==> leveltwo[j] == EMPTY
    modifies leveltwo
    ensures leveltwo[..] == CoarseTable(levelfour[..], LEVEL_FOUR_SIZE)
  {
    assert leveltwo[..] == CoarseTable(levelfour[..], FINE_SLOTS);
    for index := FINE_SLOTS to LEVEL_FOUR_SIZE
      invariant leveltwo[..] == CoarseTable(levelfour[..], index)
    {
      FoldBucket(levelfour, leveltwo, index);
    }
  }

  /** The loop of photo.c:637-643: coarse slots from leveltwo. */
  method FillCoarseSlots(palette: array<Rgb>, leveltwo: array<Bucket>)
    requires palette.Length == PALETTE_SIZE && leveltwo.Length == COARSE_SIZE
    modifies palette
    ensures forall i :: 0 <= i < FINE_SLOTS ==> palette[i] == old(palette[i])
    ensures forall i :: FINE_SLOTS <= i < PALETTE_SIZE ==> palette[i] == CoarseSlot(leveltwo[..], old(palette[..]), i)
  {
    for index2 := 0 to COARSE_SIZE
      invariant forall i :: 0 <= i < FINE_SLOTS ==> palette[i] == old(palette[i])
      invariant forall i :: FINE_SLOTS <= i < FINE_SLOTS + index2 ==>
        palette[i] == CoarseSlot(leveltwo[..], old(palette[..]), i)
      invariant forall i :: FINE_SLOTS + index2 <= i < PALETTE_SIZE ==> palette[i] == old(palette[i])
    {
      if leveltwo[index2].counter != 0 {
        palette[index2 + FINE_SLOTS] := Average(leveltwo[index2]);
      }
    }
  }

  /** leveltwo[] of photo.c:592-598, every bucket empty. */
  method NewCoarseTable() returns (leveltwo: array<Bucket>)
    ensures fresh(leveltwo) && leveltwo.Length == COARSE_SIZE
    ensures forall j :: 0 <= j < COARSE_SIZE ==> leveltwo[j] == EMPTY
  {
    leveltwo := new Bucket[COARSE_SIZE];
    for i := 0 to COARSE_SIZE
      invariant forall j :: 0 <= j < i ==> leveltwo[j] == EMPTY
    {
      leveltwo[i] := EMPTY;
    }
  }

  /**
    set_up_palette (photo.c:587-644): sorts levelfour in place, then fills
    the palette from it through the local leveltwo table.
  */
  method SetUpPalette(palette: array<Rgb>, levelfour: array<Bucket>) returns (ghost perm: seq<nat>, ghost inv: seq<nat>)
    requires palette.Length == PALETTE_SIZE && levelfour.Length == LEVEL_FOUR_SIZE
    modifies palette, levelfour
    ensures SortedByCount(levelfour[..])
    ensures IsPermutation(levelfour[..], old(levelfour[..]), perm, inv)
    ensures palette[..] == BuildPalette(levelfour[..], old(palette[..]))
  {
    var leveltwo := NewCoarseTable();
    perm, inv := SortBuckets(levelfour);
    ghost var sorted := levelfour[..];
    ghost var init := palette[..];
    FillFineSlots(palette, levelfour);
    FoldResidue(levelfour, leveltwo);
    ghost var mid := palette[..];
    FillCoarseSlots(palette, leveltwo);
    assert levelfour[..] == sorted;
    PaletteAssembled(palette[..], mid, init, sorted, leveltwo[..]);
  }

  /** The palette after the three loops of set_up_palette is BuildPalette's. */
  lemma PaletteAssembled(pal: seq<Rgb>, mid: seq<Rgb>, init: seq<Rgb>, sorted: seq<Bucket>, coarse: seq<Bucket>)
    requires |pal| == |mid| == |init| == PALETTE_SIZE && |sorted| == LEVEL_FOUR_SIZE
    requires coarse == CoarseTable(sorted, LEVEL_FOUR_SIZE)
    requires forall i :: 0 <= i < FINE_SLOTS ==> mid[i] == FineSlot(sorted, init, i)
    requires forall i :: FINE_SLOTS <= i < PALETTE_SIZE ==> mid[i] == init[i]
    requires forall i :: 0 <= i < FINE_SLOTS ==> pal[i] == mid[i]
    requires forall i :: FINE_SLOTS <= i < PALETTE_SIZE ==> pal[i] == CoarseSlot(coarse, mid, i)
    ensures pal == BuildPalette(sorted, init)
  {
    var built := BuildPalette(sorted, init);
    forall i | 0 <= i < PALETTE_SIZE
      ensures pal[i] == built[i]
    {
      if FINE_SLOTS <= i {
        assert CoarseSlot(coarse, mid, i) == CoarseSlot(coarse, init, i);
      }
    }
  }

  // ---------------------------------------------------------------------
  // The 16-bit sums of the coarse fold

  /** The bucket of n copies of one pixel. */
  lemma {:induction false} UniformBucket(p: bv16, n: nat)
    ensures FineBucket(seq(n, _ => p), FineKey(p))
         == Bucket(n * RedContribution(p), n * GreenContribution(p), n * BlueContribution(p), n)
  {
    if n > 0 {
      assert seq(n, _ => p)[..n - 1] == seq(n - 1, _ => p);
      UniformBucket(p, n - 1);
      MulStep(n, RedContribution(p));
      MulStep(n, GreenContribution(p));
      MulStep(n, BlueContribution(p));
    }
  }

  lemma MulStep(n: nat, x: nat)
    requires n > 0
    ensures (n - 1) * x + x == n * x
  {
  }

  /**
    The uint16_t variables of photo.c:618-620 can wrap: 1041 pixels of
    pure green (0x07E0, coarse index 12) fill a bucket whose green sum
    65583 is truncated to 47, so the averaged pixel2 is 0 and the bucket is
    folded into coarse bucket 0.
  */
  lemma WrapMisplacesBucket()
    ensures var b := FineTable(seq(1041, _ => 0x07E0 as bv16))[FineKey(0x07E0)];
      && b == Bucket(0, 65583, 0, 1041) && !NoWrap(b)
      && ResidueColour(b) == 0 && CoarseIndex(ResidueColour(b)) == 0
      && CoarseIndex(0x07E0) == 12 && CoarseOfFineKey(FineKey(0x07E0)) == 12
  {
    var p: bv16 := 0x07E0;
    assert RedContribution(p) == 0 && GreenContribution(p) == 63 && BlueContribution(p) == 0;
    assert FineKey(p) == 240;
    UniformBucket(p, 1041);
    assert Truncate16(65583) == 47;
  }

  /** Sums of a fine bucket against its count: each contribution is at most 62, 63, 62. */
  lemma {:induction false} FineBucketBounded(ps: seq<bv16>, k: nat)
    ensures var b := FineBucket(ps, k);
      b.counter <= |ps| && b.redsum <= 62 * b.counter && b.greensum <= 63 * b.counter && b.bluesum <= 62 * b.counter
    decreases |ps|
  {
    if ps != [] {
      FineBucketBounded(ps[..|ps| - 1], k);
      ContributionsAreChannels(ps[|ps| - 1]);
    }
  }

  /**
    The wrap needs more than 1040 pixels in one bucket: a bucket of at most
    1040 pixels keeps its sums within the uint16_t variables.
  */
  lemma SmallBucketNoWrap(ps: seq<bv16>, k: nat)
    requires FineBucket(ps, k).counter <= 1040
    ensures NoWrap(FineBucket(ps, k))
  {
    FineBucketBounded(ps, k);
  }

  /**
    octree_t's fields are at least 32 bits wide: with at most
    MAX_PHOTO_WIDTH x MAX_PHOTO_HEIGHT pixels, no fine bucket's counter or
    sum reaches 2^26.
  */
  lemma FineBucketFits(ps: seq<bv16>, k: nat)
    requires |ps| <= MAX_PHOTO_WIDTH * MAX_PHOTO_HEIGHT
    ensures var b := FineBucket(ps, k);
      b.counter < 0x400_0000 && b.redsum < 0x400_0000 && b.greensum < 0x400_0000 && b.bluesum < 0x400_0000
  {
    var b := FineBucket(ps, k);
    FineBucketBounded(ps, k);
    MulMonotone(63, b.counter, MAX_PHOTO_WIDTH * MAX_PHOTO_HEIGHT);
  }
}
