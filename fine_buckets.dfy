/**
  Pass one of read_photo (photo.c:479-519): every pixel of the photo is
  added to one of 4096 fine buckets keyed by the top four bits of each
  channel.  This module states what the bucket table holds after the pass,
  as functions of the pixels read, and proves the facts the palette
  selection and the remap pass rely on.
*/
module FineBuckets {
  import opened PixelBits

  /** LEVEL_FOUR_SIZE (photo.c:47). */
  const LEVEL_FOUR_SIZE: nat := 4096

  /**
    octree_t: channel sums and a pixel count.  The header declaring its
    field types is not part of this model; the sums are unbounded here.
  */
  datatype Bucket = Bucket(redsum: nat, greensum: nat, bluesum: nat, counter: nat)

  const EMPTY: Bucket := Bucket(0, 0, 0, 0)

  /** One pixel added to its bucket (photo.c:513-516). */
  function AddPixel(b: Bucket, p: bv16): Bucket {
    Bucket(b.redsum + RedContribution(p), b.greensum + GreenContribution(p),
           b.bluesum + BlueContribution(p), b.counter + 1)
  }

  /** The bucket with key k after the pixels ps have been read, in order. */
  function FineBucket(ps: seq<bv16>, k: nat): Bucket
    decreases |ps|
  {
    if ps == [] then EMPTY
    else
      var b := FineBucket(ps[..|ps| - 1], k);
      if FineKey(ps[|ps| - 1]) == k then AddPixel(b, ps[|ps| - 1]) else b
  }

  /** levelfour[] after pass one over ps. */
  function FineTable(ps: seq<bv16>): (t: seq<Bucket>)
    ensures |t| == LEVEL_FOUR_SIZE
  {
    seq(LEVEL_FOUR_SIZE, (k: int) requires 0 <= k => FineBucket(ps, k))
  }

  /** Reading one more pixel changes only the bucket of that pixel. */
  lemma FineTableStep(ps: seq<bv16>, p: bv16)
    ensures FineKey(p) < LEVEL_FOUR_SIZE
    ensures FineTable(ps + [p]) == FineTable(ps)[FineKey(p) := AddPixel(FineTable(ps)[FineKey(p)], p)]
  {
    FineKeyBound(p);
    assert (ps + [p])[..|ps|] == ps;
    var t, t' := FineTable(ps), FineTable(ps + [p]);
    forall k | 0 <= k < LEVEL_FOUR_SIZE
      ensures t'[k] == t[FineKey(p) := AddPixel(t[FineKey(p)], p)][k]
    {
    }
  }

  /** Sum of the counters of a table. */
  function TotalCount(t: seq<Bucket>): nat {
    if t == [] then 0 else TotalCount(t[..|t| - 1]) + t[|t| - 1].counter
  }

  lemma {:induction false} TotalCountUpdate(t: seq<Bucket>, k: nat, b: Bucket)
    requires k < |t|
    ensures TotalCount(t[k := b]) + t[k].counter == TotalCount(t) + b.counter
    decreases |t|
  {
    var n := |t| - 1;
    if k < n {
      assert t[k := b][..n] == t[..n][k := b];
      TotalCountUpdate(t[..n], k, b);
    } else {
      assert t[k := b][..n] == t[..n];
    }
  }

  /**
    Every pixel lands in exactly one bucket and adds one to its counter:
    after the pass the counters sum to the number of pixels read.
  */
  lemma {:induction false} FineTableCountsPixels(ps: seq<bv16>)
    ensures TotalCount(FineTable(ps)) == |ps|
    decreases |ps|
  {
    if ps == [] {
      var t := FineTable(ps);
      assert forall k :: 0 <= k < |t| ==> t[k] == EMPTY;
      AllEmptyCount(t);
    } else {
      var n := |ps| - 1;
      var p := ps[n];
      assert ps == ps[..n] + [p];
      FineTableCountsPixels(ps[..n]);
      FineTableStep(ps[..n], p);
      var t := FineTable(ps[..n]);
      TotalCountUpdate(t, FineKey(p), AddPixel(t[FineKey(p)], p));
    }
  }

  lemma {:induction false} AllEmptyCount(t: seq<Bucket>)
    requires forall k :: 0 <= k < |t| ==> t[k].counter == 0
    ensures TotalCount(t) == 0
    decreases |t|
  {
    if t != [] {
      AllEmptyCount(t[..|t| - 1]);
    }
  }

  /** lo * n <= sum <= hi * n: the sum of n values, each in [lo, hi]. */
  predicate Band(sum: nat, n: nat, lo: nat, hi: nat) {
    lo * n <= sum <= hi * n
  }

  lemma BandStep(sum: nat, n: nat, lo: nat, hi: nat, v: nat)
    requires Band(sum, n, lo, hi) && lo <= v <= hi
    ensures Band(sum + v, n + 1, lo, hi)
  {
    assert lo * (n + 1) == lo * n + lo;
    assert hi * (n + 1) == hi * n + hi;
  }

  /** Top four bits of each 6-bit channel encoded in a fine key. */
  function KeyRed(k: nat): nat { k / 256 }
  function KeyGreen(k: nat): nat { (k / 16) % 16 }
  function KeyBlue(k: nat): nat { k % 16 }

  lemma Key4Digits(r6: nat, g6: nat, b6: nat)
    requires r6 < 64 && g6 < 64 && b6 < 64
    ensures KeyRed(Key4(r6, g6, b6)) == r6 / 4
    ensures KeyGreen(Key4(r6, g6, b6)) == g6 / 4
    ensures KeyBlue(Key4(r6, g6, b6)) == b6 / 4
  {
    KeyOfDigits(r6 / 4, g6 / 4, b6 / 4);
  }

  /** The digits of a fine key written out. */
  lemma KeyOfDigits(a: nat, b: nat, c: nat)
    requires a < 16 && b < 16 && c < 16
    ensures KeyRed(a * 256 + b * 16 + c) == a
    ensures KeyGreen(a * 256 + b * 16 + c) == b
    ensures KeyBlue(a * 256 + b * 16 + c) == c
  {
    var k := a * 256 + b * 16 + c;
    assert k == (a * 16 + b) * 16 + c;
    assert k / 16 == a * 16 + b && k % 16 == c;
    assert k == a * 256 + (b * 16 + c) && b * 16 + c < 256;
  }

  /**
    Every value summed into the bucket with key k shares the bucket's top
    four bits per channel, so each channel sum lies in the band of its
    digit.
  */
  predicate FineBanded(b: Bucket, k: nat) {
    && Band(b.redsum, b.counter, 4 * KeyRed(k), 4 * KeyRed(k) + 3)
    && Band(b.greensum, b.counter, 4 * KeyGreen(k), 4 * KeyGreen(k) + 3)
    && Band(b.bluesum, b.counter, 4 * KeyBlue(k), 4 * KeyBlue(k) + 3)
  }

  /** A pixel's contributions lie in the bands of its own key. */
  lemma ContributionsInBand(p: bv16)
    ensures var k := FineKey(p);
      && 4 * KeyRed(k) <= RedContribution(p) <= 4 * KeyRed(k) + 3
      && 4 * KeyGreen(k) <= GreenContribution(p) <= 4 * KeyGreen(k) + 3
      && 4 * KeyBlue(k) <= BlueContribution(p) <= 4 * KeyBlue(k) + 3
  {
    ContributionFacts(p);
    Key4Bands(FineKey(p), RedContribution(p), GreenContribution(p), BlueContribution(p));
  }

  /** Each 6-bit channel lies in the band of its digit in the fine key. */
  lemma Key4Bands(k: nat, r6: nat, g6: nat, b6: nat)
    requires r6 < 64 && g6 < 64 && b6 < 64 && k == Key4(r6, g6, b6)
    ensures && 4 * KeyRed(k) <= r6 <= 4 * KeyRed(k) + 3
      && 4 * KeyGreen(k) <= g6 <= 4 * KeyGreen(k) + 3
      && 4 * KeyBlue(k) <= b6 <= 4 * KeyBlue(k) + 3
  {
    Key4Digits(r6, g6, b6);
  }

  /** Each bucket of the table only ever receives pixels of its own key. */
  lemma {:induction false} FineBucketBanded(ps: seq<bv16>, k: nat)
    ensures FineBanded(FineBucket(ps, k), k)
    decreases |ps|
  {
    if ps != [] {
      var n := |ps| - 1;
      var p := ps[n];
      FineBucketBanded(ps[..n], k);
      if FineKey(p) == k {
        AddPixelBanded(FineBucket(ps[..n], k), p);
      }
    }
  }

  /** Adding a pixel to a bucket of its own key keeps the bucket in its bands. */
  lemma AddPixelBanded(b: Bucket, p: bv16)
    requires FineBanded(b, FineKey(p))
    ensures FineBanded(AddPixel(b, p), FineKey(p))
  {
    ContributionsInBand(p);
    BandedAdd(b, FineKey(p), RedContribution(p), GreenContribution(p), BlueContribution(p));
  }

  lemma BandedAdd(b: Bucket, k: nat, rc: nat, gc: nat, bc: nat)
    requires FineBanded(b, k)
    requires 4 * KeyRed(k) <= rc <= 4 * KeyRed(k) + 3
    requires 4 * KeyGreen(k) <= gc <= 4 * KeyGreen(k) + 3
    requires 4 * KeyBlue(k) <= bc <= 4 * KeyBlue(k) + 3
    ensures FineBanded(Bucket(b.redsum + rc, b.greensum + gc, b.bluesum + bc, b.counter + 1), k)
  {
    BandStep(b.redsum, b.counter, 4 * KeyRed(k), 4 * KeyRed(k) + 3, rc);
    BandStep(b.greensum, b.counter, 4 * KeyGreen(k), 4 * KeyGreen(k) + 3, gc);
    BandStep(b.bluesum, b.counter, 4 * KeyBlue(k), 4 * KeyBlue(k) + 3, bc);
  }

  /** The bucket of a pixel that was read is not empty. */
  lemma {:induction false} PixelBucketNonEmpty(ps: seq<bv16>, i: nat)
    requires i < |ps|
    ensures FineBucket(ps, FineKey(ps[i])).counter > 0
    decreases |ps|
  {
    var n := |ps| - 1;
    if i < n {
      assert ps[..n][i] == ps[i];
      PixelBucketNonEmpty(ps[..n], i);
    }
  }
}
