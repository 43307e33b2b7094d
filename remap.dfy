/**
  The second pass of read_photo (photo.c:549-570): each pixel is mapped to
  the first palette slot whose colour it matches, first among the fine
  slots on the top four bits per channel, then among the coarse slots on
  the top two bits.
*/
module Remap {
  import opened Wrappers
  import opened PhotoTypes
  import opened PixelBits
  import opened FineBuckets
  import opened Palette

  /** LEVEL_TWO_SIZE1 (photo.c:555, 565): the 64 colours in front of the photo's 192. */
  const SLOT_OFFSET: nat := 64

  /** The first fine slot at or after from that p matches (photo.c:552-559). */
  function FirstFine(p: bv16, pal: seq<Rgb>, from: nat): (r: Option<nat>)
    requires |pal| == PALETTE_SIZE && from <= FINE_SLOTS
    ensures r.Some? ==> from <= r.value < FINE_SLOTS
    decreases FINE_SLOTS - from
  {
    if from == FINE_SLOTS then None
    else if FineMatch(p, pal[from]) then Some(from)
    else FirstFine(p, pal, from + 1)
  }

  /** The first coarse slot at or after from that p matches (photo.c:561-570). */
  function FirstCoarse(p: bv16, pal: seq<Rgb>, from: nat): (r: Option<nat>)
    requires |pal| == PALETTE_SIZE && FINE_SLOTS <= from <= PALETTE_SIZE
    ensures r.Some? ==> from <= r.value < PALETTE_SIZE
    decreases PALETTE_SIZE - from
  {
    if from == PALETTE_SIZE then None
    else if CoarseMatch(p, pal[from]) then Some(from)
    else FirstCoarse(p, pal, from + 1)
  }

  /** The fine search finds the first matching fine slot at or after from, if any. */
  lemma {:induction false} FirstFineSpec(p: bv16, pal: seq<Rgb>, from: nat)
    requires |pal| == PALETTE_SIZE && from <= FINE_SLOTS
    ensures var r := FirstFine(p, pal, from);
      && (r.Some? ==> from <= r.value < FINE_SLOTS && FineMatch(p, pal[r.value]))
      && (r.Some? ==> forall i :: from <= i < r.value ==> !FineMatch(p, pal[i]))
      && (r.None? ==> forall i :: from <= i < FINE_SLOTS ==> !FineMatch(p, pal[i]))
    decreases FINE_SLOTS - from
  {
    if from < FINE_SLOTS && !FineMatch(p, pal[from]) {
      FirstFineSpec(p, pal, from + 1);
    }
  }

  /** The coarse search finds the first matching coarse slot at or after from, if any. */
  lemma {:induction false} FirstCoarseSpec(p: bv16, pal: seq<Rgb>, from: nat)
    requires |pal| == PALETTE_SIZE && FINE_SLOTS <= from <= PALETTE_SIZE
    ensures var r := FirstCoarse(p, pal, from);
      && (r.Some? ==> from <= r.value < PALETTE_SIZE && CoarseMatch(p, pal[r.value]))
      && (r.Some? ==> forall i :: from <= i < r.value ==> !CoarseMatch(p, pal[i]))
      && (r.None? ==> forall i :: from <= i < PALETTE_SIZE ==> !CoarseMatch(p, pal[i]))
    decreases PALETTE_SIZE - from
  {
    if from < PALETTE_SIZE && !CoarseMatch(p, pal[from]) {
      FirstCoarseSpec(p, pal, from + 1);
    }
  }

  /** The palette slot pixel p is mapped to, or None when no slot matches. */
  function RemapSlot(p: bv16, pal: seq<Rgb>): Option<nat>
    requires |pal| == PALETTE_SIZE
  {
    match FirstFine(p, pal, 0)
    case Some(i) => Some(i)
    case None => FirstCoarse(p, pal, FINE_SLOTS)
  }

  /**
    The image byte written for p (photo.c:555, 565): slot + 64.  When no
    slot matches, the source writes nothing and the byte keeps its value
    before, given here as before.
  */
  function RemapByte(p: bv16, pal: seq<Rgb>, before: u8): u8
    requires |pal| == PALETTE_SIZE
  {
    match RemapSlot(p, pal)
    case Some(s) => SlotByte(s)
    case None => before
  }

  /** The image byte of palette slot s: s + 64, which fits a byte. */
  function SlotByte(s: nat): (c: u8)
    requires s < PALETTE_SIZE
    ensures c == s + SLOT_OFFSET
  {
    s + SLOT_OFFSET
  }

  /**
    The two search loops for one pixel, with the flag of photo.c:550 that
    skips the coarse loop once a fine slot matched.
  */
  method RemapPixel(pixel: bv16, palette: seq<Rgb>) returns (slot: Option<nat>)
    requires |palette| == PALETTE_SIZE
    ensures slot == RemapSlot(pixel, palette)
  {
    slot := None;
    var flag := 0;
    var i := 0;
    while i < FINE_SLOTS
      invariant 0 <= i <= FINE_SLOTS
      invariant flag == 0 && slot.None? && FirstFine(pixel, palette, 0) == FirstFine(pixel, palette, i)
    {
      if FineMatch(pixel, palette[i]) {
        slot := Some(i);
        flag := 1;
        break;
      }
      i := i + 1;
    }
    if flag == 0 {
      var j := FINE_SLOTS;
      while j < PALETTE_SIZE
        invariant FINE_SLOTS <= j <= PALETTE_SIZE
        invariant FirstFine(pixel, palette, 0).None?
        invariant slot.None? && FirstCoarse(pixel, palette, FINE_SLOTS) == FirstCoarse(pixel, palette, j)
      {
        if CoarseMatch(pixel, palette[j]) {
          slot := Some(j);
          break;
        }
        j := j + 1;
      }
    }
  }

  /** A matching fine slot with no match before it is the one the search finds. */
  lemma {:induction false} FirstFineAt(p: bv16, pal: seq<Rgb>, from: nat, r: nat)
    requires |pal| == PALETTE_SIZE && from <= r < FINE_SLOTS && FineMatch(p, pal[r])
    requires forall i :: from <= i < r ==> !FineMatch(p, pal[i])
    ensures FirstFine(p, pal, from) == Some(r)
    decreases r - from
  {
    if from < r {
      FirstFineAt(p, pal, from + 1, r);
    }
  }

  /** With no matching fine slot the fine search finds nothing. */
  lemma {:induction false} FirstFineNone(p: bv16, pal: seq<Rgb>, from: nat)
    requires |pal| == PALETTE_SIZE && from <= FINE_SLOTS
    requires forall i :: from <= i < FINE_SLOTS ==> !FineMatch(p, pal[i])
    ensures FirstFine(p, pal, from) == None
    decreases FINE_SLOTS - from
  {
    if from < FINE_SLOTS {
      FirstFineNone(p, pal, from + 1);
    }
  }

  /** A matching coarse slot bounds the slot the coarse search finds. */
  lemma {:induction false} FirstCoarseBefore(p: bv16, pal: seq<Rgb>, from: nat, j: nat)
    requires |pal| == PALETTE_SIZE && FINE_SLOTS <= from <= j < PALETTE_SIZE && CoarseMatch(p, pal[j])
    ensures FirstCoarse(p, pal, from).Some? && FirstCoarse(p, pal, from).value <= j
    decreases j - from
  {
    if from < j && !CoarseMatch(p, pal[from]) {
      FirstCoarseBefore(p, pal, from + 1, j);
    }
  }

  // ---------------------------------------------------------------------
  // Every pixel finds the slot of its own bucket

  /** Before a non-empty bucket in count order, every bucket is non-empty. */
  lemma FullerBefore(sorted: seq<Bucket>, i: nat, r: nat)
    requires SortedByCount(sorted) && i < r < |sorted| && sorted[r].counter > 0
    ensures sorted[i].counter > 0
  {
    assert CompareFunction(sorted[i], sorted[r]) <= 0;
  }

  /** The sorted position inv[k] holds the bucket that had key k. */
  lemma SortedHoldsKey(ps: seq<bv16>, sorted: seq<Bucket>, perm: seq<nat>, inv: seq<nat>, k: nat)
    requires IsPermutation(sorted, FineTable(ps), perm, inv) && k < LEVEL_FOUR_SIZE
    ensures inv[k] < LEVEL_FOUR_SIZE && perm[inv[k]] == k && sorted[inv[k]] == FineBucket(ps, k)
  {
    assert sorted[inv[k]] == FineTable(ps)[perm[inv[k]]];
  }

  /** A fine slot other than the pixel's own does not match the pixel. */
  lemma OtherFineSlotMisses(ps: seq<bv16>, sorted: seq<Bucket>, perm: seq<nat>, inv: seq<nat>,
                            init: seq<Rgb>, p: bv16, i: nat)
    requires IsPermutation(sorted, FineTable(ps), perm, inv) && |init| == PALETTE_SIZE
    requires i < FINE_SLOTS && sorted[i].counter > 0
    requires FineKey(p) < LEVEL_FOUR_SIZE && i != inv[FineKey(p)]
    ensures !FineMatch(p, BuildPalette(sorted, init)[i])
  {
    var c := BuildPalette(sorted, init)[i];
    FineSlotKey(ps, sorted, perm, inv, init, i);
    FineMatchIffSameKey(p, c);
  }

  /** The pixel's own fine slot, when it has one, matches the pixel. */
  lemma OwnFineSlotMatches(ps: seq<bv16>, sorted: seq<Bucket>, perm: seq<nat>, inv: seq<nat>,
                           init: seq<Rgb>, t: nat)
    requires IsPermutation(sorted, FineTable(ps), perm, inv) && |init| == PALETTE_SIZE
    requires t < |ps| && FineKey(ps[t]) < LEVEL_FOUR_SIZE && inv[FineKey(ps[t])] < FINE_SLOTS
    ensures FineMatch(ps[t], BuildPalette(sorted, init)[inv[FineKey(ps[t])]])
  {
    var k := FineKey(ps[t]);
    var r := inv[k];
    SortedHoldsKey(ps, sorted, perm, inv, k);
    PixelBucketNonEmpty(ps, t);
    FineSlotKey(ps, sorted, perm, inv, init, r);
    FineMatchIffSameKey(ps[t], BuildPalette(sorted, init)[r]);
  }

  /** A coarse slot of a non-empty coarse bucket other than the pixel's does not match it. */
  lemma OtherCoarseSlotMisses(sorted: seq<Bucket>, init: seq<Rgb>, p: bv16, j: nat)
    requires |sorted| == LEVEL_FOUR_SIZE && |init| == PALETTE_SIZE
    requires j < COARSE_SIZE && CoarseTable(sorted, LEVEL_FOUR_SIZE)[j].counter > 0 && j != CoarseIndex(p)
    ensures !CoarseMatch(p, BuildPalette(sorted, init)[FINE_SLOTS + j])
  {
    CoarseSlotKey(sorted, init, j);
    CoarseMatchIffSameKey(p, BuildPalette(sorted, init)[FINE_SLOTS + j]);
  }

  /**
    When the pixel's bucket is folded and its sums do not wrap, the coarse
    bucket of the pixel's own coarse index is filled.
  */
  lemma OwnCoarseBucketFilled(ps: seq<bv16>, sorted: seq<Bucket>, perm: seq<nat>, inv: seq<nat>, t: nat)
    requires IsPermutation(sorted, FineTable(ps), perm, inv)
    requires t < |ps| && FineKey(ps[t]) < LEVEL_FOUR_SIZE && inv[FineKey(ps[t])] >= FINE_SLOTS
    requires NoWrap(FineBucket(ps, FineKey(ps[t])))
    ensures CoarseIndex(ps[t]) < COARSE_SIZE
    ensures CoarseTable(sorted, LEVEL_FOUR_SIZE)[CoarseIndex(ps[t])].counter > 0
  {
    var k := FineKey(ps[t]);
    var r := inv[k];
    SortedHoldsKey(ps, sorted, perm, inv, k);
    PixelBucketNonEmpty(ps, t);
    FineBucketBanded(ps, k);
    ResidueKeepsCoarseKey(sorted[r], k);
    PixelCoarseKey(ps[t]);
    CoarseReceives(sorted, LEVEL_FOUR_SIZE, r);
  }

  /** ... and the coarse slot of that bucket matches the pixel. */
  lemma OwnCoarseSlotMatches(ps: seq<bv16>, sorted: seq<Bucket>, perm: seq<nat>, inv: seq<nat>,
                             init: seq<Rgb>, t: nat)
    requires IsPermutation(sorted, FineTable(ps), perm, inv) && |init| == PALETTE_SIZE
    requires t < |ps| && FineKey(ps[t]) < LEVEL_FOUR_SIZE && inv[FineKey(ps[t])] >= FINE_SLOTS
    requires NoWrap(FineBucket(ps, FineKey(ps[t])))
    ensures CoarseIndex(ps[t]) < COARSE_SIZE
    ensures CoarseMatch(ps[t], BuildPalette(sorted, init)[FINE_SLOTS + CoarseIndex(ps[t])])
  {
    OwnCoarseBucketFilled(ps, sorted, perm, inv, t);
    CoarseSlotKey(sorted, init, CoarseIndex(ps[t]));
    CoarseMatchIffSameKey(ps[t], BuildPalette(sorted, init)[FINE_SLOTS + CoarseIndex(ps[t])]);
  }

  /**
    A pixel whose bucket is among the FINE_SLOTS fullest is mapped to that
    bucket's own slot: every slot before it holds another fine key.
  */
  lemma RemapFineCase(ps: seq<bv16>, sorted: seq<Bucket>, perm: seq<nat>, inv: seq<nat>, init: seq<Rgb>, t: nat)
    requires SortedByCount(sorted) && IsPermutation(sorted, FineTable(ps), perm, inv)
    requires |init| == PALETTE_SIZE && t < |ps|
    requires FineKey(ps[t]) < LEVEL_FOUR_SIZE && inv[FineKey(ps[t])] < FINE_SLOTS
    ensures RemapSlot(ps[t], BuildPalette(sorted, init)) == Some(inv[FineKey(ps[t])])
  {
    var p, pal := ps[t], BuildPalette(sorted, init);
    var k := FineKey(p);
    var r := inv[k];
    SortedHoldsKey(ps, sorted, perm, inv, k);
    PixelBucketNonEmpty(ps, t);
    forall i | 0 <= i < r
      ensures !FineMatch(p, pal[i])
    {
      FullerBefore(sorted, i, r);
      OtherFineSlotMisses(ps, sorted, perm, inv, init, p, i);
    }
    OwnFineSlotMatches(ps, sorted, perm, inv, init, t);
    FirstFineAt(p, pal, 0, r);
  }

  /**
    A pixel whose bucket was folded, and whose bucket sums do not wrap in
    the uint16_t variables, is mapped to a coarse slot that it matches, no
    later than the slot of its own coarse index; a slot before that one
    is taken only when its coarse bucket is empty and the slot still holds
    its colour from before set_up_palette.
  */
  lemma RemapCoarseCase(ps: seq<bv16>, sorted: seq<Bucket>, perm: seq<nat>, inv: seq<nat>, init: seq<Rgb>, t: nat)
    requires SortedByCount(sorted) && IsPermutation(sorted, FineTable(ps), perm, inv)
    requires |init| == PALETTE_SIZE && t < |ps|
    requires FineKey(ps[t]) < LEVEL_FOUR_SIZE && inv[FineKey(ps[t])] >= FINE_SLOTS
    requires NoWrap(FineBucket(ps, FineKey(ps[t])))
    ensures var s := RemapSlot(ps[t], BuildPalette(sorted, init));
      && s.Some? && FINE_SLOTS <= s.value <= FINE_SLOTS + CoarseIndex(ps[t])
      && CoarseMatch(ps[t], BuildPalette(sorted, init)[s.value])
      && (s.value < FINE_SLOTS + CoarseIndex(ps[t]) ==>
            CoarseTable(sorted, LEVEL_FOUR_SIZE)[s.value - FINE_SLOTS].counter == 0
            && BuildPalette(sorted, init)[s.value] == init[s.value])
  {
    var p, pal := ps[t], BuildPalette(sorted, init);
    NoFineSlotWhenFolded(ps, sorted, perm, inv, init, t);
    OwnCoarseSlotMatches(ps, sorted, perm, inv, init, t);
    var j0 := CoarseIndex(p);
    FirstCoarseBefore(p, pal, FINE_SLOTS, FINE_SLOTS + j0);
    var first := FirstCoarse(p, pal, FINE_SLOTS);
    FirstCoarseSpec(p, pal, FINE_SLOTS);
    assert RemapSlot(p, pal) == first;
    if first.value < FINE_SLOTS + j0 {
      EarlierCoarseSlotIsStale(sorted, init, p, first.value);
    }
  }

  /** A pixel whose bucket was folded matches no fine slot: all of them hold other keys. */
  lemma NoFineSlotWhenFolded(ps: seq<bv16>, sorted: seq<Bucket>, perm: seq<nat>, inv: seq<nat>, init: seq<Rgb>, t: nat)
    requires SortedByCount(sorted) && IsPermutation(sorted, FineTable(ps), perm, inv)
    requires |init| == PALETTE_SIZE && t < |ps|
    requires FineKey(ps[t]) < LEVEL_FOUR_SIZE && inv[FineKey(ps[t])] >= FINE_SLOTS
    ensures FirstFine(ps[t], BuildPalette(sorted, init), 0) == None
  {
    var p, pal := ps[t], BuildPalette(sorted, init);
    var k := FineKey(p);
    var r := inv[k];
    SortedHoldsKey(ps, sorted, perm, inv, k);
    PixelBucketNonEmpty(ps, t);
    forall i | 0 <= i < FINE_SLOTS
      ensures !FineMatch(p, pal[i])
    {
      FullerBefore(sorted, i, r);
      OtherFineSlotMisses(ps, sorted, perm, inv, init, p, i);
    }
    FirstFineNone(p, pal, 0);
  }

  /** A coarse slot before the pixel's own that matches it was not refilled. */
  lemma EarlierCoarseSlotIsStale(sorted: seq<Bucket>, init: seq<Rgb>, p: bv16, s: nat)
    requires |sorted| == LEVEL_FOUR_SIZE && |init| == PALETTE_SIZE
    requires FINE_SLOTS <= s < FINE_SLOTS + CoarseIndex(p) && CoarseIndex(p) <= COARSE_SIZE
    requires CoarseMatch(p, BuildPalette(sorted, init)[s])
    ensures CoarseTable(sorted, LEVEL_FOUR_SIZE)[s - FINE_SLOTS].counter == 0
    ensures BuildPalette(sorted, init)[s] == init[s]
  {
    if CoarseTable(sorted, LEVEL_FOUR_SIZE)[s - FINE_SLOTS].counter != 0 {
      OtherCoarseSlotMisses(sorted, init, p, s - FINE_SLOTS);
    }
  }
}
