/**
  read_photo (photo.c:430-577): pass one counts the file's pixels into
  4096 fine buckets, set_up_palette chooses the photo's 192 colours, and
  pass two maps every pixel to a palette index.
*/
module ReadPhoto {
  import opened Wrappers
  import opened PhotoTypes
  import opened PixelBits
  import opened FineBuckets
  import opened Palette
  import opened Remap
  import opened Framing

  /** The image bytes of pass two in file order; a pixel with no match keeps the 0 it started with. */
  function RemapImage(ps: seq<bv16>, pal: seq<Rgb>): (img: seq<u8>)
    requires |pal| == PALETTE_SIZE
    ensures |img| == |ps|
  {
    seq(|ps|, i requires 0 <= i < |ps| => RemapByte(ps[i], pal, 0))
  }

  /** Remapping a stretch of the file gives that stretch of the remapped image. */
  lemma RemapImageSlice(ps: seq<bv16>, pal: seq<Rgb>, lo: nat, hi: nat)
    requires |pal| == PALETTE_SIZE && lo <= hi <= |ps|
    ensures RemapImage(ps, pal)[lo..hi] == RemapImage(ps[lo..hi], pal)
  {
  }

  /**
    The photo read_photo returns for a header, the pixels after it and the
    palette set_up_palette chose: each cell holds its file pixel's slot
    plus 64, rows turned top down.
  */
  function PhotoFrom(hdr: Header, pixels: seq<bv16>, pal: seq<Rgb>): (p: Photo)
    requires hdr.width * hdr.height <= |pixels| && |pal| == PALETTE_SIZE
    ensures p.Valid() && p.hdr == hdr && p.palette == pal
  {
    var w: nat, h: nat := hdr.width, hdr.height;
    Photo(hdr, pal, Unflip(w, h, RemapImage(pixels[..w * h], pal)))
  }

  /** Photo cell (row, col) holds the remapped byte of its mirrored file pixel. */
  lemma PhotoCell(hdr: Header, pixels: seq<bv16>, pal: seq<Rgb>, row: nat, col: nat)
    requires hdr.width * hdr.height <= |pixels| && |pal| == PALETTE_SIZE
    requires row < hdr.height && col < hdr.width
    ensures GridIndex(hdr.width, row, col) < hdr.width * hdr.height
    ensures Mirror(hdr.width, hdr.height, row, col) < hdr.width * hdr.height
    ensures PhotoFrom(hdr, pixels, pal).img[GridIndex(hdr.width, row, col)]
         == RemapByte(pixels[Mirror(hdr.width, hdr.height, row, col)], pal, 0)
  {
    var w: nat, h: nat := hdr.width, hdr.height;
    UnflipIndex(w, h, RemapImage(pixels[..w * h], pal), row, col);
  }

  /**
    A photo cell whose file pixel's bucket is among the 128 fullest holds
    that bucket's sorted position plus 64.
  */
  lemma PhotoCellFine(hdr: Header, pixels: seq<bv16>, sorted: seq<Bucket>, perm: seq<nat>, inv: seq<nat>,
                      junk: seq<Rgb>, row: nat, col: nat)
    requires hdr.width * hdr.height <= |pixels| && |junk| == PALETTE_SIZE
    requires SortedByCount(sorted) && IsPermutation(sorted, FineTable(pixels[..hdr.width * hdr.height]), perm, inv)
    requires row < hdr.height && col < hdr.width
    ensures GridIndex(hdr.width, row, col) < hdr.width * hdr.height
    ensures Mirror(hdr.width, hdr.height, row, col) < hdr.width * hdr.height
    ensures var p := pixels[Mirror(hdr.width, hdr.height, row, col)];
      FineKey(p) < LEVEL_FOUR_SIZE &&
      (inv[FineKey(p)] < FINE_SLOTS ==>
        PhotoFrom(hdr, pixels, BuildPalette(sorted, junk)).img[GridIndex(hdr.width, row, col)]
          == inv[FineKey(p)] + SLOT_OFFSET)
  {
    var w: nat, h: nat := hdr.width, hdr.height;
    var pal := BuildPalette(sorted, junk);
    PhotoCell(hdr, pixels, pal, row, col);
    var t := Mirror(w, h, row, col);
    var ps := pixels[..w * h];
    assert ps[t] == pixels[t];
    FineKeyBound(ps[t]);
    if inv[FineKey(ps[t])] < FINE_SLOTS {
      RemapFineCase(ps, sorted, perm, inv, junk, t);
    }
  }

  /**
    A photo cell whose file pixel's bucket was folded, and does not wrap,
    holds a byte in 192..255 no later than its own coarse slot, and the
    palette colour of that byte matches the pixel's coarse key.
  */
  lemma PhotoCellCoarse(hdr: Header, pixels: seq<bv16>, sorted: seq<Bucket>, perm: seq<nat>, inv: seq<nat>,
                        junk: seq<Rgb>, row: nat, col: nat)
    requires hdr.width * hdr.height <= |pixels| && |junk| == PALETTE_SIZE
    requires SortedByCount(sorted) && IsPermutation(sorted, FineTable(pixels[..hdr.width * hdr.height]), perm, inv)
    requires row < hdr.height && col < hdr.width
    ensures GridIndex(hdr.width, row, col) < hdr.width * hdr.height
    ensures Mirror(hdr.width, hdr.height, row, col) < hdr.width * hdr.height
    ensures var p := pixels[Mirror(hdr.width, hdr.height, row, col)];
      var pal := BuildPalette(sorted, junk);
      var v := PhotoFrom(hdr, pixels, pal).img[GridIndex(hdr.width, row, col)];
      FineKey(p) < LEVEL_FOUR_SIZE &&
      (FINE_SLOTS <= inv[FineKey(p)] && NoWrap(FineBucket(pixels[..hdr.width * hdr.height], FineKey(p))) ==>
        FINE_SLOTS + SLOT_OFFSET <= v <= FINE_SLOTS + SLOT_OFFSET + CoarseIndex(p)
        && CoarseMatch(p, pal[v - SLOT_OFFSET]))
  {
    var w: nat, h: nat := hdr.width, hdr.height;
    var pal := BuildPalette(sorted, junk);
    PhotoCell(hdr, pixels, pal, row, col);
    var t := Mirror(w, h, row, col);
    var ps := pixels[..w * h];
    assert ps[t] == pixels[t];
    FineKeyBound(ps[t]);
    if FINE_SLOTS <= inv[FineKey(ps[t])] && NoWrap(FineBucket(ps, FineKey(ps[t]))) {
      RemapCoarseCase(ps, sorted, perm, inv, junk, t);
      CoarseSlotByte(ps[t], pal);
    }
  }

  lemma CoarseSlotByte(p: bv16, pal: seq<Rgb>)
    requires |pal| == PALETTE_SIZE
    requires RemapSlot(p, pal).Some?
    requires FINE_SLOTS <= RemapSlot(p, pal).value <= FINE_SLOTS + CoarseIndex(p)
    requires CoarseMatch(p, pal[RemapSlot(p, pal).value])
    ensures var v := RemapByte(p, pal, 0);
      FINE_SLOTS + SLOT_OFFSET <= v <= FINE_SLOTS + SLOT_OFFSET + CoarseIndex(p) && CoarseMatch(p, pal[v - SLOT_OFFSET])
  {
  }

  /** levelfour[] zeroed by the loop of photo.c:442-445. */
  method NewFineTable() returns (levelfour: array<Bucket>)
    ensures fresh(levelfour) && levelfour[..] == FineTable([])
  {
    levelfour := new Bucket[LEVEL_FOUR_SIZE];
    for i := 0 to LEVEL_FOUR_SIZE
      invariant forall j :: 0 <= j < i ==> levelfour[j] == EMPTY
    {
      levelfour[i] := EMPTY;
    }
    assert levelfour[..] == FineTable([]);
  }

  /**
    Pass one (photo.c:479-519): each pixel of the file, in file order, is
    added to the bucket of its fine key; false when the file ends early.
  */
  method PassOne(levelfour: array<Bucket>, w: nat, h: nat, file: seq<bv16>) returns (ok: bool)
    requires levelfour[..] == FineTable([])
    modifies levelfour
    ensures ok <==> w * h <= |file|
    ensures ok ==> levelfour[..] == FineTable(file[..w * h])
  {
    var k := 0;
    var y := h;
    while y > 0
      invariant 0 <= y <= h && k == GridIndex(w, h - y, 0) && k <= |file|
      invariant levelfour[..] == FineTable(file[..k])
    {
      y := y - 1;
      var x := 0;
      while x < w
        invariant 0 <= x <= w && k == GridIndex(w, h - 1 - y, x) && k <= |file|
        invariant levelfour[..] == FineTable(file[..k])
      {
        GridIndexInRange(w, h, h - 1 - y, x);
        if k >= |file| {
          return false;
        }
        var pixel := file[k];
        FineTableStep(file[..k], pixel);
        assert file[..k + 1] == file[..k] + [pixel];
        var index := FineKey(pixel);
        levelfour[index] := AddPixel(levelfour[index], pixel);
        k := k + 1;
        x := x + 1;
      }
      MulSucc(w, h - y);
    }
    return true;
  }

  /** The body of pass two for one pixel (photo.c:549-570): its slot plus 64, if it has one. */
  method StoreRemapped(palette: seq<Rgb>, img: array<u8>, cell: nat, pixel: bv16)
    requires |palette| == PALETTE_SIZE && cell < img.Length
    modifies img
    ensures img[cell] == RemapByte(pixel, palette, old(img[cell]))
    ensures forall i :: 0 <= i < img.Length && i != cell ==> img[i] == old(img[i])
  {
    var slot := RemapPixel(pixel, palette);
    if slot.Some? {
      img[cell] := SlotByte(slot.value);
    }
  }

  /**
    One row of pass two (photo.c:544-571): the w file pixels from src on
    are stored, remapped, at the w image cells from lo on.
  */
  method PassTwoRow(palette: seq<Rgb>, img: array<u8>, lo: nat, file: seq<bv16>, src: nat, w: nat, ghost data: seq<u8>)
    requires |palette| == PALETTE_SIZE && lo + w <= img.Length && src + w <= |file| && src + w <= |data|
    requires forall i :: src <= i < src + w ==> data[i] == RemapByte(file[i], palette, 0)
    requires forall i :: lo <= i < lo + w ==> img[i] == 0
    modifies img
    ensures img[lo..lo + w] == data[src..src + w]
    ensures forall i :: 0 <= i < img.Length && !(lo <= i < lo + w) ==> img[i] == old(img[i])
  {
    var x := 0;
    while x < w
      invariant 0 <= x <= w
      invariant forall i :: lo <= i < lo + x ==> img[i] == data[src + (i - lo)]
      invariant forall i :: lo + x <= i < lo + w ==> img[i] == 0
      invariant forall i :: 0 <= i < img.Length && !(lo <= i < lo + w) ==> img[i] == old(img[i])
    {
      ghost var v := data[src + x];
      assert v == RemapByte(file[src + x], palette, 0);
      StoreRemapped(palette, img, lo + x, file[src + x]);
      assert img[lo + x] == v;
      x := x + 1;
    }
    ghost var row, want := img[lo..lo + w], data[src..src + w];
    forall j | 0 <= j < w
      ensures row[j] == want[j]
    {
      assert img[lo + j] == data[src + j];
    }
    assert row == want;
  }

  /**
    Pass two (photo.c:531-572): the file is read again, bottom row first,
    and each pixel's palette slot plus 64 is stored at its place in the
    image, which starts out zero.  data is the file's pixels remapped, in
    file order.
  */
  method PassTwo(palette: seq<Rgb>, img: array<u8>, w: nat, h: nat, file: seq<bv16>, ghost data: seq<u8>)
    requires |palette| == PALETTE_SIZE && img.Length == w * h && w * h <= |file| && |data| == w * h
    requires forall i :: 0 <= i < w * h ==> data[i] == RemapByte(file[i], palette, 0)
    requires forall i :: 0 <= i < img.Length ==> img[i] == 0
    modifies img
    ensures img[..] == Unflip(w, h, data)
  {
    var y, lo, src := h, w * h, 0;
    while y > 0
      invariant 0 <= y <= h && lo == w * y && src == w * (h - y) && lo <= w * h && src <= w * h
      invariant img[lo..] == Unflip(w, h - y, data)
      invariant forall i :: 0 <= i < lo ==> img[i] == 0
    {
      MulSucc(w, y);
      MulSucc(w, h - y + 1);
      MulMonotone(w, h - y + 1, h);
      y, lo := y - 1, lo - w;
      PassTwoStep(palette, img, w, h, y, lo, src, file, data);
      src := src + w;
    }
  }

  /** One iteration of the row loop of pass two: row y joins the rows below it. */
  method PassTwoStep(palette: seq<Rgb>, img: array<u8>, w: nat, h: nat, y: nat, lo: nat, src: nat,
                     file: seq<bv16>, ghost data: seq<u8>)
    requires |palette| == PALETTE_SIZE && img.Length == w * h && w * h <= |file| && |data| == w * h
    requires forall i :: 0 <= i < w * h ==> data[i] == RemapByte(file[i], palette, 0)
    requires y < h && lo == w * y && src == w * (h - 1 - y) && lo + w <= w * h && w * (h - y) == src + w <= w * h
    requires img[lo + w..] == Unflip(w, h - (y + 1), data)
    requires forall i :: 0 <= i < lo + w ==> img[i] == 0
    modifies img
    ensures img[lo..] == Unflip(w, h - y, data)
    ensures forall i :: 0 <= i < lo ==> img[i] == 0
  {
    ghost var before := img[..];
    PassTwoRow(palette, img, lo, file, src, w, data);
    UnflipRowStep(w, h, y, lo, src, data, before, img[..]);
  }

  /**
    read_photo: None when the header cannot be read, is too large, or the
    file ends early; otherwise the photo of PhotoFrom for the palette
    built from the order the sort left the buckets in.  junk is the palette memory before
    set_up_palette, which it leaves alone for empty buckets.
  */
  method ReadPhoto(hdr: Option<Header>, file: seq<bv16>, junk: seq<Rgb>)
    returns (r: Option<Photo>, ghost sorted: seq<Bucket>, ghost perm: seq<nat>, ghost inv: seq<nat>)
    requires |junk| == PALETTE_SIZE
    ensures r.None? <==> hdr.None? || MAX_PHOTO_WIDTH < hdr.value.width || MAX_PHOTO_HEIGHT < hdr.value.height
                         || |file| < hdr.value.width * hdr.value.height
    ensures r.Some? ==>
      && var w, h := hdr.value.width, hdr.value.height;
      && SortedByCount(sorted) && IsPermutation(sorted, FineTable(file[..w * h]), perm, inv)
      && r.value == PhotoFrom(hdr.value, file, BuildPalette(sorted, junk))
  {
    sorted, perm, inv := [], [], [];
    if hdr.None? || MAX_PHOTO_WIDTH < hdr.value.width || MAX_PHOTO_HEIGHT < hdr.value.height {
      return None, sorted, perm, inv;
    }
    var w: nat, h: nat := hdr.value.width, hdr.value.height;
    var levelfour := NewFineTable();
    var ok := PassOne(levelfour, w, h, file);
    if !ok {
      return None, sorted, perm, inv;
    }
    var palette := new Rgb[PALETTE_SIZE](i requires 0 <= i < PALETTE_SIZE => junk[i]);
    assert palette[..] == junk;
    perm, inv := SetUpPalette(palette, levelfour);
    sorted := levelfour[..];
    var photo := RemapPhoto(hdr.value, file, palette[..]);
    r := Some(photo);
  }

  /**
    The end of read_photo (photo.c:525-576): a zeroed image the size of
    the header filled by pass two with the chosen palette.
  */
  method RemapPhoto(hdr: Header, file: seq<bv16>, palette: seq<Rgb>) returns (p: Photo)
    requires hdr.width * hdr.height <= |file| && |palette| == PALETTE_SIZE
    ensures p == PhotoFrom(hdr, file, palette)
  {
    var w: nat, h: nat := hdr.width, hdr.height;
    MulMonotone(w, 0, h);
    var img := new u8[w * h](_ => 0);
    PassTwo(palette, img, w, h, file, RemapImage(file[..w * h], palette));
    p := Photo(hdr, palette, img[..]);
  }
}
