/**
  Image files store their rows from the bottom up; read_obj_image and
  read_photo (photo.c:389-408, 479-519, 531-572) store them top down in
  memory.  This module states that reordering once, for any pixel type,
  and models read_obj_image on top of it.
*/
module Framing {
  import opened Wrappers
  import opened PhotoTypes

  lemma MulSucc(w: nat, h: nat)
    requires h > 0
    ensures w * h == w * (h - 1) + w
  {
  }

  /** Offset in the file of image cell (row, col): file rows run bottom to top. */
  function Mirror(w: nat, h: nat, row: nat, col: nat): nat
    requires row < h
  {
    GridIndex(w, h - 1 - row, col)
  }

  /**
    The image in memory from the pixel stream of a file: the last w
    pixels of the stream are the top row, and so on up the file.
  */
  function Unflip<T>(w: nat, h: nat, data: seq<T>): (img: seq<T>)
    requires w * h <= |data|
    ensures |img| == w * h
    decreases h
  {
    if h == 0 then []
    else
      MulSucc(w, h);
      data[w * (h - 1) .. w * h] + Unflip(w, h - 1, data)
  }

  /** Image cell (row, col) is file cell (h - 1 - row, col). */
  lemma {:induction false} UnflipIndex<T>(w: nat, h: nat, data: seq<T>, row: nat, col: nat)
    requires w * h <= |data| && row < h && col < w
    ensures GridIndex(w, row, col) < w * h && Mirror(w, h, row, col) < w * h
    ensures Unflip(w, h, data)[GridIndex(w, row, col)] == data[Mirror(w, h, row, col)]
    decreases h
  {
    GridIndexInRange(w, h, row, col);
    GridIndexInRange(w, h, h - 1 - row, col);
    MulSucc(w, h);
    if row > 0 {
      MulSucc(w, row);
      assert GridIndex(w, row, col) == w + GridIndex(w, row - 1, col);
      UnflipIndex(w, h - 1, data, row - 1, col);
    }
  }

  /** Unflip is the only image that has every cell from its mirrored file cell. */
  lemma UnflipUnique<T>(w: nat, h: nat, data: seq<T>, img: seq<T>)
    requires w * h <= |data| && |img| == w * h
    requires forall row: nat, col: nat :: row < h && col < w ==>
      GridIndex(w, row, col) < w * h && Mirror(w, h, row, col) < |data| &&
      img[GridIndex(w, row, col)] == data[Mirror(w, h, row, col)]
    ensures img == Unflip(w, h, data)
  {
    var u := Unflip(w, h, data);
    forall i | 0 <= i < w * h
      ensures img[i] == u[i]
    {
      GridOfIndex(w, h, i);
      var row, col := i / w, i % w;
      UnflipIndex(w, h, data, row, col);
    }
  }

  /** Reordering the rows twice gives back the file's pixels. */
  lemma UnflipTwice<T>(w: nat, h: nat, data: seq<T>)
    requires w * h <= |data|
    ensures Unflip(w, h, Unflip(w, h, data)) == data[..w * h]
  {
    var u := Unflip(w, h, data);
    forall row: nat, col: nat | row < h && col < w
      ensures GridIndex(w, row, col) < w * h && Mirror(w, h, row, col) < |u|
      ensures data[..w * h][GridIndex(w, row, col)] == u[Mirror(w, h, row, col)]
    {
      UnflipIndex(w, h, data, h - 1 - row, col);
      assert Mirror(w, h, h - 1 - row, col) == GridIndex(w, row, col);
    }
    UnflipUnique(w, h, u, data[..w * h]);
  }

  /**
    Filling image row y from file row h - 1 - y below rows that already
    hold the file's first h - 1 - y rows extends the image by one row.
  */
  lemma UnflipRowStep<T>(w: nat, h: nat, y: nat, lo: nat, src: nat, data: seq<T>, before: seq<T>, after: seq<T>)
    requires y < h && |before| == |after| && lo + w <= |after|
    requires lo == w * y && src == w * (h - 1 - y) && w * (h - y) == src + w <= |data|
    requires before[lo + w..] == Unflip(w, h - (y + 1), data)
    requires after[lo..lo + w] == data[src..src + w]
    requires forall i :: lo + w <= i < |after| ==> after[i] == before[i]
    ensures after[lo..] == Unflip(w, h - y, data)
  {
    assert after[lo + w..] == before[lo + w..];
    assert after[lo..] == after[lo..lo + w] + after[lo + w..];
  }

  /**
    read_obj_image (photo.c:352-413) as a function of the header read
    (None when it could not be read) and the pixel bytes that follow it.
  */
  function ReadObject(hdr: Option<Header>, pixels: seq<u8>): (r: Option<ObjImage>)
    ensures r.Some? <==> hdr.Some? && hdr.value.width <= MAX_OBJECT_WIDTH && hdr.value.height <= MAX_OBJECT_HEIGHT
                         && hdr.value.width * hdr.value.height <= |pixels|
    ensures r.Some? ==> r.value.hdr == hdr.value && r.value.Valid()
  {
    if hdr.None? || MAX_OBJECT_WIDTH < hdr.value.width || MAX_OBJECT_HEIGHT < hdr.value.height then None
    else if |pixels| < hdr.value.width * hdr.value.height then None
    else Some(ObjImage(hdr.value, Unflip(hdr.value.width, hdr.value.height, pixels)))
  }

  /** The write at (y, x) leaves every other cell of the grid alone. */
  lemma OtherCells(w: nat, y: nat, x: nat)
    requires x < w
    ensures forall row: nat, col: nat :: col < w && (row != y || col != x) ==> GridIndex(w, row, col) != GridIndex(w, y, x)
  {
    forall row: nat, col: nat | col < w && GridIndex(w, row, col) == GridIndex(w, y, x)
      ensures row == y && col == x
    {
      GridIndexInjective(w, row, col, y, x);
    }
  }

  /**
    One row of read_obj_image (photo.c:394-407): the w bytes from src on
    are copied to the w cells from lo on; false when the file ends first.
  */
  method CopyRow(img: array<u8>, lo: nat, file: seq<u8>, src: nat, w: nat) returns (ok: bool)
    requires lo + w <= img.Length && src <= |file|
    modifies img
    ensures ok <==> src + w <= |file|
    ensures ok ==> img[lo..lo + w] == file[src..src + w]
    ensures forall i :: 0 <= i < img.Length && !(lo <= i < lo + w) ==> img[i] == old(img[i])
  {
    var x := 0;
    while x < w
      invariant 0 <= x <= w && src + x <= |file|
      invariant forall i :: lo <= i < lo + x ==> img[i] == file[src + (i - lo)]
      invariant forall i :: 0 <= i < img.Length && !(lo <= i < lo + w) ==> img[i] == old(img[i])
    {
      if src + x >= |file| {
        return false;
      }
      img[lo + x] := file[src + x];
      x := x + 1;
    }
    ghost var row, want := img[lo..lo + w], file[src..src + w];
    forall j | 0 <= j < w
      ensures row[j] == want[j]
    {
      assert img[lo + j] == file[src + j];
    }
    assert row == want;
    return true;
  }

  /**
    The loops of read_obj_image: rows from the bottom of the image up,
    one byte per pixel, failing when the file ends early.
  */
  method ReadObjImage(hdr: Option<Header>, file: seq<u8>) returns (r: Option<ObjImage>)
    ensures r == ReadObject(hdr, file)
  {
    if hdr.None? || MAX_OBJECT_WIDTH < hdr.value.width || MAX_OBJECT_HEIGHT < hdr.value.height {
      return None;
    }
    var w: nat, h: nat := hdr.value.width, hdr.value.height;
    MulMonotone(w, 0, h);
    var img := new u8[w * h];
    var y, lo, src := h, w * h, 0;
    while y > 0
      invariant 0 <= y <= h && lo == w * y && src == w * (h - y) && lo <= w * h && src <= w * h
      invariant src <= |file| && img[lo..] == Unflip(w, h - y, file)
    {
      MulSucc(w, y);
      MulSucc(w, h - y + 1);
      MulMonotone(w, h - y + 1, h);
      y, lo := y - 1, lo - w;
      var ok := ReadObjRow(img, w, h, y, lo, file, src);
      if !ok {
        return None;
      }
      src := src + w;
    }
    r := Some(ObjImage(hdr.value, img[..]));
  }

  /** One iteration of the row loop of read_obj_image: row y joins the rows below it. */
  method ReadObjRow(img: array<u8>, w: nat, h: nat, y: nat, lo: nat, file: seq<u8>, src: nat) returns (ok: bool)
    requires img.Length == w * h && y < h && lo == w * y && src == w * (h - 1 - y)
    requires lo + w <= w * h && w * (h - y) == src + w && src <= |file|
    requires img[lo + w..] == Unflip(w, h - (y + 1), file)
    modifies img
    ensures ok <==> src + w <= |file|
    ensures ok ==> img[lo..] == Unflip(w, h - y, file)
  {
    ghost var before := img[..];
    ok := CopyRow(img, lo, file, src, w);
    if ok {
      UnflipRowStep(w, h, y, lo, src, file, before, img[..]);
    }
  }
}
