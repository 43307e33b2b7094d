/**
  Entities of photo.c: image headers, object images, room photos and
  palette colours, the configuration constants from the headers that
  photo.c includes, and the accessor functions.
*/
module PhotoTypes {

  /** Unsigned C integer ranges. */
  type u8 = x: int | 0 <= x < 0x100
  type u16 = x: int | 0 <= x < 0x1_0000

  // Size limits and the transparency sentinel come from photo_headers.h,
  // which is not part of this model; these are the values that file uses.
  const MAX_PHOTO_WIDTH: nat := 1024
  const MAX_PHOTO_HEIGHT: nat := 1024
  const MAX_OBJECT_WIDTH: nat := 160
  const MAX_OBJECT_HEIGHT: nat := 100
  const OBJ_CLR_TRANSP: u8 := 0x40

  /** Number of palette slots a room photo chooses (photo.c:90). */
  const PALETTE_SIZE: nat := 192

  /** photo_header_t: the image dimensions stored at the start of a file. */
  datatype Header = Header(width: u16, height: u16)

  /** One palette entry: 6-bit red, green and blue stored in uint8_t. */
  datatype Rgb = Rgb(r: u8, g: u8, b: u8)

  /**
    image_t: an object image, row-major from the top row, one 2:2:2 byte
    per pixel, no padding.
  */
  datatype ObjImage = ObjImage(hdr: Header, img: seq<u8>) {
    predicate Valid() {
      |img| == hdr.width * hdr.height
    }
  }

  /**
    photo_t: a room photo, its 192 chosen colours and one palette index
    (64..255) per pixel, row-major from the top row.
  */
  datatype Photo = Photo(hdr: Header, palette: seq<Rgb>, img: seq<u8>) {
    predicate Valid() {
      |palette| == PALETTE_SIZE && |img| == hdr.width * hdr.height
    }
  }

  /** Offset of (row, col) in a row-major grid with the given width. */
  function GridIndex(width: nat, row: nat, col: nat): nat {
    width * row + col
  }

  /** A cell of a width x height grid lies inside the grid's storage. */
  lemma GridIndexInRange(width: nat, height: nat, row: nat, col: nat)
    requires row < height && col < width
    ensures GridIndex(width, row, col) < width * height
  {
    calc {
      width * row + col;
    <  width * row + width;
    == width * (row + 1);
    <= { MulMonotone(width, row + 1, height); }
      width * height;
    }
  }

  /** Distinct cells of a grid have distinct offsets. */
  lemma GridIndexInjective(width: nat, row: nat, col: nat, row': nat, col': nat)
    requires col < width && col' < width
    requires GridIndex(width, row, col) == GridIndex(width, row', col')
    ensures row == row' && col == col'
  {
    if row < row' {
      MulMonotone(width, row + 1, row');
    } else if row' < row {
      MulMonotone(width, row' + 1, row);
    }
  }

  /** Row and column recovered from an offset by division. */
  lemma GridIndexDivMod(width: nat, row: nat, col: nat)
    requires col < width
    ensures GridIndex(width, row, col) / width == row
    ensures GridIndex(width, row, col) % width == col
  {
    var i := GridIndex(width, row, col);
    var q, r := i / width, i % width;
    assert i == width * q + r;
    GridIndexInjective(width, row, col, q, r);
  }

  /** Every offset inside a grid is the offset of the cell its division names. */
  lemma GridOfIndex(width: nat, height: nat, i: nat)
    requires i < width * height
    ensures 0 < width && i / width < height && i % width < width
    ensures i == GridIndex(width, i / width, i % width)
  {
    var q := i / width;
    assert i == width * q + i % width;
    if height <= q {
      MulMonotone(width, height, q);
    }
  }

  lemma MulMonotone(a: nat, b: nat, c: nat)
    requires b <= c
    ensures a * b <= a * c
  {
  }

  /** image_height (photo.c:277-279). */
  function ImageHeight(im: ObjImage): (h: u16)
    requires im.Valid()
    ensures |im.img| == im.hdr.width * h
  {
    im.hdr.height
  }

  /** image_width (photo.c:290-292). */
  function ImageWidth(im: ObjImage): (w: u16)
    requires im.Valid()
    ensures |im.img| == w * im.hdr.height
  {
    im.hdr.width
  }

  /** photo_height (photo.c:302-304). */
  function PhotoHeight(p: Photo): (h: u16)
    requires p.Valid()
    ensures |p.img| == p.hdr.width * h
  {
    p.hdr.height
  }

  /** photo_width (photo.c:315-317). */
  function PhotoWidth(p: Photo): (w: u16)
    requires p.Valid()
    ensures |p.img| == w * p.hdr.height
  {
    p.hdr.width
  }
}
