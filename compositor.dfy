/**
  fill_horiz_buffer and fill_vert_buffer (photo.c:135-266): one screen
  line of the room, the room photo underneath and the room's objects drawn
  over it in the order the room lists them.  Both are specified by one
  function, the byte the map shows at a cell.
*/
module Compositor {
  import opened PhotoTypes

  // Strip lengths from modex.h, which is not part of this model; these are
  // the values that file uses.
  const SCROLL_X_DIM: nat := 320
  const SCROLL_Y_DIM: nat := 182

  /** An object of the room: its map position and its image. */
  datatype Placed = Placed(x: int, y: int, image: ObjImage)

  predicate AllValid(objs: seq<Placed>) {
    forall j :: 0 <= j < |objs| ==> objs[j].image.Valid()
  }

  /** The object's bounding box holds map cell (c, r). */
  predicate Covers(o: Placed, c: int, r: int) {
    o.x <= c < o.x + o.image.hdr.width && o.y <= r < o.y + o.image.hdr.height
  }

  /** The object's image byte for map cell (c, r). */
  function SpriteAt(o: Placed, c: int, r: int): u8
    requires o.image.Valid() && Covers(o, c, r)
  {
    GridIndexInRange(o.image.hdr.width, o.image.hdr.height, r - o.y, c - o.x);
    o.image.img[GridIndex(o.image.hdr.width, r - o.y, c - o.x)]
  }

  /** The object draws over map cell (c, r): it covers it and its byte there is not transparent. */
  predicate Shows(o: Placed, c: int, r: int)
    requires o.image.Valid()
  {
    Covers(o, c, r) && SpriteAt(o, c, r) != OBJ_CLR_TRANSP
  }

  /** The byte at (c, r) once o is drawn over a line holding below there. */
  function Over(o: Placed, c: int, r: int, below: u8): u8
    requires o.image.Valid()
  {
    if Shows(o, c, r) then SpriteAt(o, c, r) else below
  }

  /** The photo's byte at map cell (c, r), 0 off the photo. */
  function PhotoAt(view: Photo, c: int, r: int): u8
    requires view.Valid()
  {
    if 0 <= c < view.hdr.width && 0 <= r < view.hdr.height then
      GridIndexInRange(view.hdr.width, view.hdr.height, r, c);
      view.img[GridIndex(view.hdr.width, r, c)]
    else 0
  }

  /** The byte the screen shows at map cell (c, r): the objects drawn in order over the photo. */
  function MapPixel(view: Photo, objs: seq<Placed>, c: int, r: int): u8
    requires view.Valid() && AllValid(objs)
    decreases |objs|
  {
    if objs == [] then PhotoAt(view, c, r)
    else Over(objs[|objs| - 1], c, r, MapPixel(view, objs[..|objs| - 1], c, r))
  }

  /** The last object that shows at a cell decides it, whatever is listed before it. */
  lemma {:induction false} MapPixelTop(view: Photo, objs: seq<Placed>, c: int, r: int, k: nat)
    requires view.Valid() && AllValid(objs) && k < |objs|
    requires Shows(objs[k], c, r)
    requires forall j :: k < j < |objs| ==> !Shows(objs[j], c, r)
    ensures MapPixel(view, objs, c, r) == SpriteAt(objs[k], c, r)
    decreases |objs|
  {
    var n := |objs| - 1;
    if k < n {
      assert !Shows(objs[n], c, r);
      MapPixelTop(view, objs[..n], c, r, k);
    }
  }

  /** A cell where no object shows is the photo's byte. */
  lemma {:induction false} MapPixelBackground(view: Photo, objs: seq<Placed>, c: int, r: int)
    requires view.Valid() && AllValid(objs)
    requires forall j :: 0 <= j < |objs| ==> !Shows(objs[j], c, r)
    ensures MapPixel(view, objs, c, r) == PhotoAt(view, c, r)
    decreases |objs|
  {
    if objs != [] {
      var n := |objs| - 1;
      assert !Shows(objs[n], c, r);
      MapPixelBackground(view, objs[..n], c, r);
    }
  }

  lemma AllValidConcat(a: seq<Placed>, b: seq<Placed>)
    requires AllValid(a) && AllValid(b)
    ensures AllValid(a + b)
  {
    forall j | 0 <= j < |a + b|
      ensures (a + b)[j].image.Valid()
    {
      if j >= |a| {
        assert (a + b)[j] == b[j - |a|];
      }
    }
  }

  /** A sprite whose every byte is transparent leaves the screen as it would be without it. */
  lemma {:induction false} TransparentInvisible(view: Photo, front: seq<Placed>, o: Placed, back: seq<Placed>, c: int, r: int)
    requires view.Valid() && AllValid(front) && AllValid(back) && o.image.Valid()
    requires forall i :: 0 <= i < |o.image.img| ==> o.image.img[i] == OBJ_CLR_TRANSP
    ensures AllValid(front + [o] + back) && AllValid(front + back)
    ensures MapPixel(view, front + [o] + back, c, r) == MapPixel(view, front + back, c, r)
    decreases |back|
  {
    AllValidConcat(front, [o]);
    AllValidConcat(front + [o], back);
    AllValidConcat(front, back);
    var all, rest := front + [o] + back, front + back;
    if back == [] {
      assert all[..|all| - 1] == front && all[|all| - 1] == o && rest == front;
      if Covers(o, c, r) {
        var w, h := o.image.hdr.width, o.image.hdr.height;
        GridIndexInRange(w, h, r - o.y, c - o.x);
        var i := GridIndex(w, r - o.y, c - o.x);
        assert o.image.img[i] == OBJ_CLR_TRANSP;
      }
    } else {
      var n := |back| - 1;
      assert all[|all| - 1] == back[n] && rest[|rest| - 1] == back[n];
      assert all[..|all| - 1] == front + [o] + back[..n];
      assert rest[..|rest| - 1] == front + back[..n];
      TransparentInvisible(view, front, o, back[..n], c, r);
    }
  }

  /**
    The background byte of fill_horiz_buffer (photo.c:151): only the
    column is tested against the photo, so the row must lie on it.
  */
  function HorizBackground(view: Photo, c: int, y: int): (v: u8)
    requires view.Valid() && 0 <= y < view.hdr.height
    ensures v == PhotoAt(view, c, y)
  {
    if 0 <= c && view.hdr.width > c then
      GridIndexInRange(view.hdr.width, view.hdr.height, y, c);
      view.img[view.hdr.width * y + c]
    else 0
  }

  /**
    The background byte of fill_vert_buffer (photo.c:225): only the row is
    tested against the photo, so the column must lie on it.
  */
  function VertBackground(view: Photo, x: int, r: int): (v: u8)
    requires view.Valid() && 0 <= x < view.hdr.width
    ensures v == PhotoAt(view, x, r)
  {
    if 0 <= r && view.hdr.height > r then
      GridIndexInRange(view.hdr.width, view.hdr.height, r, x);
      view.img[view.hdr.width * r + x]
    else 0
  }

  /** Without the row test, a row off the photo would be read outside view->img. */
  lemma UncheckedRowLeavesPhoto(view: Photo, c: int, y: int)
    requires view.Valid() && 0 <= c < view.hdr.width && !(0 <= y < view.hdr.height)
    ensures view.hdr.width * y + c < 0 || |view.img| <= view.hdr.width * y + c
  {
    var w: nat, h: nat := view.hdr.width, view.hdr.height;
    if y < 0 {
      MulMonotone(w, 1, -y);
      assert w * y == -(w * -y);
    } else {
      MulMonotone(w, h, y);
    }
  }

  /** Without the column test, a column off the photo would be read from another row or outside view->img. */
  lemma UncheckedColumnLeavesRow(view: Photo, x: int, r: int)
    requires view.Valid() && 0 <= r < view.hdr.height && !(0 <= x < view.hdr.width)
    ensures view.hdr.width * r + x < view.hdr.width * r || view.hdr.width * (r + 1) <= view.hdr.width * r + x
  {
  }

  /** The skip test of fill_horiz_buffer (photo.c:161-163). */
  predicate HorizCulled(o: Placed, x: int, y: int) {
    y < o.y || y >= o.y + o.image.hdr.height || x + SCROLL_X_DIM <= o.x || x >= o.x + o.image.hdr.width
  }

  /** The skip test of fill_vert_buffer (photo.c:235-238). */
  predicate VertCulled(o: Placed, x: int, y: int) {
    x < o.x || x >= o.x + o.image.hdr.width || y + SCROLL_Y_DIM <= o.y || y >= o.y + o.image.hdr.height
  }

  /**
    An object is skipped exactly when it covers no cell of the horizontal
    line, except a zero-width one, which covers nothing and may still pass.
  */
  lemma HorizCulledExact(o: Placed, x: int, y: int)
    ensures HorizCulled(o, x, y) || o.image.hdr.width == 0 <==> forall c :: x <= c < x + SCROLL_X_DIM ==> !Covers(o, c, y)
  {
    if !HorizCulled(o, x, y) && o.image.hdr.width != 0 {
      var c := if x <= o.x then o.x else x;
      assert Covers(o, c, y);
    }
  }

  /**
    An object is skipped exactly when it covers no cell of the vertical
    line, except a zero-height one, which covers nothing and may still pass.
  */
  lemma VertCulledExact(o: Placed, x: int, y: int)
    ensures VertCulled(o, x, y) || o.image.hdr.height == 0 <==> forall r :: y <= r < y + SCROLL_Y_DIM ==> !Covers(o, x, r)
  {
    if !VertCulled(o, x, y) && o.image.hdr.height != 0 {
      var r := if y <= o.y then o.y else y;
      assert Covers(o, x, r);
    }
  }

  /**
    One object of fill_horiz_buffer (photo.c:155-190): skipped when it
    misses the line, otherwise its opaque bytes on row y are copied over
    the strip where they overlap it.
  */
  method OverlayHoriz(o: Placed, x: int, y: int, buf: array<u8>)
    requires o.image.Valid() && buf.Length == SCROLL_X_DIM
    modifies buf
    ensures forall i :: 0 <= i < buf.Length ==> buf[i] == Over(o, x + i, y, old(buf[i]))
  {
    var w, h := o.image.hdr.width, o.image.hdr.height;
    if y < o.y || y >= o.y + h || x + SCROLL_X_DIM <= o.x || x >= o.x + w {
      return;
    }
    var yoff := (y - o.y) * w;
    var idx, imgx;
    if x <= o.x {
      idx, imgx := o.x - x, 0;
    } else {
      idx, imgx := 0, x - o.x;
    }
    ghost var start := idx;
    while SCROLL_X_DIM > idx && w > imgx
      invariant 0 <= start <= idx <= SCROLL_X_DIM && imgx == x + idx - o.x && 0 <= imgx <= w
      invariant start == 0 || x + start == o.x
      invariant forall i :: 0 <= i < buf.Length ==>
        buf[i] == (if start <= i < idx then Over(o, x + i, y, old(buf[i])) else old(buf[i]))
    {
      GridIndexInRange(w, h, y - o.y, imgx);
      var pixel := o.image.img[yoff + imgx];
      if OBJ_CLR_TRANSP != pixel {
        buf[idx] := pixel;
      }
      idx, imgx := idx + 1, imgx + 1;
    }
  }

  /**
    One object of fill_vert_buffer (photo.c:229-264): skipped when it
    misses the line, otherwise its opaque bytes in column x are copied
    over the strip where they overlap it.
  */
  method OverlayVert(o: Placed, x: int, y: int, buf: array<u8>)
    requires o.image.Valid() && buf.Length == SCROLL_Y_DIM
    modifies buf
    ensures forall i :: 0 <= i < buf.Length ==> buf[i] == Over(o, x, y + i, old(buf[i]))
  {
    var w, h := o.image.hdr.width, o.image.hdr.height;
    if x < o.x || x >= o.x + w || y + SCROLL_Y_DIM <= o.y || y >= o.y + h {
      return;
    }
    var xoff := x - o.x;
    var idx, imgy;
    if y <= o.y {
      idx, imgy := o.y - y, 0;
    } else {
      idx, imgy := 0, y - o.y;
    }
    ghost var start := idx;
    while SCROLL_Y_DIM > idx && h > imgy
      invariant 0 <= start <= idx <= SCROLL_Y_DIM && imgy == y + idx - o.y && 0 <= imgy <= h
      invariant start == 0 || y + start == o.y
      invariant forall i :: 0 <= i < buf.Length ==>
        buf[i] == (if start <= i < idx then Over(o, x, y + i, old(buf[i])) else old(buf[i]))
    {
      GridIndexInRange(w, h, imgy, xoff);
      var pixel := o.image.img[xoff + w * imgy];
      if OBJ_CLR_TRANSP != pixel {
        buf[idx] := pixel;
      }
      idx, imgy := idx + 1, imgy + 1;
    }
  }

  /**
    fill_horiz_buffer: the line of the map from (x, y) rightwards.  Only
    x is checked against the photo, so y must lie on it.
  */
  method FillHoriz(view: Photo, objs: seq<Placed>, x: int, y: int, buf: array<u8>)
    requires view.Valid() && AllValid(objs) && buf.Length == SCROLL_X_DIM && 0 <= y < view.hdr.height
    modifies buf
    ensures forall i :: 0 <= i < SCROLL_X_DIM ==> buf[i] == MapPixel(view, objs, x + i, y)
  {
    for idx := 0 to SCROLL_X_DIM
      invariant forall i :: 0 <= i < idx ==> buf[i] == PhotoAt(view, x + i, y)
    {
      buf[idx] := HorizBackground(view, x + idx, y);
    }
    for k := 0 to |objs|
      invariant forall i :: 0 <= i < buf.Length ==> buf[i] == MapPixel(view, objs[..k], x + i, y)
    {
      OverlayHoriz(objs[k], x, y, buf);
      assert objs[..k + 1][..k] == objs[..k];
    }
    assert objs[..|objs|] == objs;
  }

  /**
    fill_vert_buffer: the line of the map from (x, y) downwards.  Only y
    is checked against the photo, so x must lie on it.
  */
  method FillVert(view: Photo, objs: seq<Placed>, x: int, y: int, buf: array<u8>)
    requires view.Valid() && AllValid(objs) && buf.Length == SCROLL_Y_DIM && 0 <= x < view.hdr.width
    modifies buf
    ensures forall i :: 0 <= i < SCROLL_Y_DIM ==> buf[i] == MapPixel(view, objs, x, y + i)
  {
    for idx := 0 to SCROLL_Y_DIM
      invariant forall i :: 0 <= i < idx ==> buf[i] == PhotoAt(view, x, y + i)
    {
      buf[idx] := VertBackground(view, x, y + idx);
    }
    for k := 0 to |objs|
      invariant forall i :: 0 <= i < buf.Length ==> buf[i] == MapPixel(view, objs[..k], x, y + i)
    {
      OverlayVert(objs[k], x, y, buf);
      assert objs[..k + 1][..k] == objs[..k];
    }
    assert objs[..|objs|] == objs;
  }
}
