/** The clipping rasteriser of scripts/hive/generate_sprites.py: `blank`, `set_px`,
    `fill_rect` and `stroke_rect`, drawing in place. */
module Raster {
  newtype byte = x: int | 0 <= x < 256

  datatype Pixel = Pixel(r: byte, g: byte, b: byte, a: byte)

  datatype Color = Color(r: byte, g: byte, b: byte)

  const MAGENTA := Pixel(255, 0, 255, 0)

  function Opaque(c: Color, a: byte): Pixel {
    Pixel(c.r, c.g, c.b, a)
  }

  /** Columns `x0..x0+w`, rows `y0..y0+h`. */
  datatype Rect = Rect(x0: int, y0: int, w: int, h: int) {
    predicate Covers(x: int, y: int) {
      x0 <= x < x0 + w && y0 <= y < y0 + h
    }

    /** What `stroke_rect` paints: two rows and two columns. */
    predicate Strokes(x: int, y: int) {
      || (x0 <= x < x0 + w && (y == y0 || y == y0 + h - 1))
      || (y0 <= y < y0 + h && (x == x0 || x == x0 + w - 1))
    }

    /** The rectangle less the rectangle one pixel in. */
    predicate Border(x: int, y: int) {
      Covers(x, y) && !Rect(x0 + 1, y0 + 1, w - 2, h - 2).Covers(x, y)
    }
  }

  /** A stroke is the border of its rectangle for every rectangle that has a pixel, and for
      one with neither width nor height; one that has only one of them paints outside. */
  lemma StrokeIsBorderIff(r: Rect)
    ensures (forall x, y :: r.Strokes(x, y) <==> r.Border(x, y)) <==> (r.w >= 1 <==> r.h >= 1)
  {
    if r.w >= 1 && r.h < 1 {
      assert r.Strokes(r.x0, r.y0);
    }
    if r.w < 1 && r.h >= 1 {
      assert r.Strokes(r.x0, r.y0);
    }
  }

  // ---------------------------------------------------------------- drawing

  method SetPx(px: array2<Pixel>, x: int, y: int, p: Pixel)
    modifies px
    ensures forall i, j | 0 <= i < px.Length0 && 0 <= j < px.Length1 ::
              px[i, j] == if i == y && j == x then p else old(px[i, j])
  {
    if 0 <= y < px.Length0 && 0 <= x < px.Length1 {
      px[y, x] := p;
    }
  }

  method FillRect(px: array2<Pixel>, r: Rect, color: Color, a: byte)
    modifies px
    ensures forall i, j | 0 <= i < px.Length0 && 0 <= j < px.Length1 ::
              px[i, j] == if r.x0 <= j < r.x0 + r.w && r.y0 <= i < r.y0 + r.h
                          then Pixel(color.r, color.g, color.b, a) else old(px[i, j])
  {
    var p := Opaque(color, a);
    var y := r.y0;
    while y < r.y0 + r.h
      invariant r.h >= 0 ==> r.y0 <= y <= r.y0 + r.h
      invariant r.h < 0 ==> y == r.y0
      invariant forall i, j | 0 <= i < px.Length0 && 0 <= j < px.Length1 ::
                  px[i, j] == if r.Covers(j, i) && i < y then p else old(px[i, j])
    {
      var x := r.x0;
      while x < r.x0 + r.w
        invariant r.w >= 0 ==> r.x0 <= x <= r.x0 + r.w
        invariant r.w < 0 ==> x == r.x0
        invariant forall i, j | 0 <= i < px.Length0 && 0 <= j < px.Length1 ::
                    px[i, j] == if r.Covers(j, i) && (i < y || (i == y && j < x)) then p else old(px[i, j])
      {
        SetPx(px, x, y, p);
        x := x + 1;
      }
      y := y + 1;
    }
  }

  method StrokeRect(px: array2<Pixel>, r: Rect, color: Color)
    modifies px
    ensures forall i, j | 0 <= i < px.Length0 && 0 <= j < px.Length1 ::
              px[i, j] == if || (r.x0 <= j < r.x0 + r.w && (i == r.y0 || i == r.y0 + r.h - 1))
                             || (r.y0 <= i < r.y0 + r.h && (j == r.x0 || j == r.x0 + r.w - 1))
                          then Pixel(color.r, color.g, color.b, 255) else old(px[i, j])
  {
    var p := Opaque(color, 255);
    var x := r.x0;
    while x < r.x0 + r.w
      invariant r.w >= 0 ==> r.x0 <= x <= r.x0 + r.w
      invariant r.w < 0 ==> x == r.x0
      invariant forall i, j | 0 <= i < px.Length0 && 0 <= j < px.Length1 ::
                  px[i, j] == if r.x0 <= j < x && (i == r.y0 || i == r.y0 + r.h - 1) then p else old(px[i, j])
    {
      SetPx(px, x, r.y0, p);
      SetPx(px, x, r.y0 + r.h - 1, p);
      x := x + 1;
    }
    var y := r.y0;
    while y < r.y0 + r.h
      invariant r.h >= 0 ==> r.y0 <= y <= r.y0 + r.h
      invariant r.h < 0 ==> y == r.y0
      invariant forall i, j | 0 <= i < px.Length0 && 0 <= j < px.Length1 ::
                  px[i, j] ==
                    if (r.x0 <= j < r.x0 + r.w && (i == r.y0 || i == r.y0 + r.h - 1))
                       || (r.y0 <= i < y && (j == r.x0 || j == r.x0 + r.w - 1))
                    then p else old(px[i, j])
    {
      SetPx(px, r.x0, y, p);
      SetPx(px, r.x0 + r.w - 1, y, p);
      y := y + 1;
    }
  }

  // ---------------------------------------------------------------- sequences of calls

  datatype Call = Fill(rect: Rect, color: Color, a: byte) | Stroke(rect: Rect, color: Color) {
    predicate Paints(x: int, y: int) {
      match this
      case Fill(rect, _, _) => rect.Covers(x, y)
      case Stroke(rect, _) => rect.Strokes(x, y)
    }

    function Paint(): Pixel {
      match this
      case Fill(_, color, a) => Opaque(color, a)
      case Stroke(_, color) => Opaque(color, 255)
    }
  }

  /** The colour of a pixel: the last call that reaches it, else the background. */
  function PixelAt(calls: seq<Call>, x: int, y: int): Pixel {
    if calls == [] then MAGENTA
    else
      var last := calls[|calls| - 1];
      if last.Paints(x, y) then last.Paint() else PixelAt(calls[..|calls| - 1], x, y)
  }

  /** `blank(w, h)` and any calls on it: every pixel of the canvas, and none outside, has
      the colour of the last call whose shape it is in. */
  method Draw(w: nat, h: nat, calls: seq<Call>) returns (px: array2<Pixel>)
    ensures fresh(px) && px.Length0 == h && px.Length1 == w
    ensures forall i, j | 0 <= i < h && 0 <= j < w :: px[i, j] == PixelAt(calls, j, i)
  {
    px := new Pixel[h, w]((i, j) => MAGENTA);
    var k := 0;
    while k < |calls|
      invariant 0 <= k <= |calls|
      invariant forall i, j | 0 <= i < h && 0 <= j < w :: px[i, j] == PixelAt(calls[..k], j, i)
    {
      assert calls[..k + 1][..k] == calls[..k];
      match calls[k] {
        case Fill(rect, color, a) => FillRect(px, rect, color, a);
        case Stroke(rect, color) => StrokeRect(px, rect, color);
      }
      k := k + 1;
    }
    assert calls[..k] == calls;
  }

  /** One more call, or none at all, channel by channel. */
  lemma PixelAtIs(calls: seq<Call>, r: Rect, color: Color, a: byte, x: int, y: int)
    ensures PixelAt([], x, y) == Pixel(255, 0, 255, 0)
    ensures PixelAt(calls + [Fill(r, color, a)], x, y)
         == if r.x0 <= x < r.x0 + r.w && r.y0 <= y < r.y0 + r.h
            then Pixel(color.r, color.g, color.b, a) else PixelAt(calls, x, y)
    ensures PixelAt(calls + [Stroke(r, color)], x, y)
         == if || (r.x0 <= x < r.x0 + r.w && (y == r.y0 || y == r.y0 + r.h - 1))
               || (r.y0 <= y < r.y0 + r.h && (x == r.x0 || x == r.x0 + r.w - 1))
            then Pixel(color.r, color.g, color.b, 255) else PixelAt(calls, x, y)
  {
    assert (calls + [Fill(r, color, a)])[..|calls|] == calls;
    assert (calls + [Stroke(r, color)])[..|calls|] == calls;
  }

  /** A pixel no call's rectangle contains keeps the background, whatever was drawn, as long
      as each stroked rectangle has width and height. */
  lemma {:induction false} Untouched(calls: seq<Call>, x: int, y: int)
    requires forall k | 0 <= k < |calls| :: !calls[k].rect.Covers(x, y)
    requires forall k | 0 <= k < |calls| :: calls[k].Stroke? ==> calls[k].rect.w >= 1 && calls[k].rect.h >= 1
    ensures PixelAt(calls, x, y) == Pixel(255, 0, 255, 0)
  {
    if calls == [] {
    } else {
      Untouched(calls[..|calls| - 1], x, y);
      assert !calls[|calls| - 1].Paints(x, y);
    }
  }
}
