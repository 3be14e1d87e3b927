/** Drawing a character on a rotated screen: the glyph is kept rotated, clipped in its rotated
    form and copied to the rotated rectangle. That shows, at each pixel of the cell, the pixel
    of the upright bitmap. */
module Glyphs {

  import opened Basics

  // ---------------------------------------------------------------- rotation

  datatype Rotation = Rotate0 | Rotate90 | Rotate180 | Rotate270

  datatype Rect = Rect(x: int, y: int, w: int, h: int)

  predicate Contains(q: Rect, x: int, y: int) { q.x <= x < q.x + q.w && q.y <= y < q.y + q.h }

  /** rotatePoint in a field of width by height. */
  function RotX(r: Rotation, width: int, height: int, x: int, y: int): int {
    match r
    case Rotate0 => x
    case Rotate90 => height - y - 1
    case Rotate180 => width - x - 1
    case Rotate270 => y
  }

  function RotY(r: Rotation, width: int, height: int, x: int, y: int): int {
    match r
    case Rotate0 => y
    case Rotate90 => x
    case Rotate180 => height - y - 1
    case Rotate270 => width - x - 1
  }

  /** rotateRect on a screen of width by height. */
  function RotateRect(r: Rotation, width: int, height: int, q: Rect): Rect {
    match r
    case Rotate0 => q
    case Rotate90 => Rect(height - q.y - q.h, q.x, q.h, q.w)
    case Rotate180 => Rect(width - q.x - q.w, height - q.y - q.h, q.w, q.h)
    case Rotate270 => Rect(q.y, width - q.x - q.w, q.h, q.w)
  }

  /** Size of a field once rotated. */
  function Wide(r: Rotation, width: int, height: int): int {
    if r.Rotate0? || r.Rotate180? then width else height
  }

  function High(r: Rotation, width: int, height: int): int {
    if r.Rotate0? || r.Rotate180? then height else width
  }

  /** Where a point of the rotated field came from. */
  function UpX(r: Rotation, width: int, height: int, u: int, v: int): int {
    match r
    case Rotate0 => u
    case Rotate90 => v
    case Rotate180 => width - u - 1
    case Rotate270 => width - v - 1
  }

  function UpY(r: Rotation, width: int, height: int, u: int, v: int): int {
    match r
    case Rotate0 => v
    case Rotate90 => height - u - 1
    case Rotate180 => height - v - 1
    case Rotate270 => u
  }

  /** Rotating is one to one between a field and the rotated field. */
  lemma RotatesBack(r: Rotation, width: int, height: int, x: int, y: int, u: int, v: int)
    ensures RotX(r, width, height, x, y) == u && RotY(r, width, height, x, y) == v
       <==> UpX(r, width, height, u, v) == x && UpY(r, width, height, u, v) == y
    ensures UpX(r, width, height, u, v) == x && UpY(r, width, height, u, v) == y ==>
      (0 <= x < width && 0 <= y < height <==> 0 <= u < Wide(r, width, height) && 0 <= v < High(r, width, height))
  {
  }

  /** A turn by 90 degrees takes the top left corner to the top right one and the right edge down; the other
      turns are two and three of them. */
  lemma QuarterTurns(width: int, height: int, x: int, y: int)
    ensures RotX(Rotate90, width, height, 0, 0) == height - 1 && RotY(Rotate90, width, height, 0, 0) == 0
    ensures RotX(Rotate90, width, height, x + 1, y) == RotX(Rotate90, width, height, x, y)
         && RotY(Rotate90, width, height, x + 1, y) == RotY(Rotate90, width, height, x, y) + 1
    ensures RotX(Rotate90, width, height, x, y + 1) == RotX(Rotate90, width, height, x, y) - 1
         && RotY(Rotate90, width, height, x, y + 1) == RotY(Rotate90, width, height, x, y)
    ensures var u, v := RotX(Rotate90, width, height, x, y), RotY(Rotate90, width, height, x, y);
      var u', v' := RotX(Rotate90, height, width, u, v), RotY(Rotate90, height, width, u, v);
      && RotX(Rotate180, width, height, x, y) == u' && RotY(Rotate180, width, height, x, y) == v'
      && RotX(Rotate270, width, height, x, y) == RotX(Rotate90, width, height, u', v')
      && RotY(Rotate270, width, height, x, y) == RotY(Rotate90, width, height, u', v')
  {
  }

  /** The rotated rectangle holds exactly the rotated points. */
  lemma RectIsImage(r: Rotation, width: int, height: int, q: Rect, u: int, v: int)
    ensures Contains(RotateRect(r, width, height, q), u, v)
       <==> Contains(q, UpX(r, width, height, u, v), UpY(r, width, height, u, v))
  {
  }

  // ------------------------------------------------------------------- glyphs

  /** Coverage of a character's upright bitmap, row by row, and its place in the cell. */
  datatype Bitmap = Bitmap(width: nat, rows: seq<seq<byte>>, left: int, top: int) {
    predicate Valid() {
      forall y :: 0 <= y < |rows| ==> |rows[y]| == width
    }
  }

  datatype Pixel = Filled(color: byte) | Drawn(front: byte, ground: byte, coverage: byte)

  /** What a pixel of the cell is to show. */
  function CellPixel(b: Bitmap, front: byte, ground: byte, cx: int, cy: int): Pixel
    requires b.Valid()
  {
    if 0 <= cy - b.top < |b.rows| && 0 <= cx - b.left < b.width
    then Drawn(front, ground, b.rows[cy - b.top][cx - b.left])
    else Filled(ground)
  }

  datatype Glyph = Glyph(left: int, top: int, width: nat, height: nat, pixmap: array2<byte>)

  /** The rotated picture of h bitmap rows from `skipped`, as far as reading order (x, y). */
  ghost predicate Rotated(pixmap: array2<byte>, r: Rotation, b: Bitmap, skipped: nat, h: nat, y: nat, x: nat)
    requires b.Valid() && skipped + h <= |b.rows|
    reads pixmap
  {
    && pixmap.Length0 == High(r, b.width, h) && pixmap.Length1 == Wide(r, b.width, h)
    && forall v, u :: 0 <= v < pixmap.Length0 && 0 <= u < pixmap.Length1 ==>
         var i, j := UpX(r, b.width, h, u, v), UpY(r, b.width, h, u, v);
         && 0 <= i < b.width && 0 <= j < h
         && (j < y || (j == y && i < x) ==> pixmap[v, u] == b.rows[skipped + j][i])
  }

  /** A glyph made of a bitmap: the rows above the cell are left out. */
  ghost predicate Pictures(g: Glyph, r: Rotation, b: Bitmap)
    requires b.Valid()
    reads g.pixmap
  {
    var skipped := g.top - b.top;
    && g.left == b.left && g.width == b.width && g.top == (if b.top < 0 then 0 else b.top)
    && g.height == |b.rows| - skipped > 0
    && Rotated(g.pixmap, r, b, skipped, g.height, g.height, 0)
  }

  /** The pixmap part of getGlyph; no glyph where no row reaches into the cell. */
  method MakeGlyph(r: Rotation, b: Bitmap) returns (glyph: Option<Glyph>)
    requires b.Valid()
    ensures glyph.None? <==> |b.rows| == 0 || |b.rows| + b.top <= 0
    ensures glyph.Some? ==> fresh(glyph.value.pixmap) && Pictures(glyph.value, r, b)
  {
    var top, sourceY, h := b.top, 0, |b.rows|;
    if top < 0 {
      sourceY := -top;
      if sourceY >= |b.rows| { return None; }
      h := |b.rows| - sourceY;
      top := 0;
    }
    if h == 0 { return None; }
    var pixmap := BuildPixmap(r, b, sourceY, h);
    glyph := Some(Glyph(b.left, top, b.width, h, pixmap));
  }

  method BuildPixmap(r: Rotation, b: Bitmap, sourceY: nat, h: nat) returns (pixmap: array2<byte>)
    requires b.Valid() && sourceY + h <= |b.rows|
    ensures fresh(pixmap) && Rotated(pixmap, r, b, sourceY, h, h, 0)
  {
    pixmap := new byte[High(r, b.width, h), Wide(r, b.width, h)];
    for y := 0 to h
      invariant Rotated(pixmap, r, b, sourceY, h, y, 0)
    {
      for x := 0 to b.width
        invariant Rotated(pixmap, r, b, sourceY, h, y, x)
      {
        PutPixel(pixmap, r, b, sourceY, h, y, x);
      }
    }
  }

  method PutPixel(pixmap: array2<byte>, r: Rotation, b: Bitmap, sourceY: nat, h: nat, y: nat, x: nat)
    requires b.Valid() && sourceY + h <= |b.rows| && y < h && x < b.width
    requires Rotated(pixmap, r, b, sourceY, h, y, x)
    modifies pixmap
    ensures Rotated(pixmap, r, b, sourceY, h, y, x + 1)
  {
    var nx, ny := RotX(r, b.width, h, x, y), RotY(r, b.width, h, x, y);
    RotatesBack(r, b.width, h, x, y, nx, ny);
    OnlyThere(r, b.width, h, x, y, nx, ny);
    pixmap[ny, nx] := b.rows[sourceY + y][x];
  }

  lemma OnlyThere(r: Rotation, width: int, height: int, x: int, y: int, nx: int, ny: int)
    requires nx == RotX(r, width, height, x, y) && ny == RotY(r, width, height, x, y)
    ensures forall v, u :: UpX(r, width, height, u, v) == x && UpY(r, width, height, u, v) == y <==> u == nx && v == ny
  {
  }

  // ----------------------------------------------------------------- clipping

  /** Where a clipped glyph goes, and where it starts in the upright glyph. */
  datatype Clip = Clip(dest: Rect, sourceX: int, sourceY: int)

  /** The clipping of drawGlyph to a cell of w by h at (x, y), itself clipped to the screen. */
  function ClipGlyph(left: int, top: int, gw: nat, gh: nat, x: int, y: int, w: int, h: int, screenW: int, screenH: int)
    : Clip
  {
    var sourceX, destLeft := if left < 0 then -left else 0, if left < 0 then 0 else left;
    var sourceY, destTop := if top < 0 then -top else 0, if top < 0 then 0 else top;
    var width := Min(gw - sourceX, w - destLeft);
    var height := Min(gh - sourceY, h - destTop);
    Clip(Rect(x + destLeft, y + destTop, Min(width, screenW - (x + destLeft)), Min(height, screenH - (y + destTop))),
         sourceX, sourceY)
  }

  /** Of the cell's pixels on the screen the clipped rectangle holds those the glyph has. */
  lemma ClipCovers(left: int, top: int, gw: nat, gh: nat, x: int, y: int, w: int, h: int, screenW: int, screenH: int,
                   px: int, py: int)
    requires 0 <= px < screenW && 0 <= py < screenH
    ensures var clip := ClipGlyph(left, top, gw, gh, x, y, w, h, screenW, screenH);
      && (Contains(clip.dest, px, py)
          <==> Contains(Rect(x, y, w, h), px, py) && 0 <= px - x - left < gw && 0 <= py - y - top < gh)
      && px - clip.dest.x + clip.sourceX == px - x - left
      && py - clip.dest.y + clip.sourceY == py - y - top
  {
  }

  /** Where the clipped part starts in the rotated glyph. */
  function SourceU(r: Rotation, gw: int, gh: int, clip: Clip): int {
    match r
    case Rotate0 => clip.sourceX
    case Rotate90 => gh - clip.sourceY - clip.dest.h
    case Rotate180 => gw - clip.sourceX - clip.dest.w
    case Rotate270 => clip.sourceY
  }

  function SourceV(r: Rotation, gw: int, gh: int, clip: Clip): int {
    match r
    case Rotate0 => clip.sourceY
    case Rotate90 => clip.sourceX
    case Rotate180 => gh - clip.sourceY - clip.dest.h
    case Rotate270 => gw - clip.sourceX - clip.dest.w
  }

  /** Rotating and then clipping picks the same pixel as clipping and then rotating. */
  lemma RotateClipCommute(r: Rotation, gw: int, gh: int, screenW: int, screenH: int, clip: Clip, u: int, v: int)
    ensures var q := RotateRect(r, screenW, screenH, clip.dest);
      var gu, gv := u - q.x + SourceU(r, gw, gh, clip), v - q.y + SourceV(r, gw, gh, clip);
      && UpX(r, gw, gh, gu, gv) == UpX(r, screenW, screenH, u, v) - clip.dest.x + clip.sourceX
      && UpY(r, gw, gh, gu, gv) == UpY(r, screenW, screenH, u, v) - clip.dest.y + clip.sourceY
  {
  }

  // ----------------------------------------------------------------- the screen

  class Screen {
    const rotation: Rotation
    const width: nat
    const height: nat
    const display: array2<Pixel>

    ghost predicate Valid()
    {
      display.Length0 == High(rotation, width, height) && display.Length1 == Wide(rotation, width, height)
    }

    constructor (rotation: Rotation, width: nat, height: nat)
      ensures Valid() && fresh(display)
      ensures this.rotation == rotation && this.width == width && this.height == height
    {
      this.rotation, this.width, this.height := rotation, width, height;
      display := new Pixel[High(rotation, width, height), Wide(rotation, width, height)]((_, _) => Filled(0));
    }

    /** The logical pixel a display pixel shows. */
    function LogicalX(u: int, v: int): int { UpX(rotation, width, height, u, v) }
    function LogicalY(u: int, v: int): int { UpY(rotation, width, height, u, v) }

    /** fillRect: the pixels of a rectangle, as far as it is on the screen. */
    method FillRect(x: nat, y: nat, w: nat, h: nat, color: byte)
      requires Valid()
      modifies display
      ensures forall v, u :: 0 <= v < display.Length0 && 0 <= u < display.Length1 ==>
                display[v, u] == if Contains(Rect(x, y, w, h), LogicalX(u, v), LogicalY(u, v)) then Filled(color)
                                 else old(display[v, u])
    {
      if x >= width || y >= height || w == 0 || h == 0 { return; }
      var rect := Rect(x, y, Min(w, width - x), Min(h, height - y));
      var q := RotateRect(rotation, width, height, rect);
      FillRows(q, color);
    }

    method FillRows(q: Rect, color: byte)
      requires 0 <= q.x && 0 <= q.y && 0 <= q.w && 0 <= q.h
      requires q.x + q.w <= display.Length1 && q.y + q.h <= display.Length0
      modifies display
      ensures forall v, u :: 0 <= v < display.Length0 && 0 <= u < display.Length1 ==>
                display[v, u] == if Contains(q, u, v) then Filled(color) else old(display[v, u])
    {
      for row := 0 to q.h
        invariant forall v, u :: 0 <= v < display.Length0 && 0 <= u < display.Length1 ==>
          display[v, u] == if Contains(q, u, v) && v < q.y + row then Filled(color) else old(display[v, u])
      {
        for column := 0 to q.w
          invariant forall v, u :: 0 <= v < display.Length0 && 0 <= u < display.Length1 ==>
            display[v, u] == if Contains(q, u, v) && (v < q.y + row || (v == q.y + row && u < q.x + column))
                             then Filled(color) else old(display[v, u])
        {
          display[q.y + row, q.x + column] := Filled(color);
        }
      }
    }

    /** Rows of a pixmap from (su, sv) on, drawn into a rectangle of the display. */
    method DrawRows(q: Rect, pixmap: array2<byte>, su: int, sv: int, front: byte, ground: byte)
      requires 0 <= q.x && 0 <= q.y && 0 <= q.w && 0 <= q.h
      requires q.x + q.w <= display.Length1 && q.y + q.h <= display.Length0
      requires 0 <= su && 0 <= sv && su + q.w <= pixmap.Length1 && sv + q.h <= pixmap.Length0
      modifies display
      ensures forall v, u :: 0 <= v < display.Length0 && 0 <= u < display.Length1 ==>
                display[v, u] == if Contains(q, u, v) then Drawn(front, ground, pixmap[v - q.y + sv, u - q.x + su])
                                 else old(display[v, u])
    {
      for row := 0 to q.h
        invariant forall v, u :: 0 <= v < display.Length0 && 0 <= u < display.Length1 ==>
          display[v, u] == if Contains(q, u, v) && v < q.y + row
                           then Drawn(front, ground, pixmap[v - q.y + sv, u - q.x + su]) else old(display[v, u])
      {
        for column := 0 to q.w
          invariant forall v, u :: 0 <= v < display.Length0 && 0 <= u < display.Length1 ==>
            display[v, u] == if Contains(q, u, v) && (v < q.y + row || (v == q.y + row && u < q.x + column))
                             then Drawn(front, ground, pixmap[v - q.y + sv, u - q.x + su]) else old(display[v, u])
        {
          display[q.y + row, q.x + column] := Drawn(front, ground, pixmap[sv + row, su + column]);
        }
      }
    }

    /** drawGlyph: each pixel of the cell that is on the screen shows its pixel of the upright
        bitmap, and no other pixel changes. */
    method DrawGlyph(b: Bitmap, x: nat, y: nat, cellWidth: nat, cellHeight: nat, front: byte, ground: byte)
      requires Valid() && b.Valid()
      modifies display
      ensures forall v, u :: 0 <= v < display.Length0 && 0 <= u < display.Length1 ==>
                var px, py := LogicalX(u, v), LogicalY(u, v);
                display[v, u] == if Contains(Rect(x, y, cellWidth, cellHeight), px, py)
                                 then CellPixel(b, front, ground, px - x, py - y) else old(display[v, u])
    {
      if x >= width || y >= height { return; }
      var w, h := Min(cellWidth, width - x), Min(cellHeight, height - y);
      var glyph := MakeGlyph(rotation, b);
      FillRect(x, y, w, h, ground);
      if glyph.Some? {
        DrawClipped(glyph.value, b, x, y, w, h, front, ground);
      }
    }

    /** The part of the cell that the bitmap covers. */
    method DrawClipped(g: Glyph, b: Bitmap, x: nat, y: nat, w: int, h: int, front: byte, ground: byte)
      requires Valid() && b.Valid() && Pictures(g, rotation, b)
      requires x < width && y < height && 0 <= w <= width - x && 0 <= h <= height - y
      modifies display
      ensures forall v, u :: 0 <= v < display.Length0 && 0 <= u < display.Length1 ==>
                var px, py := LogicalX(u, v), LogicalY(u, v);
                display[v, u] == if Contains(Rect(x, y, w, h), px, py) && Covered(b, px - x, py - y)
                                 then CellPixel(b, front, ground, px - x, py - y) else old(display[v, u])
    {
      var clip := ClipGlyph(g.left, g.top, g.width, g.height, x, y, w, h, width, height);
      forall v, u | 0 <= v < display.Length0 && 0 <= u < display.Length1
        ensures Contains(clip.dest, LogicalX(u, v), LogicalY(u, v))
           <==> Contains(Rect(x, y, w, h), LogicalX(u, v), LogicalY(u, v))
                && Covered(b, LogicalX(u, v) - x, LogicalY(u, v) - y)
      {
        ClipCovers(g.left, g.top, g.width, g.height, x, y, w, h, width, height, LogicalX(u, v), LogicalY(u, v));
      }
      if clip.dest.w > 0 && clip.dest.h > 0 {
        DrawRotated(g, b, clip, front, ground);
        forall v, u | 0 <= v < display.Length0 && 0 <= u < display.Length1
          ensures LogicalX(u, v) - clip.dest.x + clip.sourceX == LogicalX(u, v) - x - b.left
          ensures LogicalY(u, v) - clip.dest.y + clip.sourceY == LogicalY(u, v) - y - g.top
        {
          ClipCovers(g.left, g.top, g.width, g.height, x, y, w, h, width, height, LogicalX(u, v), LogicalY(u, v));
        }
      }
    }

    /** The clipped part of a rotated glyph at its rotated place. */
    method DrawRotated(g: Glyph, b: Bitmap, clip: Clip, front: byte, ground: byte)
      requires Valid() && b.Valid() && Pictures(g, rotation, b)
      requires clip.dest.w > 0 && clip.dest.h > 0 && clip.sourceX >= 0 && clip.sourceY >= 0
      requires 0 <= clip.dest.x && clip.dest.x + clip.dest.w <= width
      requires 0 <= clip.dest.y && clip.dest.y + clip.dest.h <= height
      requires clip.sourceX + clip.dest.w <= g.width && clip.sourceY + clip.dest.h <= g.height
      modifies display
      ensures forall v, u :: 0 <= v < display.Length0 && 0 <= u < display.Length1 ==>
                var px, py := LogicalX(u, v), LogicalY(u, v);
                display[v, u] == if Contains(clip.dest, px, py)
                                 then Drawn(front, ground, b.rows[py - clip.dest.y + clip.sourceY + g.top - b.top]
                                                                 [px - clip.dest.x + clip.sourceX])
                                 else old(display[v, u])
    {
      var q := RotateRect(rotation, width, height, clip.dest);
      var su, sv := SourceU(rotation, g.width, g.height, clip), SourceV(rotation, g.width, g.height, clip);
      DrawRows(q, g.pixmap, su, sv, front, ground);
      forall v, u | 0 <= v < display.Length0 && 0 <= u < display.Length1
        ensures Contains(q, u, v) <==> Contains(clip.dest, LogicalX(u, v), LogicalY(u, v))
        ensures UpX(rotation, g.width, g.height, u - q.x + su, v - q.y + sv)
             == LogicalX(u, v) - clip.dest.x + clip.sourceX
        ensures UpY(rotation, g.width, g.height, u - q.x + su, v - q.y + sv)
             == LogicalY(u, v) - clip.dest.y + clip.sourceY
      {
        RectIsImage(rotation, width, height, clip.dest, u, v);
        RotateClipCommute(rotation, g.width, g.height, width, height, clip, u, v);
      }
    }
  }

  /** The bitmap has a pixel there. */
  predicate Covered(b: Bitmap, cx: int, cy: int) {
    0 <= cy - b.top < |b.rows| && 0 <= cx - b.left < b.width
  }
}
