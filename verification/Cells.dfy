/** Cells, rows and pictures: the values the terminal engine computes with. */
module Cells {

  import opened Basics

  datatype CharAttr = CharAttr(fcolor: nat, bcolor: nat, intensity: nat, italic: bool,
                               underline: bool, blink: bool, reverse: bool)

  datatype Cell = Cell(code: nat, attr: CharAttr)

  type Row = seq<Cell>

  ghost predicate IsGrid(rows: seq<Row>, height: nat, width: nat) {
    |rows| == height && forall y :: 0 <= y < height ==> |rows[y]| == width
  }

  // ---------------------------------------------------------------- sequences

  function Repeat<T>(n: nat, value: T): (r: seq<T>)
    ensures |r| == n
    ensures forall i :: 0 <= i < n ==> r[i] == value
  {
    seq(n, _ => value)
  }

  /** Drop the first `n` elements of s[from..to] and pad its end with `fill`. */
  function SlideBack<T>(s: seq<T>, from: nat, to: nat, n: nat, fill: T): (r: seq<T>)
    requires from <= to <= |s| && n <= to - from
    ensures |r| == |s|
  {
    seq(|s|, i requires 0 <= i < |s| =>
      if from <= i < to - n then s[i + n] else if to - n <= i < to then fill else s[i])
  }

  /** Make room for `n` copies of `fill` at the front of s[from..to]; its last `n` elements fall off. */
  function SlideForward<T>(s: seq<T>, from: nat, to: nat, n: nat, fill: T): (r: seq<T>)
    requires from <= to <= |s| && n <= to - from
    ensures |r| == |s|
  {
    seq(|s|, i requires 0 <= i < |s| =>
      if from + n <= i < to then s[i - n] else if from <= i < from + n then fill else s[i])
  }

  /** Pushing n elements one at a time, keeping at most `cap`. */
  ghost function Pushed<T>(cap: nat, h: seq<T>, s: seq<T>, n: nat): seq<T>
    requires n <= |s|
  {
    if n == 0 then h else Last(cap, Pushed(cap, h, s, n - 1) + [s[n - 1]])
  }

  lemma {:induction false} PushedIsLast<T>(cap: nat, h: seq<T>, s: seq<T>, n: nat)
    requires n <= |s| && |h| <= cap
    ensures Pushed(cap, h, s, n) == Last(cap, h + s[..n])
  {
    hide *;
    if n == 0 {
      NothingPushed(cap, h, s);
    } else {
      PushedNext(cap, h, s, n);
      PushedIsLast(cap, h, s, n - 1);
      LastOfLast(cap, h + s[..n - 1], [s[n - 1]]);
      TakeNext(h, s, n - 1);
    }
  }

  lemma NothingPushed<T>(cap: nat, h: seq<T>, s: seq<T>)
    requires |h| <= cap
    ensures Pushed(cap, h, s, 0) == h == Last(cap, h + s[..0])
  {
    EmptyJoins(h);
  }

  lemma PushedNext<T>(cap: nat, h: seq<T>, s: seq<T>, n: nat)
    requires 0 < n <= |s|
    ensures Pushed(cap, h, s, n) == Last(cap, Pushed(cap, h, s, n - 1) + [s[n - 1]])
  {
  }

  lemma TakeNext<T>(h: seq<T>, s: seq<T>, i: nat)
    requires i < |s|
    ensures h + s[..i] + [s[i]] == h + s[..i + 1]
  {
  }

  lemma LastOfLast<T>(n: nat, a: seq<T>, b: seq<T>)
    ensures Last(n, Last(n, a) + b) == Last(n, a + b)
  {
  }

  // ------------------------------------------------------------- the picture

  /** How a cell looks: inverse-screen mode flips every cell's reverse bit. */
  function Shown(cell: Cell, inverse: bool): Cell {
    Cell(cell.code, cell.attr.(reverse := cell.attr.reverse != inverse))
  }

  function ShownRow(row: Row, inverse: bool): (r: Row)
    ensures |r| == |row|
  {
    seq(|row|, x requires 0 <= x < |row| => Shown(row[x], inverse))
  }

  function Picture(rows: seq<Row>, inverse: bool): (r: seq<Row>)
    ensures |r| == |rows|
  {
    seq(|rows|, y requires 0 <= y < |rows| => ShownRow(rows[y], inverse))
  }

  /** The `height` rows seen when the view starts at row `start` of history followed by screen. */
  function Window(history: seq<Row>, rows: seq<Row>, start: nat): (r: seq<Row>)
    requires start <= |history|
    ensures |r| == |rows|
  {
    seq(|rows|, y requires 0 <= y < |rows| =>
      if start + y < |history| then history[start + y] else rows[start + y - |history|])
  }

  /** That is a slice of history followed by screen. */
  lemma WindowIsSlice(history: seq<Row>, rows: seq<Row>, start: nat)
    requires start <= |history|
    ensures Window(history, rows, start) == (history + rows)[start..start + |rows|]
  {
  }

  /** `picture` painted over columns x..x+w of a row of the glass. */
  function RepaintRow(glass: Row, picture: Row, x: nat, w: nat): (r: Row)
    requires |glass| == |picture|
    ensures |r| == |glass|
  {
    seq(|glass|, k requires 0 <= k < |glass| => if x <= k < x + w then picture[k] else glass[k])
  }

  /** `picture` painted over a rectangle of the glass, clipped to it. */
  function Repaint(glass: seq<Row>, picture: seq<Row>, width: nat, x: nat, y: nat, w: nat, h: nat): (r: seq<Row>)
    requires IsGrid(glass, |picture|, width) && IsGrid(picture, |picture|, width)
    ensures IsGrid(r, |picture|, width)
  {
    seq(|glass|, k requires 0 <= k < |glass| =>
      if y <= k < y + h then RepaintRow(glass[k], picture[k], x, w) else glass[k])
  }

  /** Copy rows from..from+n of the glass to to..to+n, all at once. */
  function MoveRows(panel: seq<Row>, from: nat, to: nat, n: nat): (r: seq<Row>)
    requires from + n <= |panel| && to + n <= |panel|
    ensures |r| == |panel|
  {
    seq(|panel|, y requires 0 <= y < |panel| => if to <= y < to + n then panel[from + (y - to)] else panel[y])
  }

  /** Full-width repainting of the rows that differ gives the picture. */
  lemma RepaintCompletes(glass: seq<Row>, picture: seq<Row>, width: nat, y0: nat, n: nat)
    requires IsGrid(glass, |picture|, width) && IsGrid(picture, |picture|, width)
    requires forall y :: 0 <= y < |picture| && !(y0 <= y < y0 + n) ==> glass[y] == picture[y]
    ensures Repaint(glass, picture, width, 0, y0, width, n) == picture
  {
    var r := Repaint(glass, picture, width, 0, y0, width, n);
    forall y | 0 <= y < |picture| ensures r[y] == picture[y] {
      assert RepaintRow(glass[y], picture[y], 0, width) == picture[y];
    }
  }

  lemma RepaintNothing(glass: seq<Row>, picture: seq<Row>, width: nat, x: nat, y: nat, w: nat, h: nat)
    requires IsGrid(glass, |picture|, width) && IsGrid(picture, |picture|, width)
    requires w == 0 || h == 0 || x >= width || y >= |glass|
    ensures Repaint(glass, picture, width, x, y, w, h) == glass
  {
    var after := Repaint(glass, picture, width, x, y, w, h);
    forall k | 0 <= k < |glass| ensures after[k] == glass[k] {
    }
  }

  lemma RepaintNextRow(glass: seq<Row>, picture: seq<Row>, width: nat, x: nat, y: nat, w: nat, h: nat)
    requires IsGrid(glass, |picture|, width) && IsGrid(picture, |picture|, width) && y + h < |glass|
    ensures Repaint(glass, picture, width, x, y, w, h)[y + h := RepaintRow(glass[y + h], picture[y + h], x, w)]
         == Repaint(glass, picture, width, x, y, w, h + 1)
    ensures Repaint(glass, picture, width, x, y, w, h)[y + h] == glass[y + h]
  {
  }

  /** Painting beyond the edges paints nothing. */
  lemma RepaintClipped(glass: seq<Row>, picture: seq<Row>, width: nat, x: nat, y: nat, w: nat, h: nat, w': nat, h': nat)
    requires IsGrid(glass, |picture|, width) && IsGrid(picture, |picture|, width)
    requires w == w' || (w <= w' && x + w == width)
    requires h == h' || (h <= h' && y + h == |glass|)
    ensures Repaint(glass, picture, width, x, y, w, h) == Repaint(glass, picture, width, x, y, w', h')
  {
    var a, b := Repaint(glass, picture, width, x, y, w, h), Repaint(glass, picture, width, x, y, w', h');
    forall k | 0 <= k < |glass| ensures a[k] == b[k] {
      assert RepaintRow(glass[k], picture[k], x, w) == RepaintRow(glass[k], picture[k], x, w');
    }
  }

  lemma WindowAtEnd(history: seq<Row>, rows: seq<Row>)
    ensures Window(history, rows, |history|) == rows
  {
  }

  // ----------------------------------------------------------------- filling

  function FillRow(row: Row, x0: nat, x1: nat, c: Cell): (r: Row)
    requires x0 <= x1 < |row|
    ensures |r| == |row|
  {
    seq(|row|, x requires 0 <= x < |row| => if x0 <= x <= x1 then c else row[x])
  }

  function FillRect(rows: seq<Row>, width: nat, x0: nat, y0: nat, x1: nat, y1: nat, c: Cell): (r: seq<Row>)
    requires IsGrid(rows, |rows|, width) && x0 <= x1 < width
    ensures IsGrid(r, |rows|, width)
  {
    seq(|rows|, y requires 0 <= y < |rows| =>
      if y0 <= y <= y1 then FillRow(rows[y], x0, x1, c) else rows[y])
  }

  function Clamp(n: int, most: int): (r: int)
    requires 0 <= most
    ensures -most <= r <= most
  {
    if n > most then most else if -n > most then -most else n
  }

  lemma FillNothing(rows: seq<Row>, width: nat, x0: nat, y0: nat, x1: nat, y1: nat, c: Cell)
    requires IsGrid(rows, |rows|, width) && x0 <= x1 < width && (y0 > y1 || y0 >= |rows|)
    ensures FillRect(rows, width, x0, y0, x1, y1, c) == rows
  {
  }

  lemma FillAgain(height: nat, width: nat, x0: nat, y0: nat, x1: nat, y1: nat, c: Cell)
    requires x0 <= x1 < width
    ensures FillRect(Repeat(height, Repeat(width, c)), width, x0, y0, x1, y1, c) == Repeat(height, Repeat(width, c))
  {
    var rows := Repeat(height, Repeat(width, c));
    var filled := FillRect(rows, width, x0, y0, x1, y1, c);
    forall y | 0 <= y < height ensures filled[y] == rows[y] {
    }
  }

  function Scrolled(rows: seq<Row>, start: nat, end: nat, num: int, blank: Row): (r: seq<Row>)
    requires start <= end < |rows| && -(end + 1 - start) <= num <= end + 1 - start
    ensures |r| == |rows|
  {
    if num > 0 then SlideBack(rows, start, end + 1, num, blank)
    else SlideForward(rows, start, end + 1, -num, blank)
  }
}
