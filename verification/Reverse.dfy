/** Reversing the colours of a span of the view, as text selection does. */
module Reverse {
  import opened Basics
  import opened Cells
  import opened TermSpec
  import opened Machine
  import Lines

  function Flip(c: Cell): Cell { Cell(c.code, c.attr.(reverse := !c.attr.reverse)) }

  /** Flip the cells of a row whose positions, counted from `base`, are in S. */
  function FlipRow(row: Row, base: int, S: int -> bool): (r: Row)
    ensures |r| == |row|
  {
    seq(|row|, x requires 0 <= x < |row| => if S(base + x) then Flip(row[x]) else row[x])
  }

  /** Flip the cells at the positions of S, numbered row by row from the top of a view that
      starts at row `start` of history followed by screen. */
  function Flipped(t: Term, start: nat, S: int -> bool): (r: Term)
    requires t.Valid() && start <= |t.history|
    ensures r.Valid()
  {
    t.(history := seq(|t.history|, i requires 0 <= i < |t.history| =>
                    FlipRow(t.history[i], (i - start) * t.frame.width, S)),
       rows := seq(|t.rows|, y requires 0 <= y < |t.rows| =>
                 FlipRow(t.rows[y], (|t.history| + y - start) * t.frame.width, S)))
  }

  /** Positions a through b. */
  function Span(a: int, b: int): int -> bool { p => a <= p <= b }

  /** The positions from column sx of row sy to column ex of row ey, w columns to a row. */
  function SpanOf(w: nat, sx: int, sy: int, ex: int, ey: int): int -> bool { Span(sy * w + sx, ey * w + ex) }

  /** The positions in exactly one of two sets. */
  function Apart(S: int -> bool, R: int -> bool): int -> bool { p => S(p) != R(p) }

  lemma FlipRowTwice(row: Row, base: int, S: int -> bool, R: int -> bool)
    ensures FlipRow(FlipRow(row, base, S), base, R) == FlipRow(row, base, Apart(S, R))
  {
  }

  /** Flipping one set and then another flips the positions in exactly one of them. */
  lemma FlippedTwice(t: Term, start: nat, S: int -> bool, R: int -> bool)
    requires t.Valid() && start <= |t.history|
    ensures Flipped(Flipped(t, start, S), start, R) == Flipped(t, start, Apart(S, R))
  {
    var w := t.frame.width;
    forall i | 0 <= i < |t.history|
      ensures FlipRow(FlipRow(t.history[i], (i - start) * w, S), (i - start) * w, R)
           == FlipRow(t.history[i], (i - start) * w, Apart(S, R)) {
      FlipRowTwice(t.history[i], (i - start) * w, S, R);
    }
    forall y | 0 <= y < |t.rows|
      ensures FlipRow(FlipRow(t.rows[y], (|t.history| + y - start) * w, S), (|t.history| + y - start) * w, R)
           == FlipRow(t.rows[y], (|t.history| + y - start) * w, Apart(S, R)) {
      FlipRowTwice(t.rows[y], (|t.history| + y - start) * w, S, R);
    }
    assert Flipped(Flipped(t, start, S), start, R).rows == Flipped(t, start, Apart(S, R)).rows;
    assert Flipped(Flipped(t, start, S), start, R).history == Flipped(t, start, Apart(S, R)).history;
  }

  /** Only the positions matter. */
  lemma FlippedSame(t: Term, start: nat, S: int -> bool, R: int -> bool)
    requires t.Valid() && start <= |t.history|
    requires forall p :: S(p) == R(p)
    ensures Flipped(t, start, S) == Flipped(t, start, R)
  {
    var w, f, g := t.frame.width, Flipped(t, start, S), Flipped(t, start, R);
    forall i | 0 <= i < |t.history| ensures f.history[i] == g.history[i] {
      assert FlipRow(t.history[i], (i - start) * w, S) == FlipRow(t.history[i], (i - start) * w, R);
    }
    forall y | 0 <= y < |t.rows| ensures f.rows[y] == g.rows[y] {
      assert FlipRow(t.rows[y], (|t.history| + y - start) * w, S)
          == FlipRow(t.rows[y], (|t.history| + y - start) * w, R);
    }
    assert f.rows == g.rows && f.history == g.history;
  }

  lemma FlippedNothing(t: Term, start: nat, S: int -> bool)
    requires t.Valid() && start <= |t.history|
    requires forall p :: !S(p)
    ensures Flipped(t, start, S) == t
  {
    var r := Flipped(t, start, S);
    forall i | 0 <= i < |t.history| ensures r.history[i] == t.history[i] {
    }
    forall y | 0 <= y < |t.rows| ensures r.rows[y] == t.rows[y] {
    }
    assert r.rows == t.rows && r.history == t.history;
  }

  /** The positions of S, so many further on. */
  function Moved(S: int -> bool, far: int): int -> bool { p => S(p - far) }

  /** Positions of a view are positions of the whole document, numbered from its first row. */
  lemma FlippedInDocument(t: Term, start: nat, S: int -> bool)
    requires t.Valid() && start <= |t.history|
    ensures Flipped(t, start, S) == Flipped(t, 0, Moved(S, start * t.frame.width))
  {
    var w, f, g := t.frame.width, Flipped(t, start, S), Flipped(t, 0, Moved(S, start * t.frame.width));
    forall i | 0 <= i < |t.history| ensures f.history[i] == g.history[i] {
      FlipRowMoved(t.history[i], i, start, w, S);
    }
    forall y | 0 <= y < |t.rows| ensures f.rows[y] == g.rows[y] {
      FlipRowMoved(t.rows[y], |t.history| + y, start, w, S);
    }
    assert f.rows == g.rows && f.history == g.history;
  }

  lemma FlipRowMoved(row: Row, i: int, start: int, w: int, S: int -> bool)
    ensures FlipRow(row, (i - start) * w, S) == FlipRow(row, (i - 0) * w, Moved(S, start * w))
  {
    assert (i - start) * w == i * w - start * w;
  }

  predicate HasCell(S: int -> bool, w: int, i: int, x: int) { S(i * w + x) }

  ghost predicate NoCell(S: int -> bool, w: int, rows: int) {
    (forall i, x :: 0 <= i < rows && 0 <= x < w ==> !HasCell(S, w, i, x)) == true
  }

  /** Flipping a set changes the text exactly if some cell of it is in the document. */
  lemma FlippedChanges(t: Term, S: int -> bool)
    requires t.Valid()
    ensures Flipped(t, 0, S) == t <==> NoCell(S, t.frame.width, |t.history| + |t.rows|)
  {
    if NoCell(S, t.frame.width, |t.history| + |t.rows|) {
      NoneFlipped(t, S);
    }
    if Flipped(t, 0, S) == t {
      forall i, x | 0 <= i < |t.history| + |t.rows| && 0 <= x < t.frame.width
        ensures !HasCell(S, t.frame.width, i, x)
      {
        CellFlipped(t, S, i, x);
      }
    }
  }

  lemma NoneFlipped(t: Term, S: int -> bool)
    requires t.Valid() && NoCell(S, t.frame.width, |t.history| + |t.rows|)
    ensures Flipped(t, 0, S) == t
  {
    var w, f := t.frame.width, Flipped(t, 0, S);
    forall i | 0 <= i < |t.history| ensures f.history[i] == t.history[i] {
      RowUntouched(t.history[i], i, w, S);
    }
    forall y | 0 <= y < |t.rows| ensures f.rows[y] == t.rows[y] {
      RowUntouched(t.rows[y], |t.history| + y, w, S);
    }
    assert f.rows == t.rows && f.history == t.history;
  }

  lemma CellFlipped(t: Term, S: int -> bool, i: nat, x: nat)
    requires t.Valid() && i < |t.history| + |t.rows| && x < t.frame.width
    ensures |DocRow(t, i)| == t.frame.width && |DocRow(Flipped(t, 0, S), i)| == t.frame.width
    ensures HasCell(S, t.frame.width, i, x) <==> DocRow(Flipped(t, 0, S), i)[x] != DocRow(t, i)[x]
  {
    assert DocRow(Flipped(t, 0, S), i) == FlipRow(DocRow(t, i), (i - 0) * t.frame.width, S);
  }

  /** A cell of the document at a position of S has its reverse bit turned around and keeps its character and
      all other attributes; every other cell is as it was. */
  lemma OnlyReverseFlips(t: Term, start: nat, S: int -> bool, i: nat, x: nat)
    requires t.Valid() && start <= |t.history| && i < |t.history| + |t.rows| && x < t.frame.width
    ensures var f := Flipped(t, start, S);
      && |(t.history + t.rows)[i]| == |(f.history + f.rows)[i]| == t.frame.width
      && var was, now := (t.history + t.rows)[i][x], (f.history + f.rows)[i][x];
         now == if S((i - start) * t.frame.width + x) then
                  Cell(was.code, CharAttr(was.attr.fcolor, was.attr.bcolor, was.attr.intensity, was.attr.italic,
                                          was.attr.underline, was.attr.blink, !was.attr.reverse))
                else was
  {
    var f := Flipped(t, start, S);
    var row := (t.history + t.rows)[i];
    assert (f.history + f.rows)[i] == FlipRow(row, (i - start) * t.frame.width, S);
  }

  lemma RowUntouched(row: Row, i: int, w: int, S: int -> bool)
    requires |row| == w && forall x :: 0 <= x < w ==> !HasCell(S, w, i, x)
    ensures FlipRow(row, (i - 0) * w, S) == row
  {
    var r := FlipRow(row, (i - 0) * w, S);
    forall x | 0 <= x < w ensures r[x] == row[x] {
      assert !HasCell(S, w, i, x);
    }
  }

  // -------------------------------------------------------- positions and rows

  /** Reading order of positions is reading order of (row, column). */
  lemma ReadingOrder(w: nat, y: int, x: nat, z: int, k: nat)
    requires x < w && k < w
    ensures y * w + x <= z * w + k <==> y < z || (y == z && x <= k)
  {
    if y < z {
      assert (y + 1) * w <= z * w by { MulUp(w, y + 1, z); }
    } else if z < y {
      assert (z + 1) * w <= y * w by { MulUp(w, z + 1, y); }
    }
  }

  lemma RowAndColumn(w: nat, p: nat)
    requires 0 < w
    ensures p == p / w * w + p % w && p % w < w
  {
  }

  // ----------------------------------------------------------------- the text

  /** A document is known row by row. */
  lemma SameDocument(t: Term, t': Term, m: Mem, m': Mem)
    requires Sound(t, m) && t'.Valid() && t' == t.(rows := t'.rows, history := t'.history)
    requires |t'.history| == |t.history| && m' == m.(text := m'.text)
    requires IsGrid(m'.text, |m.text|, t.frame.width)
    requires forall i :: 0 <= i < |t.history| + t.frame.height ==>
      m'.text[DocLine(m, t.frame.cap, |t.history|, i)] == DocRow(t', i)
    ensures Sound(t', m')
  {
    forall i | 0 <= i < |t.history|
      ensures t'.history[i] == m'.text[Lines.Slot(i, t.frame.cap, m.save, m.full)] {
      assert m'.text[DocLine(m, t.frame.cap, |t.history|, i)] == DocRow(t', i);
    }
    forall y | 0 <= y < |t'.rows| ensures t'.rows[y] == m'.text[m.lines[y]] {
      assert m'.text[DocLine(m, t.frame.cap, |t.history|, |t.history| + y)] == DocRow(t', |t.history| + y);
    }
  }

  /** Column x of row y lies between (sx, sy) and (ex, ey) in reading order. */
  predicate Between(x: int, y: int, sx: int, sy: int, ex: int, ey: int) {
    sy <= y <= ey && (y == sy ==> sx <= x) && (y == ey ==> x <= ex)
  }

  /** Row y of the view, flipped where `inverse` flips it. */
  function SpanRow(row: Row, y: int, sx: int, sy: int, ex: int, ey: int): (r: Row)
    ensures |r| == |row|
  {
    seq(|row|, x requires 0 <= x < |row| => if Between(x, y, sx, sy, ex, ey) then Flip(row[x]) else row[x])
  }

  lemma BetweenIsSpan(w: nat, x: nat, y: int, sx: nat, sy: int, ex: nat, ey: int)
    requires x < w && sx < w && ex < w
    ensures Between(x, y, sx, sy, ex, ey) <==> SpanOf(w, sx, sy, ex, ey)(y * w + x)
  {
    ReadingOrder(w, sy, sx, y, x);
    ReadingOrder(w, y, x, ey, ex);
  }

  /** That is flipping the positions from (sx, sy) to (ex, ey). */
  lemma SpanRowFlips(row: Row, y: int, sx: nat, sy: int, ex: nat, ey: int)
    requires sx < |row| && ex < |row|
    ensures FlipRow(row, y * |row|, SpanOf(|row|, sx, sy, ex, ey)) == SpanRow(row, y, sx, sy, ex, ey)
  {
    var base, S := y * |row|, SpanOf(|row|, sx, sy, ex, ey);
    var a, b := FlipRow(row, base, S), SpanRow(row, y, sx, sy, ex, ey);
    forall x | 0 <= x < |row| ensures a[x] == b[x] {
      BetweenIsSpan(|row|, x, y, sx, sy, ex, ey);
    }
  }

  /** Row i of the document when `inverse` is done with the first upTo rows of the view. */
  function InvertedRow(t: Term, start: nat, sx: nat, sy: nat, ex: nat, ey: nat, upTo: nat, i: nat): Row
    requires i < |t.history| + |t.rows|
  {
    if i < start + upTo then SpanRow(DocRow(t, i), i - start, sx, sy, ex, ey) else DocRow(t, i)
  }

  ghost predicate Inverted(t: Term, m: Mem, text: seq<Row>, sx: nat, sy: nat, ex: nat, ey: nat, upTo: nat)
    requires Sound(t, m) && upTo <= t.frame.height
  {
    InvertedSoFar(t, m, text, sx, sy, ex, ey, upTo) == true
  }

  ghost predicate InvertedSoFar(t: Term, m: Mem, text: seq<Row>, sx: nat, sy: nat, ex: nat, ey: nat, upTo: nat)
    requires Sound(t, m) && upTo <= t.frame.height
  {
    && IsGrid(text, |m.text|, t.frame.width)
    && forall i :: 0 <= i < |t.history| + t.frame.height ==>
         text[DocLine(m, t.frame.cap, |t.history|, i)] == InvertedRow(t, m.start, sx, sy, ex, ey, upTo, i)
  }

  lemma InvertedIsGrid(t: Term, m: Mem, text: seq<Row>, sx: nat, sy: nat, ex: nat, ey: nat, upTo: nat)
    requires Sound(t, m) && upTo <= t.frame.height && Inverted(t, m, text, sx, sy, ex, ey, upTo)
    ensures IsGrid(text, |m.text|, t.frame.width)
  {
  }

  lemma InvertedStart(t: Term, m: Mem, sx: nat, sy: nat, ex: nat, ey: nat)
    requires Sound(t, m) && sy < t.frame.height
    ensures Inverted(t, m, m.text, sx, sy, ex, ey, sy)
  {
  }

  lemma InvertedStep(t: Term, m: Mem, text: seq<Row>, sx: nat, sy: nat, ex: nat, ey: nat, y: nat, l: nat, row: Row)
    requires Sound(t, m) && y < t.frame.height && Inverted(t, m, text, sx, sy, ex, ey, y)
    requires l == DocLine(m, t.frame.cap, |t.history|, m.start + y)
    requires l < |text| && row == SpanRow(text[l], y, sx, sy, ex, ey)
    ensures Inverted(t, m, text[l := row], sx, sy, ex, ey, y + 1)
  {
    RowInView(t, m, y);
    InvertedIsGrid(t, m, text, sx, sy, ex, ey, y);
    assert |m.lines| == |t.rows| == t.frame.height && IsGrid(text[l := row], |m.text|, t.frame.width);
    hide Sound, SpanRow, Inverted, InvertedRow, DocLine, IsGrid;
    forall i | 0 <= i < |t.history| + t.frame.height
      ensures DocLine(m, t.frame.cap, |t.history|, i) < |text|
      ensures text[l := row][DocLine(m, t.frame.cap, |t.history|, i)]
           == InvertedRow(t, m.start, sx, sy, ex, ey, y + 1, i)
    {
      InvertedOne(t, m, text, sx, sy, ex, ey, y, l, row, i);
    }
    IsInverted(t, m, text[l := row], sx, sy, ex, ey, y + 1);
  }

  lemma InvertedOne(t: Term, m: Mem, text: seq<Row>, sx: nat, sy: nat, ex: nat, ey: nat, y: nat, l: nat, row: Row,
                    i: nat)
    requires Sound(t, m) && y < t.frame.height && Inverted(t, m, text, sx, sy, ex, ey, y)
    requires |m.lines| == |t.rows| == t.frame.height && m.start + y < |t.history| + t.frame.height
    requires l == DocLine(m, t.frame.cap, |t.history|, m.start + y)
    requires l < |text| && row == SpanRow(text[l], y, sx, sy, ex, ey)
    requires i < |t.history| + t.frame.height
    ensures DocLine(m, t.frame.cap, |t.history|, i) < |text|
    ensures text[l := row][DocLine(m, t.frame.cap, |t.history|, i)]
         == InvertedRow(t, m.start, sx, sy, ex, ey, y + 1, i)
  {
    hide Sound, SpanRow, Inverted, InvertedRow, DocLine, IsGrid;
    InvertedAt(t, m, text, sx, sy, ex, ey, y, i);
    InvertedRowNext(t, m.start, sx, sy, ex, ey, y, i);
    if i != m.start + y {
      OtherLine(t, m, i, m.start + y);
    }
  }

  lemma IsInverted(t: Term, m: Mem, text: seq<Row>, sx: nat, sy: nat, ex: nat, ey: nat, upTo: nat)
    requires Sound(t, m) && upTo <= t.frame.height && IsGrid(text, |m.text|, t.frame.width)
    requires |m.lines| == |t.rows| == t.frame.height
    requires forall i :: 0 <= i < |t.history| + t.frame.height ==>
      DocLine(m, t.frame.cap, |t.history|, i) < |text|
      && text[DocLine(m, t.frame.cap, |t.history|, i)] == InvertedRow(t, m.start, sx, sy, ex, ey, upTo, i)
    ensures Inverted(t, m, text, sx, sy, ex, ey, upTo)
  {
    hide DocLine, InvertedRow;
  }

  lemma InvertedAt(t: Term, m: Mem, text: seq<Row>, sx: nat, sy: nat, ex: nat, ey: nat, upTo: nat, i: nat)
    requires Sound(t, m) && upTo <= t.frame.height && Inverted(t, m, text, sx, sy, ex, ey, upTo)
    requires i < |t.history| + t.frame.height
    ensures |text| == |m.text| && |m.lines| == |t.rows| == t.frame.height
    ensures DocLine(m, t.frame.cap, |t.history|, i) < |text|
    ensures text[DocLine(m, t.frame.cap, |t.history|, i)] == InvertedRow(t, m.start, sx, sy, ex, ey, upTo, i)
  {
  }

  lemma InvertedRowNext(t: Term, start: nat, sx: nat, sy: nat, ex: nat, ey: nat, y: nat, i: nat)
    requires i < |t.history| + |t.rows|
    ensures InvertedRow(t, start, sx, sy, ex, ey, y + 1, i) ==
      if i == start + y then SpanRow(InvertedRow(t, start, sx, sy, ex, ey, y, i), y, sx, sy, ex, ey)
      else InvertedRow(t, start, sx, sy, ex, ey, y, i)
  {
  }

  lemma OtherLine(t: Term, m: Mem, i: nat, j: nat)
    requires Sound(t, m) && i < |t.history| + t.frame.height && j < |t.history| + t.frame.height && i != j
    ensures DocLine(m, t.frame.cap, |t.history|, i) < |m.text| && DocLine(m, t.frame.cap, |t.history|, j) < |m.text|
    ensures DocLine(m, t.frame.cap, |t.history|, i) != DocLine(m, t.frame.cap, |t.history|, j)
  {
  }

  lemma InvertedFlips(t: Term, m: Mem, m': Mem, sx: nat, sy: nat, ex: nat, ey: nat)
    requires Sound(t, m) && sx < t.frame.width && ex < t.frame.width && sy <= ey < t.frame.height
    requires m' == m.(text := m'.text) && Inverted(t, m, m'.text, sx, sy, ex, ey, ey + 1)
    ensures Sound(Flipped(t, m.start, SpanOf(t.frame.width, sx, sy, ex, ey)), m')
  {
    var w := t.frame.width;
    var t' := Flipped(t, m.start, SpanOf(w, sx, sy, ex, ey));
    forall i | 0 <= i < |t.history| + t.frame.height
      ensures m'.text[DocLine(m, t.frame.cap, |t.history|, i)] == DocRow(t', i) {
      InvertedDocRow(t, m.start, sx, sy, ex, ey, i);
    }
    SameDocument(t, t', m, m');
  }

  lemma InvertedDocRow(t: Term, start: nat, sx: nat, sy: nat, ex: nat, ey: nat, i: nat)
    requires t.Valid() && start <= |t.history| && i < |t.history| + t.frame.height
    requires sx < t.frame.width && ex < t.frame.width && sy <= ey
    ensures InvertedRow(t, start, sx, sy, ex, ey, ey + 1, i)
         == DocRow(Flipped(t, start, SpanOf(t.frame.width, sx, sy, ex, ey)), i)
  {
    SpanRowFlips(DocRow(t, i), i - start, sx, sy, ex, ey);
    if i >= start + ey + 1 {
      assert SpanRow(DocRow(t, i), i - start, sx, sy, ex, ey) == DocRow(t, i);
    }
  }

  /** Outside the span the view looks as before. */
  lemma ViewOutsideSpan(t: Term, start: nat, sx: nat, sy: nat, ex: nat, ey: nat, x: nat, y: nat)
    requires t.Valid() && start <= |t.history| && sy <= ey
    requires x < t.frame.width && y < t.frame.height && sx < t.frame.width && ex < t.frame.width
    requires !Between(x, y, sx, sy, ex, ey)
    ensures var t' := Flipped(t, start, SpanOf(t.frame.width, sx, sy, ex, ey));
      && IsGrid(View(t, start), t.frame.height, t.frame.width)
      && IsGrid(View(t', start), t.frame.height, t.frame.width)
      && View(t', start)[y][x] == View(t, start)[y][x]
  {
    var t' := Flipped(t, start, SpanOf(t.frame.width, sx, sy, ex, ey));
    ViewIsGrid(t, start);
    ViewIsGrid(t', start);
    BetweenIsSpan(t.frame.width, x, y, sx, sy, ex, ey);
    assert DocRow(t', start + y) == FlipRow(DocRow(t, start + y), (start + y - start) * t.frame.width,
                                            SpanOf(t.frame.width, sx, sy, ex, ey));
    assert Window(t.history, t.rows, start)[y] == DocRow(t, start + y);
    assert Window(t'.history, t'.rows, start)[y] == DocRow(t', start + y);
    assert DocRow(t', start + y)[x] == DocRow(t, start + y)[x];
  }

  /** The repainting done after a span was flipped: the rest of its first row, its middle
      rows, and the start of its last row. */
  function SpanRepainted(glass: seq<Row>, view: seq<Row>, w: nat, sx: nat, sy: nat, ex: nat, ey: nat): seq<Row>
    requires IsGrid(glass, |view|, w) && IsGrid(view, |view|, w)
    requires sx < w && ex < w && sy <= ey && (sy == ey ==> sx <= ex)
  {
    LaterRepainted(Repaint(glass, view, w, sx, sy, (if sy == ey then ex + 1 else w) - sx, 1), view, w, sy, ex, ey)
  }

  /** The rows after the first. */
  function LaterRepainted(glass: seq<Row>, view: seq<Row>, w: nat, sy: nat, ex: nat, ey: nat): seq<Row>
    requires IsGrid(glass, |view|, w) && IsGrid(view, |view|, w) && ex < w && sy <= ey
  {
    var middle := if ey > sy + 1 then Repaint(glass, view, w, 0, sy + 1, w, ey - sy - 1) else glass;
    if ey > sy then Repaint(middle, view, w, 0, ey, ex + 1, 1) else middle
  }

  lemma SpanRepaintedIsView(glass: seq<Row>, view: seq<Row>, w: nat, sx: nat, sy: nat, ex: nat, ey: nat)
    requires IsGrid(glass, |view|, w) && IsGrid(view, |view|, w)
    requires sx < w && ex < w && sy <= ey && (sy == ey ==> sx <= ex)
    requires forall y, x ::
      0 <= y < |view| && 0 <= x < w && !Between(x, y, sx, sy, ex, ey) ==> glass[y][x] == view[y][x]
    ensures SpanRepainted(glass, view, w, sx, sy, ex, ey) == view
  {
    var r := SpanRepainted(glass, view, w, sx, sy, ex, ey);
    forall y | 0 <= y < |view| ensures r[y] == view[y] {
      forall x | 0 <= x < w ensures r[y][x] == view[y][x] {
        assert Between(x, y, sx, sy, ex, ey) || glass[y][x] == view[y][x];
      }
    }
  }

  /** Flipping a span and repainting it turns one view into the other. */
  lemma SpanShown(t: Term, start: nat, sx: nat, sy: nat, ex: nat, ey: nat)
    requires t.Valid() && start <= |t.history|
    requires sx < t.frame.width && ex < t.frame.width && sy <= ey < t.frame.height && (sy == ey ==> sx <= ex)
    ensures var t' := Flipped(t, start, SpanOf(t.frame.width, sx, sy, ex, ey));
      && IsGrid(View(t, start), |t.rows|, t.frame.width) && IsGrid(View(t', start), |t.rows|, t.frame.width)
      && SpanRepainted(View(t, start), View(t', start), t.frame.width, sx, sy, ex, ey) == View(t', start)
  {
    var t' := Flipped(t, start, SpanOf(t.frame.width, sx, sy, ex, ey));
    ViewIsGrid(t, start);
    ViewIsGrid(t', start);
    forall y, x | 0 <= y < t.frame.height && 0 <= x < t.frame.width && !Between(x, y, sx, sy, ex, ey)
      ensures View(t, start)[y][x] == View(t', start)[y][x] {
      ViewOutsideSpan(t, start, sx, sy, ex, ey, x, y);
    }
    SpanRepaintedIsView(View(t, start), View(t', start), t.frame.width, sx, sy, ex, ey);
  }

  /** From a settled screen: after the flip the repainting leaves it settled again. */
  lemma FlipSettles(t: Term, m: Mem, t': Term, m': Mem, sx: nat, sy: nat, ex: nat, ey: nat)
    requires Settled(t, m) && Sound(t', m') && m' == m.(text := m'.text)
    requires sx < t.frame.width && ex < t.frame.width && sy <= ey < t.frame.height && (sy == ey ==> sx <= ex)
    requires t' == Flipped(t, m.start, SpanOf(t.frame.width, sx, sy, ex, ey))
    ensures m.start <= |t'.history| && IsGrid(View(t', m.start), t.frame.height, t.frame.width)
    ensures IsGrid(m.panel, |View(t', m.start)|, t.frame.width)
    ensures SpanRepainted(m.panel, View(t', m.start), t.frame.width, sx, sy, ex, ey) == View(t', m.start)
    ensures Settled(t', m'.(panel := View(t', m.start)))
  {
    SpanShown(t, m.start, sx, sy, ex, ey);
    assert m.panel == View(t, m.start);
  }
}
