/** Text selection with the mouse: every move flips only the cells between the old
    end of the selection and the new one. */
module Selection {
  import opened Basics
  import opened Cells
  import opened TermSpec
  import opened Machine
  import opened Reverse
  import opened VTermEngine

  const U32: int := 0x1_0000_0000

  /** The cells from one position to another, in either direction. */
  function Range(a: int, b: int): int -> bool { Span(Min(a, b), Max(a, b)) }

  /** middleTextSelect's choice: the spans it flips, in 32-bit arithmetic. */
  function DragSpans(start: nat, end: nat, newEnd: nat): (spans: seq<(nat, nat)>)
    requires start < U32 - 1 && end < U32 - 1 && newEnd < U32 - 1
    ensures |spans| <= 2
  {
    var forward, newForward := end >= start, newEnd >= start;
    if forward != newForward then [(start, end), (start, newEnd)]
    else
      var grows := newEnd > end;
      var step := if forward then 1 else U32 - 1;
      var from := if forward == grows then (end + step) % U32 else end;
      var to := if forward == grows then newEnd else (newEnd + step) % U32;
      if grows == (if to == from then grows else to > from) then [(from, to)] else []
  }

  /** A backward selection that already reaches position 0 and is dragged to it again
      steps below 0. */
  predicate StepsBelowZero(start: nat, end: nat, newEnd: nat) {
    end == 0 && newEnd == 0 && 0 < start
  }

  /** Flipped by exactly one of the spans. */
  function Flips(spans: seq<(nat, nat)>): int -> bool
    requires |spans| <= 2
  {
    if spans == [] then p => false
    else if |spans| == 1 then Range(spans[0].0, spans[0].1)
    else Apart(Range(spans[0].0, spans[0].1), Range(spans[1].0, spans[1].1))
  }

  /** The spans flipped take the old selection to the new one, except in that one case. */
  lemma DragIsDifference(start: nat, end: nat, newEnd: nat)
    requires start < U32 - 1 && end < U32 - 1 && newEnd < U32 - 1
    ensures (forall p :: Flips(DragSpans(start, end, newEnd))(p) == Apart(Range(start, end), Range(start, newEnd))(p))
       <==> !StepsBelowZero(start, end, newEnd)
  {
    var spans := DragSpans(start, end, newEnd);
    if StepsBelowZero(start, end, newEnd) {
      assert spans == [(U32 - 1, 0)];
      assert Flips(spans)(0) && !Apart(Range(start, end), Range(start, newEnd))(0);
    } else {
      forall p ensures Flips(spans)(p) == Apart(Range(start, end), Range(start, newEnd))(p) {
        DragAt(start, end, newEnd, p);
      }
    }
  }

  /** The spans without the arithmetic: what was selected goes, or the difference of the two ends. */
  lemma DragForms(start: nat, end: nat, newEnd: nat)
    requires start < U32 - 1 && end < U32 - 1 && newEnd < U32 - 1 && !StepsBelowZero(start, end, newEnd)
    ensures DragSpans(start, end, newEnd) ==
      if (end >= start) != (newEnd >= start) then [(start, end), (start, newEnd)]
      else if newEnd == end then []
      else if end >= start then (if newEnd > end then [(end + 1, newEnd)] else [(end, newEnd + 1)])
      else if newEnd > end then [(end, newEnd - 1)]
      else [(end - 1, newEnd)]
  {
    Stepped(end);
    Stepped(newEnd);
  }

  /** One up and one down in 32 bits. */
  lemma Stepped(p: nat)
    requires p < U32 - 1
    ensures (p + 1) % U32 == p + 1 && (p + (U32 - 1)) % U32 == if p == 0 then U32 - 1 else p - 1
  {
  }

  lemma DragAt(start: nat, end: nat, newEnd: nat, p: int)
    requires start < U32 - 1 && end < U32 - 1 && newEnd < U32 - 1 && !StepsBelowZero(start, end, newEnd)
    ensures Flips(DragSpans(start, end, newEnd))(p) == Apart(Range(start, end), Range(start, newEnd))(p)
  {
    hide DragSpans;
    DragForms(start, end, newEnd);
  }

  /** One call of inverseTextColor: the view it was made in, and the positions on the screen. */
  datatype Flipping = Flipping(view: nat, a: int, b: int)

  /** The cells it flips, numbered from the first row of the document. */
  function Flips1(f: Flipping, w: nat): int -> bool { Moved(Range(f.a, f.b), f.view * w) }

  /** The cells flipped an odd number of times. */
  function Marked(flips: seq<Flipping>, w: nat): int -> bool {
    if flips == [] then p => false
    else Apart(Marked(flips[..|flips| - 1], w), Flips1(flips[|flips| - 1], w))
  }

  /** What the left button and the paging keys do; p is the position of the cell under the mouse. */
  datatype UserEvent = Press(p: nat) | Move(p: nat) | Release | Page(num: int)

  /** mSelState, the view, and the flips made since the program last wrote. */
  datatype Sel = Sel(start: nat, end: nat, selecting: bool, inversed: bool, view: nat, flips: seq<Flipping>)

  function Deselected(s: Sel): Sel {
    if s.inversed then s.(selecting := false, inversed := false, flips := s.flips + [Flipping(s.view, s.start, s.end)])
    else s.(selecting := false)
  }

  function StartAt(s: Sel, p: nat): Sel {
    s.(start := p, end := p, selecting := true, inversed := true, flips := s.flips + [Flipping(s.view, p, p)])
  }

  function FlippingsOf(view: nat, spans: seq<(nat, nat)>): seq<Flipping> {
    seq(|spans|, i requires 0 <= i < |spans| => Flipping(view, spans[i].0, spans[i].1))
  }

  lemma FlippingsNext(was: seq<Flipping>, view: nat, spans: seq<(nat, nat)>, i: nat)
    requires i < |spans|
    ensures was + FlippingsOf(view, spans[..i]) + [Flipping(view, spans[i].0, spans[i].1)]
         == was + FlippingsOf(view, spans[..i + 1])
  {
  }

  function DragTo(s: Sel, p: nat): Sel
    requires s.start < U32 - 1 && s.end < U32 - 1 && p < U32 - 1
  {
    s.(end := p, flips := s.flips + FlippingsOf(s.view, DragSpans(s.start, s.end, p)))
  }

  /** The event is on the screen and does not drag below position 0. */
  predicate Allowed(s: Sel, e: UserEvent, size: nat) {
    match e
    case Press(p) => p < size
    case Move(p) => p < size && (s.selecting ==> !StepsBelowZero(s.start, s.end, p))
    case Release => true
    case Page(num) => -0x8000_0000 < num < 0x8000_0000
  }

  /** On a screen of that size, in a view of that much history. */
  predicate OnScreen(s: Sel, size: nat, total: nat) {
    s.start < size && s.end < size && size < U32 - 1 && s.view <= total
  }

  function Track(s: Sel, e: UserEvent, size: nat, total: nat): (r: Sel)
    requires OnScreen(s, size, total) && Allowed(s, e, size)
    ensures OnScreen(r, size, total)
  {
    match e
    case Press(p) => StartAt(Deselected(s), p)
    case Move(p) => if s.selecting then DragTo(s, p) else StartAt(Deselected(s), p)
    case Release => s.(selecting := false)
    case Page(num) => s.(view := ViewTarget(s.view, total, false, num))
  }

  predicate AllAllowed(s: Sel, events: seq<UserEvent>, size: nat, total: nat)
    requires OnScreen(s, size, total)
    decreases |events|
  {
    events == [] ||
    (Allowed(s, events[0], size) && AllAllowed(Track(s, events[0], size, total), events[1..], size, total))
  }

  function TrackAll(s: Sel, events: seq<UserEvent>, size: nat, total: nat): (r: Sel)
    requires OnScreen(s, size, total) && AllAllowed(s, events, size, total)
    ensures OnScreen(r, size, total)
    decreases |events|
  {
    if events == [] then s else TrackAll(Track(s, events[0], size, total), events[1..], size, total)
  }

  // ------------------------------------------------ a selection and its view

  /** The same positions. */
  ghost predicate Same(S: int -> bool, R: int -> bool) {
    (forall p :: S(p) == R(p)) == true
  }

  /** The cells selected, in the view there is now. */
  function Selected(s: Sel, w: nat): int -> bool {
    if s.inversed then Moved(Range(s.start, s.end), s.view * w) else p => false
  }

  /** They are the cells that are flipped. */
  ghost predicate InPlace(s: Sel, w: nat) {
    Same(Marked(s.flips, w), Selected(s, w))
  }

  /** The view does not change under a selection. */
  predicate Steady(s: Sel, e: UserEvent, total: nat)
    requires s.view <= total
  {
    e.Page? && s.inversed ==> ViewTarget(s.view, total, false, e.num) == s.view
  }

  lemma MarkedNext(flips: seq<Flipping>, f: Flipping, w: nat)
    ensures Marked(flips + [f], w) == Apart(Marked(flips, w), Flips1(f, w))
  {
    assert (flips + [f])[..|flips|] == flips;
  }

  lemma SameApart(S: int -> bool, R: int -> bool, X: int -> bool)
    requires Same(S, R)
    ensures Same(Apart(S, X), Apart(R, X))
  {
  }

  lemma ApartTwice(S: int -> bool, X: int -> bool, Y: int -> bool)
    ensures Same(Apart(Apart(S, X), Y), Apart(S, Apart(X, Y)))
    ensures Same(Apart(X, X), p => false) && Same(Apart(p => false, X), X)
  {
  }

  lemma SameChain(S: int -> bool, R: int -> bool, X: int -> bool)
    requires Same(S, R) && Same(R, X)
    ensures Same(S, X)
  {
  }

  /** The flips of a move, as one. */
  lemma MarkedSpans(flips: seq<Flipping>, view: nat, spans: seq<(nat, nat)>, w: nat)
    requires |spans| <= 2
    ensures Same(Marked(flips + FlippingsOf(view, spans), w), Apart(Marked(flips, w), Moved(Flips(spans), view * w)))
  {
    var more := FlippingsOf(view, spans);
    if |spans| == 0 {
      assert flips + more == flips;
    } else if |spans| == 1 {
      assert flips + more == flips + [more[0]];
      MarkedNext(flips, more[0], w);
    } else {
      assert flips + more == flips + [more[0]] + [more[1]];
      MarkedNext(flips, more[0], w);
      MarkedNext(flips + [more[0]], more[1], w);
    }
  }

  lemma ResetInPlace(s: Sel, w: nat)
    requires InPlace(s, w)
    ensures InPlace(Deselected(s), w) && !Deselected(s).inversed
  {
    if s.inversed {
      var X := Selected(s, w);
      MarkedNext(s.flips, Flipping(s.view, s.start, s.end), w);
      SameApart(Marked(s.flips, w), X, X);
      ApartTwice(X, X, X);
      SameChain(Apart(Marked(s.flips, w), X), Apart(X, X), p => false);
    }
  }

  lemma StartInPlace(s: Sel, at: nat, w: nat)
    requires InPlace(s, w) && !s.inversed
    ensures InPlace(StartAt(s, at), w)
  {
    var X := Flips1(Flipping(s.view, at, at), w);
    MarkedNext(s.flips, Flipping(s.view, at, at), w);
    SameApart(Marked(s.flips, w), p => false, X);
    ApartTwice(X, X, X);
    SameChain(Apart(Marked(s.flips, w), X), Apart(p => false, X), X);
  }

  lemma DragMoved(start: nat, end: nat, newEnd: nat, far: int)
    requires start < U32 - 1 && end < U32 - 1 && newEnd < U32 - 1 && !StepsBelowZero(start, end, newEnd)
    ensures Same(Apart(Moved(Range(start, end), far), Moved(Flips(DragSpans(start, end, newEnd)), far)),
                 Moved(Range(start, newEnd), far))
  {
    hide DragSpans, Flips, Range;
    forall p
      ensures Apart(Moved(Range(start, end), far), Moved(Flips(DragSpans(start, end, newEnd)), far))(p)
           == Moved(Range(start, newEnd), far)(p)
    {
      DragAt(start, end, newEnd, p - far);
    }
  }

  lemma DragInPlace(s: Sel, to: nat, w: nat)
    requires InPlace(s, w) && s.inversed && s.start < U32 - 1 && s.end < U32 - 1 && to < U32 - 1
    requires !StepsBelowZero(s.start, s.end, to)
    ensures InPlace(DragTo(s, to), w)
  {
    var spans, X, far := DragSpans(s.start, s.end, to), Selected(s, w), s.view * w;
    hide DragSpans, StepsBelowZero, Marked, Moved, Range, Flips, Apart, Same;
    var Y, Z := Moved(Flips(spans), far), Moved(Range(s.start, to), far);
    MarkedSpans(s.flips, s.view, spans, w);
    SameApart(Marked(s.flips, w), X, Y);
    DragMoved(s.start, s.end, to, far);
    SameChain(Apart(Marked(s.flips, w), Y), Apart(X, Y), Z);
    SameChain(Marked(DragTo(s, to).flips, w), Apart(Marked(s.flips, w), Y), Z);
  }

  lemma PressInPlace(s: Sel, at: nat, w: nat)
    requires InPlace(s, w)
    ensures InPlace(StartAt(Deselected(s), at), w)
  {
    ResetInPlace(s, w);
    StartInPlace(Deselected(s), at, w);
  }

  /** So it stays as long as the view does not move under a selection. */
  lemma TrackInPlace(s: Sel, e: UserEvent, w: nat, size: nat, total: nat)
    requires OnScreen(s, size, total) && Allowed(s, e, size) && Steady(s, e, total)
    requires InPlace(s, w) && (s.selecting ==> s.inversed)
    ensures InPlace(Track(s, e, size, total), w)
  {
    match e
    case Press(p) => PressInPlace(s, p, w);
    case Move(p) =>
      if s.selecting {
        DragInPlace(s, p, w);
      } else {
        PressInPlace(s, p, w);
      }
    case Release => ReleaseInPlace(s, w);
    case Page(num) => PageInPlace(s, ViewTarget(s.view, total, false, num), w);
  }

  lemma ReleaseInPlace(s: Sel, w: nat)
    requires InPlace(s, w)
    ensures InPlace(s.(selecting := false), w)
  {
  }

  lemma PageInPlace(s: Sel, view: nat, w: nat)
    requires InPlace(s, w) && (s.inversed ==> view == s.view)
    ensures InPlace(s.(view := view), w)
  {
  }

  predicate AllSteady(s: Sel, events: seq<UserEvent>, size: nat, total: nat)
    requires OnScreen(s, size, total) && AllAllowed(s, events, size, total)
    decreases |events|
  {
    events == [] ||
    (Steady(s, events[0], total) && AllSteady(Track(s, events[0], size, total), events[1..], size, total))
  }

  /** Any series of presses, moves, releases and pages that does not move the view under a
      selection leaves exactly the tracked selection flipped. */
  lemma {:induction false} TrackAllInPlace(s: Sel, events: seq<UserEvent>, w: nat, size: nat, total: nat)
    requires OnScreen(s, size, total) && AllAllowed(s, events, size, total) && AllSteady(s, events, size, total)
    requires InPlace(s, w) && (s.selecting ==> s.inversed)
    ensures InPlace(TrackAll(s, events, size, total), w)
    decreases |events|
  {
    if events != [] {
      TrackInPlace(s, events[0], w, size, total);
      TrackAllInPlace(Track(s, events[0], size, total), events[1..], w, size, total);
    }
  }

  function Drags(moves: seq<nat>): (events: seq<UserEvent>)
    ensures |events| == |moves|
  {
    seq(|moves|, i requires 0 <= i < |moves| => Move(moves[i]))
  }

  lemma {:induction false} DragsSelect(s: Sel, moves: seq<nat>, size: nat, total: nat)
    requires OnScreen(s, size, total) && s.selecting && s.inversed && AllAllowed(s, Drags(moves), size, total)
    ensures AllSteady(s, Drags(moves), size, total)
    ensures var r := TrackAll(s, Drags(moves), size, total);
      && r.selecting && r.inversed && r.view == s.view && r.start == s.start
      && r.end == if moves == [] then s.end else moves[|moves| - 1]
    decreases |moves|
  {
    if moves != [] {
      assert Drags(moves)[1..] == Drags(moves[1..]);
      DragsSelect(Track(s, Drags(moves)[0], size, total), moves[1..], size, total);
    }
  }

  /** Pressing the button on a cell and dragging to and fro leaves exactly the cells from there to the last one,
      in reading order, flipped in the text that was there. */
  lemma PressAndDrag(s: Sel, a: nat, moves: seq<nat>, w: nat, size: nat, total: nat)
    requires OnScreen(s, size, total) && InPlace(s, w) && (s.selecting ==> s.inversed)
    requires AllAllowed(s, [Press(a)] + Drags(moves), size, total)
    ensures var b := if moves == [] then a else moves[|moves| - 1];
      var r := TrackAll(s, [Press(a)] + Drags(moves), size, total);
      && r.selecting && r.view == s.view
      && forall p :: Marked(r.flips, w)(p) <==> Min(a, b) <= p - s.view * w <= Max(a, b)
  {
    var events := [Press(a)] + Drags(moves);
    assert events[1..] == Drags(moves);
    DragsSelect(Track(s, Press(a), size, total), moves, size, total);
    TrackAllInPlace(s, events, w, size, total);
    var r := TrackAll(s, events, size, total);
    forall p
      ensures Marked(r.flips, w)(p) <==> Selected(r, w)(p)
    {
    }
    hide Marked, TrackAll, AllAllowed, AllSteady, Track;
  }

  /** Selecting in one view and taking the colours back in another gives the text back exactly
      if the views are the same. */
  lemma ResetAfterMove(plain: Term, from: nat, to: nat, a: nat, b: nat)
    requires plain.Valid() && from <= |plain.history| && to <= |plain.history|
    requires a < plain.frame.width * plain.frame.height && b < plain.frame.width * plain.frame.height
    ensures Flipped(Flipped(plain, from, Range(a, b)), to, Range(a, b)) == plain <==> from == to
  {
    if from == to {
      FlippedTwice(plain, from, Range(a, b), Range(a, b));
      FlippedNothing(plain, from, Apart(Range(a, b), Range(a, b)));
    } else {
      TwoViews(plain, from, to, Range(a, b));
      CellOnce(plain, from, to, a, b);
    }
  }

  lemma TwoViews(plain: Term, from: nat, to: nat, S: int -> bool)
    requires plain.Valid() && from <= |plain.history| && to <= |plain.history|
    ensures var w := plain.frame.width;
      Flipped(Flipped(plain, from, S), to, S) == plain
      <==> NoCell(Apart(Moved(S, from * w), Moved(S, to * w)), w, |plain.history| + |plain.rows|)
  {
    var w := plain.frame.width;
    FlippedInDocument(plain, from, S);
    FlippedInDocument(Flipped(plain, from, S), to, S);
    FlippedTwice(plain, 0, Moved(S, from * w), Moved(S, to * w));
    FlippedChanges(plain, Apart(Moved(S, from * w), Moved(S, to * w)));
  }

  lemma CellOnce(plain: Term, from: nat, to: nat, a: nat, b: nat)
    requires plain.Valid() && from <= |plain.history| && to <= |plain.history| && from != to
    requires a < plain.frame.width * plain.frame.height && b < plain.frame.width * plain.frame.height
    ensures var w := plain.frame.width;
      !NoCell(Apart(Moved(Range(a, b), from * w), Moved(Range(a, b), to * w)), w, |plain.history| + |plain.rows|)
  {
    var w, low, first := plain.frame.width, if a < b then a else b, if from < to then from else to;
    assert |plain.rows| == plain.frame.height && 0 < w;
    var row, x := RowOf(w, plain.frame.height, low);
    FlippedOnceAt(a, b, from, to, w, |plain.history| + |plain.rows|, row, x);
  }

  lemma FlippedOnceAt(a: nat, b: nat, from: nat, to: nat, w: nat, rows: nat, row: nat, x: nat)
    requires from != to && x < w && row * w + x == (if a < b then a else b)
    requires (if from < to then from else to) + row < rows
    ensures !NoCell(Apart(Moved(Range(a, b), from * w), Moved(Range(a, b), to * w)), w, rows)
  {
    hide *;
    var first := if from < to then from else to;
    RowsBelow(first, row, w);
    OnlyOnce(a, b, from, to, w);
    SomeCell(Apart(Moved(Range(a, b), from * w), Moved(Range(a, b), to * w)), w, rows, first + row, x);
  }

  lemma SomeCell(S: int -> bool, w: nat, rows: nat, i: nat, x: nat)
    requires i < rows && x < w && S(i * w + x)
    ensures !NoCell(S, w, rows)
  {
    assert HasCell(S, w, i, x);
  }

  lemma RowsBelow(first: nat, row: nat, w: nat)
    ensures (first + row) * w == first * w + row * w
  {
  }

  lemma RowOf(w: nat, h: nat, p: nat) returns (row: nat, x: nat)
    requires p < w * h
    ensures row < h && x < w && row * w + x == p
  {
    assert 0 < w;
    row, x := p / w, p % w;
    RowAndColumn(w, p);
    ReadingOrder(w, h, 0, row, x);
  }

  /** The first cell of two flips in different views is flipped once. */
  lemma OnlyOnce(a: nat, b: nat, from: nat, to: nat, w: nat)
    requires from != to && 0 < w
    ensures var low, first := if a < b then a else b, if from < to then from else to;
      Apart(Moved(Range(a, b), from * w), Moved(Range(a, b), to * w))(first * w + low)
  {
    if from < to {
      MulUp(w, from + 1, to);
    } else {
      MulUp(w, to + 1, from);
    }
  }

  /** One flip more. */
  lemma FlipNext(plain: Term, flips: seq<Flipping>, f: Flipping)
    requires plain.Valid() && f.view <= |plain.history|
    ensures var w := plain.frame.width;
      Flipped(Flipped(plain, 0, Marked(flips, w)), f.view, Range(f.a, f.b)) == Flipped(plain, 0, Marked(flips + [f], w))
  {
    var w := plain.frame.width;
    FlippedInDocument(Flipped(plain, 0, Marked(flips, w)), f.view, Range(f.a, f.b));
    FlippedTwice(plain, 0, Marked(flips, w), Flips1(f, w));
    MarkedNext(flips, f, w);
  }

  /** The cells flipped, when they are those selected in the view there is now. */
  lemma InPlaceShows(plain: Term, s: Sel)
    requires plain.Valid() && s.view <= |plain.history| && InPlace(s, plain.frame.width)
    ensures Flipped(plain, 0, Marked(s.flips, plain.frame.width))
         == if s.inversed then Flipped(plain, s.view, Range(s.start, s.end)) else plain
  {
    var w := plain.frame.width;
    if s.inversed {
      FlippedInDocument(plain, s.view, Range(s.start, s.end));
      FlippedSame(plain, 0, Marked(s.flips, w), Selected(s, w));
    } else {
      FlippedNothing(plain, 0, Marked(s.flips, w));
    }
  }

  class Shell {
    const vt: VTerm
    var start: nat           // mSelState.start and .end: positions in reading order
    var end: nat
    var selecting: bool
    var inversed: bool       // mSelState.color_inversed

    ghost var plain: Term    // the terminal without the selection's colours
    ghost var flips: seq<Flipping>

    /** The position of a column and a row. */
    function At(x: nat, y: nat): nat { y * vt.frame.width + x }

    /** How many cells the screen has. */
    function Size(): nat { vt.frame.width * vt.frame.height }

    /** The display shows the plain terminal with those cells flipped. */
    ghost predicate Shows()
      reads `plain, `flips, vt, vt.text, vt.lines, vt.dirtyStart, vt.dirtyEnd
    {
      (&& vt.Idle() && plain.Valid() && plain.frame == vt.frame && vt.visualStart <= |plain.history|
       && vt.term == Flipped(plain, 0, Marked(flips, vt.frame.width))) == true
    }

    ghost predicate Valid()
      reads this, vt, vt.text, vt.lines, vt.dirtyStart, vt.dirtyEnd
    {
      (&& Shows()
       && (inversed ==> vt.Settled()) && (selecting ==> inversed)
       && OnScreen(State(), Size(), |plain.history|)) == true
    }

    ghost function State(): Sel
      reads this, vt
    {
      Sel(start, end, selecting, inversed, vt.visualStart, flips)
    }

    constructor (vt: VTerm)
      requires vt.Idle()
      ensures Valid() && this.vt == vt && !inversed && !selecting && plain == vt.term && flips == []
    {
      this.vt := vt;
      start, end, selecting, inversed := 0, 0, false, false;
      plain, flips := vt.term, [];
      new;
      ScreenSize();
      Accept();
    }

    lemma ScreenSize()
      requires vt.Idle()
      ensures 0 < vt.frame.width && 0 < Size() < U32 - 1
      ensures vt.visualStart <= |vt.term.history| && vt.term.Valid() && vt.term.frame == vt.frame
    {
      assert Sound(vt.term, vt.Memory());
      MulUp(vt.frame.width, 1, vt.frame.height);
      MulUp(vt.frame.width, vt.frame.height, 0x7fff);
    }

    lemma Sized()
      requires Valid()
      ensures 0 < vt.frame.width && 0 < Size() < U32 - 1
    {
      ScreenSize();
    }

    lemma IsValid()
      requires Shows() && vt.Settled() && inversed && start < Size() && end < Size() < U32 - 1
      ensures Valid()
    {
    }

    /** inverseTextColor: flip the cells between two positions and repaint them. */
    method InverseTextColor(a: nat, b: nat)
      requires Shows() && vt.Settled() && a < Size() && b < Size()
      modifies `flips, vt`term, vt`panel, vt.text
      ensures Shows() && vt.Settled() && flips == old(flips) + [Flipping(vt.visualStart, a, b)]
    {
      FlipNext(plain, flips, Flipping(vt.visualStart, a, b));
      if a > b {
        FlipSpan(b, a);
      } else {
        FlipSpan(a, b);
      }
      flips := flips + [Flipping(vt.visualStart, a, b)];
    }

    method FlipSpan(s: nat, e: nat)
      requires vt.Settled() && s <= e < Size()
      modifies vt`term, vt`panel, vt.text
      ensures vt.Settled() && vt.term == Flipped(old(vt.term), vt.visualStart, Span(s, e))
      ensures vt.visualStart <= |old(vt.term).history| && old(vt.term).Valid()
    {
      ScreenSize();
      var sx, sy := Corner(s);
      var ex, ey := Corner(e);
      ReadingOrder(vt.frame.width, sy, sx, ey, ex);
      vt.InverseShown(sx, sy, ex, ey);
    }

    /** Column and row of a position. */
    method Corner(p: nat) returns (x: nat, y: nat)
      requires p < Size()
      ensures x < vt.frame.width && y < vt.frame.height && At(x, y) == p
    {
      assert 0 < vt.frame.width;
      x, y := p % vt.frame.width, p / vt.frame.width;
      RowAndColumn(vt.frame.width, p);
      ReadingOrder(vt.frame.width, vt.frame.height, 0, y, x);
    }

    lemma PositionOnScreen(x: nat, y: nat)
      requires x < vt.frame.width && y < vt.frame.height
      ensures At(x, y) < Size()
    {
      ReadingOrder(vt.frame.width, vt.frame.height, 0, y, x);
    }

    /** startTextSelect */
    method StartTextSelect(x: nat, y: nat)
      requires Valid() && vt.Settled() && !inversed && x < vt.frame.width && y < vt.frame.height
      modifies this, vt`term, vt`panel, vt.text
      ensures Valid() && vt.Settled() && plain == old(plain)
      ensures State() == StartAt(old(State()), At(x, y))
    {
      hide *;
      PositionOnScreen(x, y);
      StartAtPosition(At(x, y));
    }

    method StartAtPosition(p: nat)
      requires Valid() && vt.Settled() && !inversed && p < Size()
      modifies this, vt`term, vt`panel, vt.text
      ensures Valid() && vt.Settled() && plain == old(plain) && State() == StartAt(old(State()), p)
    {
      Sized();
      assert Shows();
      hide Shows, Valid, Size, OnScreen, VTerm.Settled;
      start, end, selecting := p, p, true;
      InverseTextColor(p, p);
      inversed := true;
      IsValid();
    }

    /** middleTextSelect: move the end of the selection. */
    method MiddleTextSelect(x: nat, y: nat)
      requires Valid() && selecting && x < vt.frame.width && y < vt.frame.height
      requires !StepsBelowZero(start, end, At(x, y))
      modifies this, vt`term, vt`panel, vt.text
      ensures Valid() && vt.Settled() && plain == old(plain)
      ensures At(x, y) < U32 - 1
      ensures State() == DragTo(old(State()), At(x, y))
    {
      hide *;
      PositionOnScreen(x, y);
      DragToPosition(At(x, y));
    }

    method DragToPosition(newEnd: nat)
      requires Valid() && selecting && newEnd < Size() && !StepsBelowZero(start, end, newEnd)
      modifies this, vt`term, vt`panel, vt.text
      ensures Valid() && vt.Settled() && plain == old(plain)
      ensures newEnd < U32 - 1 && State() == DragTo(old(State()), newEnd)
    {
      var spans := DragSpans(start, end, newEnd);
      DragInScreen(start, end, newEnd, Size());
      FlipSpans(spans);
      end := newEnd;
    }

    /** The one or two inverseTextColor calls of a move. */
    method FlipSpans(spans: seq<(nat, nat)>)
      requires Shows() && vt.Settled() && |spans| <= 2
      requires forall i :: 0 <= i < |spans| ==>
        spans[i].0 < Size() && spans[i].1 < Size()
      modifies `flips, vt`term, vt`panel, vt.text
      ensures Shows() && vt.Settled() && flips == old(flips) + FlippingsOf(vt.visualStart, spans)
    {
      ghost var was := flips;
      for i := 0 to |spans|
        invariant Shows() && vt.Settled() && flips == was + FlippingsOf(vt.visualStart, spans[..i])
      {
        FlippingsNext(was, vt.visualStart, spans, i);
        InverseTextColor(spans[i].0, spans[i].1);
      }
      assert spans[..|spans|] == spans;
    }

    /** resetTextSelect: the colours as they were, if the view is the one they were changed in. */
    method ResetTextSelect()
      requires Valid()
      modifies this, vt`term, vt`panel, vt.text
      ensures Valid() && plain == old(plain) && State() == Deselected(old(State())) && !inversed && !selecting
      ensures old(InPlace(State(), vt.frame.width)) ==> vt.term == plain
      ensures old(vt.Settled()) ==> vt.Settled()
    {
      ghost var s := State();
      TakeBack();
      if InPlace(s, vt.frame.width) {
        ResetInPlace(s, vt.frame.width);
        InPlaceShows(plain, State());
      }
    }

    method TakeBack()
      requires Valid()
      modifies this, vt`term, vt`panel, vt.text
      ensures Valid() && plain == old(plain) && State() == Deselected(old(State())) && !inversed && !selecting
      ensures old(vt.Settled()) ==> vt.Settled()
    {
      selecting := false;
      if inversed {
        inversed := false;
        InverseTextColor(start, end);
      }
    }

    /** Shift and a paging key: another view of the history, whatever is selected. */
    method HistoryScroll(num: int)
      requires Valid() && vt.Settled() && -0x8000_0000 < num < 0x8000_0000
      modifies vt`visualStart, vt`panel
      ensures Valid() && vt.Settled()
      ensures State() == old(State()).(view := ViewTarget(old(vt.visualStart), |plain.history|, false, num))
    {
      vt.HistoryDisplay(false, num);
    }

    /** textSelect for the left button, and the paging keys. */
    method TextSelect(e: UserEvent)
      requires Valid() && vt.Settled() && Allowed(State(), e, Size())
      modifies this, vt`term, vt`panel, vt`visualStart, vt.text
      ensures Valid() && vt.Settled() && plain == old(plain)
      ensures State() == Track(old(State()), e, Size(), |plain.history|)
    {
      match e
      case Press(p) => Restart(p);
      case Move(p) =>
        if selecting {
          DragOn(p);
        } else {
          Restart(p);
        }
      case Release =>
        selecting := false;
      case Page(num) =>
        HistoryScroll(num);
    }

    method Restart(p: nat)
      requires Valid() && vt.Settled() && p < Size()
      modifies this, vt`term, vt`panel, vt.text
      ensures Valid() && vt.Settled() && plain == old(plain) && State() == StartAt(Deselected(old(State())), p)
    {
      hide *;
      Sized();
      var x, y := Corner(p);
      ResetTextSelect();
      StartTextSelect(x, y);
    }

    method DragOn(p: nat)
      requires Valid() && selecting && p < Size() && !StepsBelowZero(start, end, p)
      modifies this, vt`term, vt`panel, vt.text
      ensures Valid() && vt.Settled() && plain == old(plain)
      ensures p < U32 - 1 && State() == DragTo(old(State()), p)
    {
      hide *;
      Sized();
      var x, y := Corner(p);
      MiddleTextSelect(x, y);
    }

    /** Any run of events: the display shows the text with the tracked cells flipped; and as long
        as the view was not moved under a selection those are the cells from where the last drag
        started to where it stands. */
    method Drag(events: seq<UserEvent>)
      requires Valid() && vt.Settled()
      requires AllAllowed(State(), events, Size(), |plain.history|)
      modifies this, vt`term, vt`panel, vt`visualStart, vt.text
      ensures Valid() && vt.Settled() && plain == old(plain) && vt.panel == View(vt.term, vt.visualStart)
      ensures State() == TrackAll(old(State()), events, Size(), |plain.history|)
      ensures vt.term == Flipped(plain, 0, Marked(flips, vt.frame.width))
      ensures
        old(InPlace(State(), vt.frame.width))
        && AllSteady(old(State()), events, Size(), |plain.history|)
        ==> vt.term == if inversed then Flipped(plain, vt.visualStart, Range(start, end)) else plain
    {
      ghost var s, size, total := State(), Size(), |plain.history|;
      HandleAll(events, size, total);
      if InPlace(s, vt.frame.width) && AllSteady(s, events, size, total) {
        TrackAllInPlace(s, events, vt.frame.width, size, total);
        InPlaceShows(plain, State());
      }
    }

    method HandleAll(events: seq<UserEvent>, ghost size: nat, ghost total: nat)
      requires Valid() && vt.Settled() && size == Size() && total == |plain.history|
      requires AllAllowed(State(), events, size, total)
      modifies this, vt`term, vt`panel, vt`visualStart, vt.text
      ensures Valid() && vt.Settled() && plain == old(plain) && State() == TrackAll(old(State()), events, size, total)
    {
      ghost var s := State();
      var rest := events;
      while rest != []
        invariant Valid() && vt.Settled() && plain == old(plain)
        invariant AllAllowed(State(), rest, size, total)
        invariant TrackAll(State(), rest, size, total) == TrackAll(s, events, size, total)
        decreases |rest|
      {
        TextSelect(rest[0]);
        rest := rest[1..];
      }
    }

    /** readyRead: output from the program first takes the selection's colours back. */
    method ReadyRead(actions: seq<Action>)
      requires Valid()
      modifies this, vt, vt.text, vt.lines, vt.dirtyStart, vt.dirtyEnd
      ensures Valid() && vt.Settled() && !inversed && !selecting && flips == [] && vt.term == plain
      ensures var reset := Deselected(old(State()));
        plain == Run(Flipped(old(plain), 0, Marked(reset.flips, vt.frame.width)), actions)
      ensures old(InPlace(State(), vt.frame.width)) ==> plain == Run(old(plain), actions)
      ensures vt.panel == Picture(plain.rows, plain.modes.inverse)
    {
      ResetTextSelect();
      vt.Input(actions);
      Accept();
    }

    /** What the terminal shows now is the text. */
    ghost method Accept()
      requires vt.Idle() && !inversed && !selecting
      requires start < Size() && end < Size()
      modifies `plain, `flips
      ensures Valid() && plain == vt.term && flips == []
    {
      plain, flips := vt.term, [];
      ScreenSize();
      FlippedNothing(plain, 0, Marked([], vt.frame.width));
    }
  }

  /** Dragging never leaves the screen, except below position 0. */
  lemma DragInScreen(start: nat, end: nat, newEnd: nat, size: nat)
    requires start < size && end < size && newEnd < size < U32 - 1 && !StepsBelowZero(start, end, newEnd)
    ensures forall i :: 0 <= i < |DragSpans(start, end, newEnd)| ==>
      DragSpans(start, end, newEnd)[i].0 < size && DragSpans(start, end, newEnd)[i].1 < size
  {
    hide DragSpans;
    DragForms(start, end, newEnd);
  }
}
