/** What each action does to the screen, cell by cell and register by register, and what a
    printed text looks like.  The laws are about `Step` and `Run` and use none of the
    operations `TermSpec` builds them from. */
module TermLaws {
  import opened Basics
  import opened Cells
  import opened TermSpec

  // --------------------------------------------------------------- what cells hold

  /** The looks of new text: the pen, with a colour in place of underlining or half intensity
      if one is set; half intensity goes first. */
  predicate InkAttr(inks: Inks, a: CharAttr) {
    var pen := inks.pen;
    var coloured := pen.underline && inks.underColor >= 0;
    var raised := pen.intensity == 0 && inks.halfColor >= 0;
    && a.fcolor == (if raised then inks.halfColor else if coloured then inks.underColor else pen.fcolor)
    && a.bcolor == pen.bcolor
    && a.intensity == (if raised then 1 else pen.intensity)
    && a.underline == (pen.underline && !coloured)
    && a.italic == pen.italic && a.blink == pen.blink && a.reverse == pen.reverse
  }

  /** The cell a character leaves. */
  predicate Inked(inks: Inks, ch: nat, c: Cell) {
    c.code == (if ch > 0xffff then 0xfffd else ch) && InkAttr(inks, c.attr)
  }

  /** An erased cell: a space in the pen's colours and blinking like it, the rest of it by default. */
  predicate Erased(base: CharAttr, pen: CharAttr, c: Cell) {
    && c.code == 0x20
    && c.attr.fcolor == pen.fcolor && c.attr.bcolor == pen.bcolor && c.attr.blink == pen.blink
    && c.attr.intensity == base.intensity && c.attr.italic == base.italic
    && c.attr.underline == base.underline && c.attr.reverse == base.reverse
  }

  /** A place on the screen, or nowhere. */
  type Place = Option<(int, int)>

  /** What a cell holds: what t had at that place, or what t erases cells to. */
  ghost predicate Holds(t: Term, c: Cell, at: Place)
    requires t.Valid()
  {
    if at.None? then Erased(t.frame.base, t.inks.pen, c)
    else && 0 <= at.value.0 < t.frame.height && 0 <= at.value.1 < t.frame.width
         && c == t.rows[at.value.0][at.value.1]
  }

  /** Every cell (y, x) of u holds what t had at from(y, x). */
  ghost predicate Rearranged(t: Term, u: Term, from: (int, int) -> Place)
    requires t.Valid()
  {
    && IsGrid(u.rows, t.frame.height, t.frame.width)
    && forall y, x :: 0 <= y < t.frame.height && 0 <= x < t.frame.width ==> Holds(t, u.rows[y][x], from(y, x))
  }

  /** u is t with its screen rearranged. */
  ghost predicate Redrawn(t: Term, u: Term, from: (int, int) -> Place)
    requires t.Valid()
  {
    u == t.(rows := u.rows) && Rearranged(t, u, from)
  }

  /** And the first n rows of t's screen went to the history, which keeps as many rows as it has room for. */
  ghost predicate HistoryGrows(t: Term, u: Term, n: nat)
    requires t.Valid() && n <= t.frame.height
  {
    u.history == (t.history + t.rows[..n])[Max(0, |t.history| + n - t.frame.cap)..]
  }

  lemma RedrawnTwice(t: Term, u: Term, v: Term, from: (int, int) -> Place, from': (int, int) -> Place)
    requires t.Valid() && u.Valid() && Redrawn(t, u, from) && Redrawn(u, v, from')
    ensures Redrawn(t, v, Via(from, from'))
  {
  }

  /** Rows first..last move up by num, down if it is negative; what they move from is erased. */
  function RowsMoved(first: int, last: int, num: int): (int, int) -> Place {
    (y, x) => if y < first || y > last then Some((y, x))
              else if first <= y + num <= last then Some((y + num, x)) else None
  }

  /** The cells of row y0 from column x0 on move left by num, right if it is negative. */
  function CellsMoved(y0: int, x0: int, width: int, num: int): (int, int) -> Place {
    (y, x) => if y != y0 || x < x0 then Some((y, x))
              else if x0 <= x + num < width then Some((y, x + num)) else None
  }

  /** The cells of a rectangle, corners included, are erased. */
  function AreaErased(x0: int, y0: int, x1: int, y1: int): (int, int) -> Place {
    (y, x) => if y0 <= y <= y1 && x0 <= x <= x1 then None else Some((y, x))
  }

  function Via(from: (int, int) -> Place, from': (int, int) -> Place): (int, int) -> Place {
    (y, x) => if from'(y, x).None? then None else from(from'(y, x).value.0, from'(y, x).value.1)
  }

  /** A missing parameter counts as one. */
  function AtLeastOne(n: int): int { if n == 0 then 1 else n }

  // ---------------------------------------------------- the operations on regions

  lemma StepIsEdit(t: Term, a: Action)
    requires t.Valid() && !IsCursorAction(a) && !IsModeAction(a)
    ensures Step(t, a) == StepEdit(t, a)
  {
    hide StepEdit, Term.Valid;
  }

  lemma NothingRedrawn(t: Term)
    requires t.Valid()
    ensures Redrawn(t, t, (y, x) => Some((y, x)))
  {
  }

  lemma AreaCleared(t: Term, x0: nat, y0: nat, x1: nat, y1: nat)
    requires t.Valid()
    ensures Redrawn(t, ClearArea(t, x0, y0, x1, y1), AreaErased(x0, y0, x1, y1))
  {
  }

  lemma TextShifted(t: Term, num: int)
    requires t.Valid() && t.cx < t.frame.width && t.cx - t.frame.width <= num <= t.frame.width - t.cx
    ensures Redrawn(t, ShiftText(t, t.cy, t.cx, t.frame.width - 1, -num), CellsMoved(t.cy, t.cx, t.frame.width, num))
  {
  }

  lemma RegionMoved(t: Term, start: nat, end: nat, num: int)
    requires t.Valid() && start <= end < t.frame.height && start - end <= num <= end - start
    ensures Redrawn(t, MoveRegion(t, start, end, num), RowsMoved(start, end, num))
  {
  }

  /** Moving a part by all of it, or more, erases it. */
  lemma AllRowsMoved(t: Term, start: nat, end: nat, num: int)
    requires t.Valid() && start <= end < t.frame.height && (num > end - start || -num > end - start)
    ensures Redrawn(t, ClearArea(t, 0, start, t.frame.width - 1, end), RowsMoved(start, end, num))
  {
    AreaCleared(t, 0, start, t.frame.width - 1, end);
    hide ClearArea, Term.Valid, Holds;
  }

  lemma AllCellsMoved(t: Term, num: int)
    requires t.Valid() && (num >= t.frame.width - t.cx || -num >= t.frame.width - t.cx)
    ensures Redrawn(t, ClearArea(t, t.cx, t.cy, t.frame.width - 1, t.cy), CellsMoved(t.cy, t.cx, t.frame.width, num))
  {
    AreaCleared(t, t.cx, t.cy, t.frame.width - 1, t.cy);
    hide ClearArea, Term.Valid, Holds;
  }

  lemma NoRowsMoved(t: Term, u: Term, start: nat, end: nat, num: int)
    requires t.Valid() && start > end && u == t.(rows := u.rows) && u.rows == t.rows
    ensures Redrawn(t, u, RowsMoved(start, end, num))
  {
  }

  lemma RegionRecorded(t: Term, start: nat, num: int)
    requires t.Valid() && num <= t.frame.height
    ensures var u := TermSpec.Recorded(t, start, num);
      u == t.(history := u.history) && HistoryGrows(t, u, if start == 0 && num > 0 then num else 0)
  {
  }

  /** Scrolling a region by less than all of it; what leaves the top of the screen is recorded. */
  lemma RegionScrolled(t: Term, start: nat, end: nat, num: int)
    requires t.Valid() && start <= end < t.frame.height && start - end <= num <= end - start
    ensures var u := ScrollRegion(t, start, end, num);
      && Redrawn(t.(history := u.history), u, RowsMoved(start, end, num))
      && HistoryGrows(t, u, if start == 0 && num > 0 then num else 0)
  {
    if num == 0 {
      NothingRedrawn(t);
    } else {
      RegionIsClamped(t, start, end, num);
      var u := TermSpec.Recorded(t, start, num);
      RegionRecorded(t, start, num);
      RegionMoved(u, start, end, num);
      hide Holds, Term.Valid, MoveRegion, TermSpec.Recorded, ScrollRegion;
    }
  }

  // ------------------------------------------------------------------------ printing

  /** A character goes to the cursor, with the pen's looks; the cursor steps past it, possibly past
      the last column.  No other cell and no other register changes. */
  lemma Prints(t: Term, ch: nat)
    requires t.Valid() && t.cx < t.frame.width
    ensures var u := Step(t, Print(ch));
      && u == t.(rows := u.rows, cx := t.cx + 1)
      && Inked(t.inks, ch, u.rows[t.cy][t.cx])
      && forall y, x :: 0 <= y < t.frame.height && 0 <= x < t.frame.width && (y != t.cy || x != t.cx) ==>
           u.rows[y][x] == t.rows[y][x]
  {
  }

  /** With the cursor past the last column it overwrites the last column, or goes to the next line. */
  lemma PrintsPastEnd(t: Term, ch: nat)
    requires t.Valid() && t.cx == t.frame.width
    ensures !t.modes.autoWrap ==> Step(t, Print(ch)) == Step(t.(cx := t.frame.width - 1), Print(ch))
    ensures t.modes.autoWrap ==>
      Step(t, NextLine).cx == 0 && Step(t, Print(ch)) == Step(Step(t, NextLine), Print(ch))
  {
    StepIsEdit(t, Print(ch));
    StepIsEdit(t, NextLine);
    StepIsEdit(Step(t, NextLine), Print(ch));
    hide Step, DoNextLine, PutCell;
    if !t.modes.autoWrap {
      var u := t.(cx := t.frame.width - 1);
      assert u.Valid();
      StepIsEdit(u, Print(ch));
    }
  }

  // ------------------------------------------------------------------------- erasing

  lemma ErasesLine(t: Term, which: u16)
    requires t.Valid()
    ensures Redrawn(t, Step(t, EraseLine(which)), (y, x) =>
      if y == t.cy && ((which == 0 && t.cx <= x) || (which == 1 && x <= t.cx) || which == 2) then None
      else Some((y, x)))
  {
    StepIsEdit(t, EraseLine(which));
    hide Step, ClearArea, Term.Valid, Holds;
    if which == 0 {
      AreaCleared(t, t.cx, t.cy, t.frame.width - 1, t.cy);
    } else if which == 1 {
      AreaCleared(t, 0, t.cy, t.cx, t.cy);
    } else if which == 2 {
      AreaCleared(t, 0, t.cy, t.frame.width - 1, t.cy);
    } else {
      NothingRedrawn(t);
    }
  }

  lemma BelowErased(t: Term)
    requires t.Valid()
    ensures Redrawn(t, EraseBelow(t), Via(AreaErased(t.cx, t.cy, t.frame.width - 1, t.cy),
                                          AreaErased(0, t.cy + 1, t.frame.width - 1, t.frame.height - 1)))
  {
    var u := ClearArea(t, t.cx, t.cy, t.frame.width - 1, t.cy);
    AreaCleared(t, t.cx, t.cy, t.frame.width - 1, t.cy);
    EraseBelowParts(t);
    RowsBelowCleared(t, u);
    hide *;
    RedrawnTwice(t, u, EraseBelow(t), AreaErased(t.cx, t.cy, t.frame.width - 1, t.cy),
                 AreaErased(0, t.cy + 1, t.frame.width - 1, t.frame.height - 1));
  }

  lemma RowsBelowCleared(t: Term, u: Term)
    requires t.Valid() && u.Valid() && u.frame == t.frame && u.cy == t.cy
    ensures Redrawn(u, RowsBelowErased(u), AreaErased(0, t.cy + 1, t.frame.width - 1, t.frame.height - 1))
  {
    AreaCleared(u, 0, t.cy + 1, t.frame.width - 1, t.frame.height - 1);
    hide ClearArea, Term.Valid, Holds;
  }

  lemma AboveErased(t: Term)
    requires t.Valid()
    ensures Redrawn(t, EraseAbove(t), Via(AreaErased(0, t.cy, t.cx, t.cy),
                                          AreaErased(0, 0, t.frame.width - 1, t.cy - 1)))
  {
    var u := ClearArea(t, 0, t.cy, t.cx, t.cy);
    AreaCleared(t, 0, t.cy, t.cx, t.cy);
    if t.cy > 0 {
      AreaCleared(u, 0, 0, t.frame.width - 1, t.cy - 1);
    }
    hide ClearArea, Term.Valid, Holds;
  }

  lemma ErasesDisplay(t: Term, which: u16)
    requires t.Valid()
    ensures Redrawn(t, Step(t, EraseDisplay(which)), (y, x) =>
      if (which == 0 && (y > t.cy || (y == t.cy && x >= t.cx)))
         || (which == 1 && (y < t.cy || (y == t.cy && x <= t.cx))) || which == 2 then None
      else Some((y, x)))
  {
    StepIsEdit(t, EraseDisplay(which));
    hide Step, ClearArea, EraseBelow, EraseAbove, Term.Valid, Holds;
    if which == 0 {
      BelowErased(t);
    } else if which == 1 {
      AboveErased(t);
    } else if which == 2 {
      AreaCleared(t, 0, 0, t.frame.width - 1, t.frame.height - 1);
    } else {
      NothingRedrawn(t);
    }
  }

  lemma ErasesChars(t: Term, n: u16)
    requires t.Valid()
    ensures var k := AtLeastOne(n); Redrawn(t, Step(t, EraseChar(n)),
      (y, x) => if y == t.cy && t.cx <= x < t.cx + k then None else Some((y, x)))
  {
    StepIsEdit(t, EraseChar(n));
    AreaCleared(t, t.cx, t.cy, EraseEnd(t.cx, t.frame.width, n), t.cy);
    hide Step, ClearArea, Term.Valid, Holds;
  }

  // -------------------------------------------------------------- inserting, deleting

  lemma InsertsChars(t: Term, n: u16)
    requires t.Valid()
    ensures Redrawn(t, Step(t, InsertChar(n)), CellsMoved(t.cy, t.cx, t.frame.width, -AtLeastOne(n)))
  {
    StepIsEdit(t, InsertChar(n));
    CharsShifted(t, n, true);
    hide Step, DoShiftChars, CellsMoved, Redrawn, Term.Valid;
  }

  lemma DeletesChars(t: Term, n: u16)
    requires t.Valid()
    ensures Redrawn(t, Step(t, DeleteChar(n)), CellsMoved(t.cy, t.cx, t.frame.width, AtLeastOne(n)))
  {
    StepIsEdit(t, DeleteChar(n));
    CharsShifted(t, n, false);
    hide Step, DoShiftChars, CellsMoved, Redrawn, Term.Valid;
  }

  lemma CharsShifted(t: Term, n: u16, right: bool)
    requires t.Valid()
    ensures Redrawn(t, DoShiftChars(t, n, right),
                    CellsMoved(t.cy, t.cx, t.frame.width, if right then -AtLeastOne(n) else AtLeastOne(n)))
  {
    var num := if right then -AtLeastOne(n) else AtLeastOne(n);
    ShiftCharsIs(t, n, right, num);
    hide DoShiftChars, ClearArea, ShiftText, CellsMoved, Redrawn, Term.Valid;
    if AtLeastOne(n) >= t.frame.width - t.cx {
      AllCellsMoved(t, num);
    } else {
      TextShifted(t, num);
    }
  }

  lemma ShiftCharsIs(t: Term, n: u16, right: bool, num: int)
    requires t.Valid() && num == if right then -AtLeastOne(n) else AtLeastOne(n)
    ensures DoShiftChars(t, n, right) ==
      if AtLeastOne(n) >= t.frame.width - t.cx then ClearArea(t, t.cx, t.cy, t.frame.width - 1, t.cy)
      else ShiftText(t, t.cy, t.cx, t.frame.width - 1, -num)
  {
    hide ClearArea, ShiftText;
  }

  /** Inserting lines moves the rows from the cursor's to the bottom margin down; below it nothing happens. */
  lemma InsertsLines(t: Term, n: u16)
    requires t.Valid()
    ensures Redrawn(t, Step(t, InsertLine(n)), RowsMoved(t.cy, t.bot, -AtLeastOne(n)))
  {
    StepIsEdit(t, InsertLine(n));
    ShiftLinesIs(t, n, true);
    hide Step, ClearArea, ScrollRegion, DoShiftLines, RowsMoved, Redrawn, Term.Valid;
    if t.cy > t.bot {
      NoRowsMoved(t, t, t.cy, t.bot, -AtLeastOne(n));
    } else if Count(n) > t.bot - t.cy {
      AllRowsMoved(t, t.cy, t.bot, -AtLeastOne(n));
    } else {
      RegionScrolled(t, t.cy, t.bot, -AtLeastOne(n));
      SameHistory(t, ScrollRegion(t, t.cy, t.bot, -AtLeastOne(n)));
    }
  }

  /** Deleting lines moves those below up; deleted at the top of the screen, and not up to the margin
      or beyond, they are recorded. */
  lemma DeletesLines(t: Term, n: u16)
    requires t.Valid()
    ensures var u := Step(t, DeleteLine(n));
      && Redrawn(t.(history := u.history), u, RowsMoved(t.cy, t.bot, AtLeastOne(n)))
      && HistoryGrows(t, u, if t.cy == 0 && AtLeastOne(n) <= t.bot then AtLeastOne(n) else 0)
  {
    StepIsEdit(t, DeleteLine(n));
    ShiftLinesIs(t, n, false);
    hide Step, ClearArea, ScrollRegion, DoShiftLines, RowsMoved, Redrawn, HistoryGrows, Term.Valid;
    if t.cy > t.bot {
      NoRowsMoved(t, t, t.cy, t.bot, AtLeastOne(n));
      NothingRecorded(t, t);
    } else if Count(n) > t.bot - t.cy {
      AllRowsMoved(t, t.cy, t.bot, AtLeastOne(n));
      HistoryKept(t, t.cy, t.bot);
      NothingRecorded(t, ClearArea(t, 0, t.cy, t.frame.width - 1, t.bot));
    } else {
      RegionScrolled(t, t.cy, t.bot, AtLeastOne(n));
    }
  }

  lemma ShiftLinesIs(t: Term, n: u16, down: bool)
    requires t.Valid()
    ensures DoShiftLines(t, n, down) ==
      if t.cy > t.bot then t
      else if Count(n) > t.bot - t.cy then ClearArea(t, 0, t.cy, t.frame.width - 1, t.bot)
      else ScrollRegion(t, t.cy, t.bot, if down then -AtLeastOne(n) else AtLeastOne(n))
  {
    hide ClearArea, ScrollRegion, Term.Valid;
  }

  lemma NothingRecorded(t: Term, u: Term)
    requires t.Valid() && u.history == t.history
    ensures HistoryGrows(t, u, 0) && t.(history := u.history) == t
  {
  }

  lemma SameHistory(t: Term, u: Term)
    requires t.Valid() && HistoryGrows(t, u, 0)
    ensures t.(history := u.history) == t
  {
  }

  lemma HistoryKept(t: Term, first: nat, last: nat)
    requires t.Valid()
    ensures ClearArea(t, 0, first, t.frame.width - 1, last).history == t.history
  {
  }

  // -------------------------------------------------------------------- line feeds

  /** Above the bottom margin's row a line feed only moves the cursor down; at it or below, the
      rows between the margins move up by one, and the top row of the screen is recorded. */
  lemma LfFeeds(t: Term)
    requires t.Valid()
    ensures var u := Step(t, Lf);
      && u == t.(rows := u.rows, history := u.history, cx := u.cx, cy := u.cy)
      && u.cy == (if t.cy < t.bot then t.cy + 1 else t.cy)
      && u.cx == (if t.modes.crlf then 0 else if t.cy < t.bot && t.cx == t.frame.width then t.cx - 1 else t.cx)
      && (if t.cy >= t.bot && t.top < t.bot then Rearranged(t, u, RowsMoved(t.top, t.bot, 1)) else u.rows == t.rows)
      && HistoryGrows(t, u, if t.cy >= t.bot && t.top == 0 then 1 else 0)
  {
    StepIsEdit(t, Lf);
    hide Step, ScrollRegion, Term.Valid, Holds, RowsMoved;
    if t.cy >= t.bot {
      FeedRedraws(t, 1);
    }
  }

  /** Scrolling the margin region by one row: margins that enclose no two rows move nothing. */
  lemma FeedRedraws(t: Term, num: int)
    requires t.Valid() && (num == 1 || num == -1)
    ensures var u := ScrollRegion(t, t.top, t.bot, num);
      && (if t.top < t.bot then Redrawn(t.(history := u.history), u, RowsMoved(t.top, t.bot, num))
          else u == t.(history := u.history))
      && HistoryGrows(t, u, if num == 1 && t.top == 0 then 1 else 0)
  {
    if t.top < t.bot {
      RegionScrolled(t, t.top, t.bot, num);
      hide ScrollRegion, Redrawn, HistoryGrows, RowsMoved;
    } else if t.top == t.bot {
      RegionIsClamped(t, t.top, t.bot, num);
      RegionRecorded(t, t.top, num);
      hide TermSpec.Recorded, HistoryGrows;
    }
  }

  /** The next line is a line feed with the cursor in the first column. */
  lemma NextLineFeeds(t: Term)
    requires t.Valid()
    ensures Step(t, NextLine) == Step(t, Lf).(cx := 0)
  {
    StepIsEdit(t, NextLine);
    StepIsEdit(t, Lf);
    hide Step, ScrollRegion;
  }

  lemma IndexUpFeeds(t: Term)
    requires t.Valid()
    ensures var u := Step(t, IndexUp);
      && u == t.(rows := u.rows, cx := u.cx, cy := u.cy)
      && u.cy == (if t.cy > t.top then t.cy - 1 else t.cy)
      && u.cx == (if t.cy > t.top && t.cx == t.frame.width then t.cx - 1 else t.cx)
      && if t.cy <= t.top < t.bot then Rearranged(t, u, RowsMoved(t.top, t.bot, -1)) else u.rows == t.rows
  {
    StepIsEdit(t, IndexUp);
    hide Step, ScrollRegion, Term.Valid, Holds, RowsMoved;
    if t.cy <= t.top {
      FeedRedraws(t, -1);
    }
  }

  // --------------------------------------------------------------------- the cursor

  /** The cursor is at column x of row y, or as close to it as the screen allows. */
  predicate Reached(u: Term, x: int, y: int) {
    && u.cx == (if x < u.frame.width then x else u.frame.width - 1)
    && u.cy == (if y < u.frame.height then y else u.frame.height - 1)
  }

  /** Steps to the right and down are 16-bit sums. */
  function Wraps(n: int): int { if n < 0x1_0000 then n else n - 0x1_0000 }

  /** The cursor actions move the cursor, held within the screen and not the margins, and change nothing else. */
  lemma CursorMovesInRow(t: Term, a: Action)
    requires t.Valid() && (a.Cr? || a.Bs? || a.CursorLeft? || a.CursorRight? || a.CursorPositionCol?)
    ensures var u := Step(t, a);
      && u == t.(cx := u.cx, cy := u.cy)
      && (a.Cr? ==> Reached(u, 0, t.cy))
      && (a.Bs? ==> Reached(u, Max(t.cx - 1, 0), t.cy))
      && (a.CursorLeft? ==> Reached(u, Max(t.cx - AtLeastOne(a.n), 0), t.cy))
      && (a.CursorRight? ==> Reached(u, Wraps(t.cx + AtLeastOne(a.n)), t.cy))
      && (a.CursorPositionCol? ==> Reached(u, AtLeastOne(a.col) - 1, t.cy))
  {
    StepIsMove(t, a);
    hide Step, MoveCursor, Reached, Term.Valid;
  }

  lemma CursorMovesUp(t: Term, a: Action)
    requires t.Valid() && (a.CursorUp? || a.CursorUpCr?)
    ensures var u := Step(t, a);
      && u == t.(cx := u.cx, cy := u.cy)
      && Reached(u, if a.CursorUp? then t.cx else 0, Max(t.cy - AtLeastOne(a.n), 0))
  {
    StepIsMove(t, a);
    hide Step, MoveCursor, Reached, Term.Valid;
  }

  lemma DownTarget(t: Term, a: Action)
    requires t.Valid() && (a.CursorDown? || a.CursorDownCr?)
    ensures Target(t, a) == (if a.CursorDown? then t.cx else 0, Wraps(t.cy + AtLeastOne(a.n)))
  {
  }

  lemma CursorMovesDown(t: Term, a: Action)
    requires t.Valid() && (a.CursorDown? || a.CursorDownCr?)
    ensures var u := Step(t, a);
      && u == t.(cx := u.cx, cy := u.cy)
      && Reached(u, if a.CursorDown? then t.cx else 0, Wraps(t.cy + AtLeastOne(a.n)))
  {
    DownTarget(t, a);
    StepIsMove(t, a);
    hide Step, Target, MoveCursor, Reached, Term.Valid;
  }

  lemma PlaceTarget(t: Term, a: Action)
    requires t.Valid() && (a.CursorPosition? || a.CursorPositionRow?)
    ensures a.CursorPosition? ==>
      Target(t, a) == (AtLeastOne(a.col) - 1, Wraps(AtLeastOne(a.row) - 1 + if t.modes.origin then t.top else 0))
    ensures a.CursorPositionRow? ==> Target(t, a) == (t.cx, AtLeastOne(a.row) - 1)
  {
  }

  /** Rows are counted from the top margin in origin mode, but not when only the row is given. */
  lemma CursorIsPlaced(t: Term, a: Action)
    requires t.Valid() && (a.CursorPosition? || a.CursorPositionRow?)
    ensures var u := Step(t, a);
      && u == t.(cx := u.cx, cy := u.cy)
      && (a.CursorPosition? ==>
           Reached(u, AtLeastOne(a.col) - 1, Wraps(AtLeastOne(a.row) - 1 + if t.modes.origin then t.top else 0)))
      && (a.CursorPositionRow? ==> Reached(u, t.cx, AtLeastOne(a.row) - 1))
  {
    PlaceTarget(t, a);
    StepIsMove(t, a);
    hide Step, Target, MoveCursor, Reached, Term.Valid;
  }

  lemma StepIsMove(t: Term, a: Action)
    requires t.Valid() && IsCursorAction(a) && !a.RestoreCursor?
    ensures var u := Step(t, a); u == t.(cx := u.cx, cy := u.cy) && Reached(u, Target(t, a).0, Target(t, a).1)
  {
    CursorMoved(t, Target(t, a).0, Target(t, a).1);
    hide Target, MoveCursor, Reached, Term.Valid;
  }

  lemma CursorMoved(t: Term, x: nat, y: nat)
    requires t.Valid()
    ensures var u := MoveCursor(t, x, y); u == t.(cx := u.cx, cy := u.cy) && Reached(u, x, y)
  {
  }

  lemma CursorRestores(t: Term)
    requires t.Valid()
    ensures var u := Step(t, RestoreCursor);
      && u == t.(cx := u.cx, cy := u.cy, inks := t.inks.(pen := t.inks.savedPen))
      && Reached(u, t.savedX, t.savedY)
  {
  }

  // ---------------------------------------------------------------------- registers

  lemma ModeSet(t: Term, a: Action)
    requires t.Valid() && (a.SetCrlf? || a.SetOrigin? || a.SetAutoWrap?)
    ensures a.SetCrlf? ==> Step(t, a) == t.(modes := t.modes.(crlf := a.on))
    ensures a.SetOrigin? ==> Step(t, a) == t.(modes := t.modes.(origin := a.on))
    ensures a.SetAutoWrap? ==> Step(t, a) == t.(modes := t.modes.(autoWrap := a.on))
  {
    StepIsMode(t, a);
    hide Term.Valid, Step, StepMode;
  }

  lemma InverseSet(t: Term, on: bool)
    requires t.Valid()
    ensures Step(t, SetInverse(on)) == t.(modes := t.modes.(inverse := on))
  {
    StepIsEdit(t, SetInverse(on));
    hide Term.Valid, Step;
  }

  /** A colour beyond the eight is ignored. */
  lemma PenSet(t: Term, a: Action)
    requires t.Valid() && (a.SetPen? || a.SetUnderColor? || a.SetHalfColor?)
    ensures a.SetPen? ==> Step(t, a) == t.(inks := t.inks.(pen := a.attr))
    ensures a.SetUnderColor? ==> Step(t, a) == if a.color < 8 then t.(inks := t.inks.(underColor := a.color)) else t
    ensures a.SetHalfColor? ==> Step(t, a) == if a.color < 8 then t.(inks := t.inks.(halfColor := a.color)) else t
  {
    StepIsMode(t, a);
    hide Term.Valid, Step, StepMode;
  }

  lemma StepIsMode(t: Term, a: Action)
    requires t.Valid() && IsModeAction(a) && !a.SaveCursor?
    ensures Step(t, a) == t.(inks := StepInks(t.inks, a), modes := StepModes(t.modes, a))
  {
    StepModeParts(t, a);
    hide Term.Valid, StepMode, StepInks, StepModes;
  }

  lemma CursorSaves(t: Term)
    requires t.Valid()
    ensures Step(t, SaveCursor) == t.(savedX := t.cx, savedY := t.cy, inks := t.inks.(savedPen := t.inks.pen))
  {
  }

  /** The margins are set, and a cursor outside them goes to the nearer one. */
  lemma MarginsTake(t: Term, first: u16, last: u16)
    requires t.Valid()
    ensures var u := Step(t, SetMargins(first, last));
      && u == t.(top := u.top, bot := u.bot, cx := u.cx, cy := u.cy)
      && u.top == AtLeastOne(first) - 1
      && u.bot == (if 1 <= last <= t.frame.height then last else t.frame.height) - 1
      && u.cy == Min(Max(t.cy, u.top), u.bot)
      && u.cx == if t.cx == t.frame.width && (t.cy < u.top || t.cy > u.bot) then t.cx - 1 else t.cx
  {
  }

  lemma ScreenAligned(t: Term)
    requires t.Valid()
    ensures var u := Step(t, ScreenAlign);
      && u == t.(rows := u.rows)
      && IsGrid(u.rows, t.frame.height, t.frame.width)
      && forall y, x :: 0 <= y < t.frame.height && 0 <= x < t.frame.width ==> Inked(t.inks, 0x45, u.rows[y][x])
  {
  }

  /** A new terminal, or one that was reset. */
  ghost predicate Fresh(f: Frame, u: Term) {
    && u.frame == f
    && IsGrid(u.rows, f.height, f.width)
    && (forall y, x :: 0 <= y < f.height && 0 <= x < f.width ==> u.rows[y][x] == Cell(0x20, f.base))
    && u.cx == u.cy == u.savedX == u.savedY == u.top == 0 && u.bot == f.height - 1
    && u.inks.pen == u.inks.savedPen == f.base && u.inks.underColor < 0 && u.inks.halfColor < 0
    && !u.modes.inverse && !u.modes.crlf && u.modes.autoWrap && !u.modes.origin
  }

  lemma NewIsFresh(f: Frame)
    requires FrameOk(f)
    ensures Fresh(f, Initial(f)) && Initial(f).history == []
  {
  }

  lemma ResetIsFresh(t: Term)
    requires t.Valid()
    ensures Fresh(t.frame, Step(t, Reset)) && Step(t, Reset).history == t.history
  {
  }

  // ------------------------------------------------------------------ printed texts

  function Typed(text: seq<nat>): (actions: seq<Action>)
    ensures |actions| == |text|
  {
    seq(|text|, k requires 0 <= k < |text| => Print(text[k]))
  }

  /** u is t with a text written from the top left corner on: its characters stand in the cells in
      reading order, the other cells are as they were, and the cursor is just behind the last one. */
  ghost predicate Written(t: Term, text: seq<nat>, u: Term)
    requires t.Valid()
  {
    var w := t.frame.width;
    && u == t.(rows := u.rows, cx := u.cx, cy := u.cy)
    && IsGrid(u.rows, t.frame.height, w)
    && u.cy * w + u.cx == |text|
    && forall y, x :: 0 <= y < t.frame.height && 0 <= x < w ==> HoldsText(t, text, y, x, u.rows[y][x])
  }

  /** What a text leaves in a cell. */
  ghost predicate HoldsText(t: Term, text: seq<nat>, y: int, x: int, c: Cell)
    requires t.Valid() && 0 <= y < t.frame.height && 0 <= x < t.frame.width
  {
    var k := y * t.frame.width + x;
    if 0 <= k < |text| then Inked(t.inks, text[k], c) else c == t.rows[y][x]
  }

  lemma PrintsNext(t: Term, text: seq<nat>, u: Term, ch: nat)
    requires t.Valid() && u.Valid() && Written(t, text, u) && u.cx < t.frame.width
    ensures Written(t, text + [ch], Step(u, Print(ch)))
  {
    var v := Step(u, Print(ch));
    GridOf(v);
    Prints(u, ch);
    CellsPrinted(t, text, u, ch, v);
    hide Step, Inked, Term.Valid, HoldsText;
  }

  lemma CellsPrinted(t: Term, text: seq<nat>, u: Term, ch: nat, v: Term)
    requires t.Valid() && Written(t, text, u) && u.cx < t.frame.width
    requires IsGrid(v.rows, t.frame.height, t.frame.width) && u.cy < t.frame.height
    requires Inked(t.inks, ch, v.rows[u.cy][u.cx])
    requires forall y, x :: 0 <= y < t.frame.height && 0 <= x < t.frame.width && (y != u.cy || x != u.cx) ==>
      v.rows[y][x] == u.rows[y][x]
    ensures forall y, x :: 0 <= y < t.frame.height && 0 <= x < t.frame.width ==>
      HoldsText(t, text + [ch], y, x, v.rows[y][x])
  {
    hide Inked, HoldsText, Term.Valid;
    forall y, x | 0 <= y < t.frame.height && 0 <= x < t.frame.width
      ensures HoldsText(t, text + [ch], y, x, v.rows[y][x])
    {
      SamePlace(t.frame.width, y, x, u.cy, u.cx);
      CellPrinted(t, text, u, ch, v, y, x);
    }
  }

  lemma GridOf(t: Term)
    requires t.Valid()
    ensures IsGrid(t.rows, t.frame.height, t.frame.width)
  {
  }

  lemma CellPrinted(t: Term, text: seq<nat>, u: Term, ch: nat, v: Term, y: nat, x: nat)
    requires t.Valid() && Written(t, text, u) && y < t.frame.height && x < t.frame.width
    requires IsGrid(v.rows, t.frame.height, t.frame.width)
    requires y * t.frame.width + x == |text| <==> y == u.cy && x == u.cx
    requires if y == u.cy && x == u.cx then Inked(t.inks, ch, v.rows[y][x]) else v.rows[y][x] == u.rows[y][x]
    ensures HoldsText(t, text + [ch], y, x, v.rows[y][x])
  {
    hide Inked, Term.Valid;
    assert HoldsText(t, text, y, x, u.rows[y][x]);
  }

  lemma SamePlace(w: nat, y: nat, x: nat, y': nat, x': nat)
    requires x < w && x' < w
    ensures y * w + x == y' * w + x' <==> y == y' && x == x'
  {
    if y < y' {
      MulUp(w, y + 1, y');
    } else if y' < y {
      MulUp(w, y' + 1, y);
    }
  }

  /** With room left, the cursor goes from the end of a row to the next one. */
  lemma WrapsNext(t: Term, text: seq<nat>, u: Term)
    requires t.Valid() && u.Valid() && Written(t, text, u) && u.cx == t.frame.width
    requires t.bot == t.frame.height - 1 && |text| < t.frame.width * t.frame.height
    ensures Written(t, text, Step(u, NextLine)) && Step(u, NextLine).cx == 0
  {
    RoomBelow(t, text, u);
    GoesToNextLine(u);
    hide Step, HoldsText, Term.Valid;
  }

  lemma RoomBelow(t: Term, text: seq<nat>, u: Term)
    requires t.Valid() && u.Valid() && Written(t, text, u) && u.cx == t.frame.width
    requires |text| < t.frame.width * t.frame.height
    ensures u.cy + 1 < t.frame.height && (u.cy + 1) * t.frame.width + 0 == |text|
  {
    hide Term.Valid, HoldsText, IsGrid;
    if u.cy + 1 >= t.frame.height {
      MulUp(t.frame.width, t.frame.height, u.cy + 1);
    }
  }

  lemma GoesToNextLine(u: Term)
    requires u.Valid() && u.cy < u.bot
    ensures Step(u, NextLine) == u.(cx := 0, cy := u.cy + 1)
  {
    NextLineFeeds(u);
    LfFeeds(u);
    hide Step, Term.Valid, Rearranged;
  }

  /** A text that fits, printed from the top left corner with wrapping on, is on the screen as it reads. */
  lemma {:induction false} PrintsText(t: Term, text: seq<nat>)
    requires t.Valid() && t.cx == t.cy == 0 && t.bot == t.frame.height - 1 && t.modes.autoWrap
    requires |text| <= t.frame.width * t.frame.height
    ensures Written(t, text, Run(t, Typed(text)))
  {
    hide Written, Step, Term.Valid;
    if text == [] {
      NothingWritten(t);
    } else {
      var n := |text| - 1;
      var u := Run(t, Typed(text[..n]));
      PrintsText(t, text[..n]);
      TypedNext(t, text);
      CursorInside(t, text[..n], u);
      if u.cx < t.frame.width {
        PrintsNext(t, text[..n], u, text[n]);
      } else {
        PrintsPastEnd(u, text[n]);
        WrapsNext(t, text[..n], u);
        PrintsNext(t, text[..n], Step(u, NextLine), text[n]);
      }
      assert text[..n] + [text[n]] == text;
    }
  }

  lemma CursorInside(t: Term, text: seq<nat>, u: Term)
    requires t.Valid() && u.Valid() && Written(t, text, u)
    ensures u.frame == t.frame && u.modes == t.modes && u.cx <= t.frame.width
  {
  }

  lemma NothingWritten(t: Term)
    requires t.Valid() && t.cx == t.cy == 0
    ensures Written(t, [], Run(t, Typed([])))
  {
  }

  lemma TypedNext(t: Term, text: seq<nat>)
    requires t.Valid() && text != []
    ensures var n := |text| - 1; Run(t, Typed(text)) == Step(Run(t, Typed(text[..n])), Print(text[n]))
  {
    hide *;
    TypedParts(text);
    RunNext(t, Typed(text));
  }

  lemma TypedParts(text: seq<nat>)
    requires text != []
    ensures var n := |text| - 1; Typed(text)[..n] == Typed(text[..n]) && Typed(text)[n] == Print(text[n])
  {
  }

  lemma RunNext(t: Term, actions: seq<Action>)
    requires t.Valid() && actions != []
    ensures var n := |actions| - 1; Run(t, actions) == Step(Run(t, actions[..n]), actions[n])
  {
    hide Step, Term.Valid;
  }

  /** A new terminal shows it: character k is in column k % width of row k / width, everything else is blank. */
  lemma NewTerminalPrints(f: Frame, text: seq<nat>, k: nat)
    requires FrameOk(f) && |text| <= f.width * f.height && k < f.width * f.height
    ensures var rows := Run(Initial(f), Typed(text)).rows;
      && IsGrid(rows, f.height, f.width) && 0 <= k / f.width < f.height
      && rows[k / f.width][k % f.width]
         == Cell(if k >= |text| then 0x20 else if text[k] > 0xffff then 0xfffd else text[k], f.base)
  {
    RowOf(f.width, f.height, k);
    NewIsFresh(f);
    PrintsText(Initial(f), text);
    GridOf(Run(Initial(f), Typed(text)));
    NewTerminalCell(f, Initial(f), text, Run(Initial(f), Typed(text)), k / f.width, k % f.width);
    hide Run, Initial, Written, Fresh, Typed;
  }

  lemma RowOf(width: nat, height: nat, k: nat)
    requires 0 < width && k < width * height
    ensures 0 <= k / width < height && 0 <= k % width < width && k / width * width + k % width == k
  {
    if k / width >= height {
      MulUp(width, height, k / width);
    }
  }

  lemma NewTerminalCell(f: Frame, t: Term, text: seq<nat>, u: Term, y: nat, x: nat)
    requires t.Valid() && Fresh(f, t) && Written(t, text, u) && y < f.height && x < f.width
    ensures var k := y * f.width + x;
      u.rows[y][x] == Cell(if k >= |text| then 0x20 else if text[k] > 0xffff then 0xfffd else text[k], f.base)
  {
    hide Term.Valid;
    assert 0 <= y * f.width + x;
    assert HoldsText(t, text, y, x, u.rows[y][x]);
  }

  // ------------------------------------------------------- saving and restoring

  ghost predicate SameSaved(t: Term, u: Term) {
    u.frame == t.frame && u.savedX == t.savedX && u.savedY == t.savedY && u.inks.savedPen == t.inks.savedPen
  }

  lemma StepKeepsSaved(t: Term, a: Action)
    requires t.Valid() && !a.SaveCursor? && !a.Reset?
    ensures SameSaved(t, Step(t, a))
  {
    if IsCursorAction(a) {
      assert Step(t, a) == StepCursor(t, a);
    } else if IsModeAction(a) {
      assert Step(t, a) == StepMode(t, a);
    } else {
      StepIsEdit(t, a);
      EditKeepsSaved(t, a);
      hide Step, StepEdit;
    }
  }

  lemma EditKeepsSaved(t: Term, a: Action)
    requires t.Valid() && !IsCursorAction(a) && !IsModeAction(a) && !a.Reset?
    ensures SameSaved(t, StepEdit(t, a))
  {
    hide Term.Valid, ClearArea, SlideForward, SlideBack, Repeat, Blank, InkCell, ScrollRegion;
    hide DoShiftLines, DoShiftChars, DoEraseDisplay, DoEraseLine, DoEraseChar, DoIndexUp, DoLf;
    if a.InsertLine? || a.DeleteLine? {
      LinesKeepSaved(t, a.n, a.InsertLine?);
    } else if a.EraseDisplay? {
      DisplayKeepsSaved(t, a.which);
    } else {
      FeedKeepsSaved(t);
      ClearKeepsSaved(t, a);
    }
  }

  lemma FeedKeepsSaved(t: Term)
    requires t.Valid()
    ensures SameSaved(t, DoLf(t)) && SameSaved(t, DoIndexUp(t)) && DoLf(t).inks == t.inks
  {
    hide Term.Valid, Scrolled, Last, Repeat, Blank;
  }

  lemma ClearKeepsSaved(t: Term, a: Action)
    requires t.Valid()
    ensures a.EraseLine? ==> SameSaved(t, DoEraseLine(t, a.which))
    ensures a.EraseChar? ==> SameSaved(t, DoEraseChar(t, a.n))
    ensures a.InsertChar? ==> SameSaved(t, DoShiftChars(t, a.n, true))
    ensures a.DeleteChar? ==> SameSaved(t, DoShiftChars(t, a.n, false))
  {
    hide Term.Valid, FillRect, SlideForward, SlideBack, Blank;
  }

  lemma LinesKeepSaved(t: Term, n: u16, down: bool)
    requires t.Valid()
    ensures SameSaved(t, DoShiftLines(t, n, down))
  {
    hide Term.Valid, FillRect, Scrolled, Last, Repeat, Blank;
  }

  lemma DisplayKeepsSaved(t: Term, which: u16)
    requires t.Valid()
    ensures SameSaved(t, DoEraseDisplay(t, which))
  {
    hide Term.Valid, FillRect, Repeat, Blank;
  }

  /** Whatever happens between saving and restoring, the cursor and the pen come back. */
  lemma {:induction false} CursorComesBack(t: Term, actions: seq<Action>)
    requires t.Valid() && forall a :: a in actions ==> !a.SaveCursor? && !a.Reset?
    ensures var u := Run(Step(t, SaveCursor), actions); var v := Step(u, RestoreCursor);
      && v == u.(cx := v.cx, cy := v.cy, inks := u.inks.(pen := t.inks.pen))
      && v.cx == Min(t.cx, t.frame.width - 1) && v.cy == t.cy
  {
    CursorSaves(t);
    RunKeepsSaved(Step(t, SaveCursor), actions);
    CursorRestores(Run(Step(t, SaveCursor), actions));
    hide Step, Run;
  }

  lemma {:induction false} RunKeepsSaved(t: Term, actions: seq<Action>)
    requires t.Valid() && forall a :: a in actions ==> !a.SaveCursor? && !a.Reset?
    ensures SameSaved(t, Run(t, actions))
  {
    if actions != [] {
      var n := |actions| - 1;
      RunKeepsSaved(t, actions[..n]);
      StepKeepsSaved(Run(t, actions[..n]), actions[n]);
      RunNext(t, actions);
    }
    hide Step, Term.Valid;
  }

  // ---------------------------------------------------------------- the view

  /** Paging back and forth again returns to the same view exactly if neither move was cut short, or both
      ended where the view had been. */
  lemma PagesBack(start: nat, total: nat, num: int)
    requires start <= total
    ensures ViewTarget(ViewTarget(start, total, false, num), total, false, -num) == start
      <==> 0 <= start + num <= total || (start + num < 0 && start == total) || (start + num > total && start == 0)
  {
  }
}
