/** What the terminal means, as values: a screen of rows, the rows that scrolled
    off it, a cursor, margins and modes.  The engine in `VTermEngine` reaches its
    rows through an indirection array, scrolls lazily and keeps its history in a
    ring; none of that shows here. */
module TermSpec {
  import opened Basics
  import opened Cells

  const SPACE: nat := 0x20
  const LETTER_E: nat := 0x45
  const REPLACEMENT: nat := 0xfffd

  /** Fixed for the life of a terminal: its size, history_lines and default_char_attr. */
  datatype Frame = Frame(width: nat, height: nat, cap: nat, base: CharAttr)

  /** The attributes new text gets; a colour substitution of -1 is off. */
  datatype Inks = Inks(pen: CharAttr, savedPen: CharAttr, underColor: int, halfColor: int)

  datatype Modes = Modes(inverse: bool, crlf: bool, autoWrap: bool, origin: bool)

  datatype Term = Term(
    frame: Frame,
    rows: seq<Row>,           // the screen, top row first
    history: seq<Row>,        // the rows that scrolled off, oldest first
    cx: nat, cy: nat,         // the cursor; cx == width means "just past the last column"
    savedX: nat, savedY: nat,
    top: nat, bot: nat,       // the scroll margins, inclusive
    inks: Inks,
    modes: Modes)
  {
    /** The reachable shapes.  Nothing orders the margins: set_margins does not. */
    ghost predicate Valid() {
      WellFormed() == true
    }

    ghost predicate WellFormed() {
      && FrameOk(frame)
      && TextOk(frame, rows, history)
      && cx <= frame.width && cy < frame.height
      && savedX < 0x1_0000 && savedY < 0x1_0000
      && top < 0x1_0000 && bot < frame.height
    }
  }

  ghost predicate TextOk(f: Frame, rows: seq<Row>, history: seq<Row>) {
    && IsGrid(rows, f.height, f.width)
    && |history| <= f.cap
    && IsGrid(history, |history|, f.width)
  }

  predicate FrameOk(f: Frame) {
    1 <= f.width <= 0x7fff && 1 <= f.height <= 0x7fff && f.cap + f.height <= 0x1_0000
  }

  // ---------------------------------------------------------------- attributes

  /** The pen after the underline and half-bright colour substitutions. */
  function NormalAttr(inks: Inks): CharAttr {
    var a := if inks.pen.underline && inks.underColor >= 0
             then inks.pen.(underline := false, fcolor := inks.underColor)
             else inks.pen;
    if a.intensity == 0 && inks.halfColor >= 0 then a.(intensity := 1, fcolor := inks.halfColor) else a
  }

  function InkCell(inks: Inks, code: nat): Cell { Cell(code, NormalAttr(inks)) }

  /** What erased cells hold: a space in the pen's colours and blink, otherwise default. */
  function EraseCell(base: CharAttr, pen: CharAttr): Cell {
    Cell(SPACE, base.(fcolor := pen.fcolor, bcolor := pen.bcolor, blink := pen.blink))
  }

  function InitialInks(base: CharAttr): Inks { Inks(base, base, -1, -1) }

  function InitialModes(): Modes { Modes(false, false, true, false) }

  function Blank(t: Term): Cell { EraseCell(t.frame.base, t.inks.pen) }

  function Ink(t: Term, code: nat): Cell { InkCell(t.inks, code) }

  // ---------------------------------------------------------------- operations

  function ClearArea(t: Term, x0: nat, y0: nat, x1: nat, y1: nat): (r: Term)
    requires t.Valid()
    ensures r.Valid()
  {
    var ex := Min(x1, t.frame.width - 1);
    if x0 > ex then t else t.(rows := FillRect(t.rows, t.frame.width, x0, y0, ex, y1, Blank(t)))
  }

  function MoveCursor(t: Term, x: nat, y: nat): (r: Term)
    requires t.Valid()
    ensures r.Valid()
  {
    t.(cx := Min(x, t.frame.width - 1), cy := Min(y, t.frame.height - 1))
  }

  function PushHistory(t: Term, n: nat): (r: Term)
    requires t.Valid() && n <= t.frame.height
    ensures r.Valid()
  {
    t.(history := Last(t.frame.cap, t.history + t.rows[..n]))
  }

  /** Scroll rows start..end by num, up when positive; by the whole region or more, nothing moves. */
  function MoveRegion(t: Term, start: nat, end: nat, num: int): (r: Term)
    requires t.Valid() && start <= end < t.frame.height
    ensures r.Valid()
  {
    if -(end - start) <= num <= end - start
    then t.(rows := Scrolled(t.rows, start, end, num, Repeat(t.frame.width, Blank(t))))
    else t
  }

  function Recorded(t: Term, start: nat, n: int): (r: Term)
    requires t.Valid() && n <= t.frame.height
    ensures r.Valid()
  {
    if start == 0 && n > 0 then PushHistory(t, n) else t
  }

  function ScrollClamped(t: Term, start: nat, end: nat, num: int): (r: Term)
    requires t.Valid() && start <= end < t.frame.height && num <= end + 1 - start
    ensures r.Valid()
  {
    MoveRegion(Recorded(t, start, num), start, end, num)
  }

  /** Rows scrolled up from the top of the screen are recorded in the history first. */
  function ScrollRegion(t: Term, start: nat, end: nat, num: int): (r: Term)
    requires t.Valid()
    ensures r.Valid()
  {
    var e := Min(end, t.frame.height - 1);
    if num == 0 || start > e then t else ScrollClamped(t, start, e, Clamp(num, e + 1 - start))
  }

  lemma RegionIsClamped(t: Term, start: nat, end: nat, num: int)
    requires t.Valid() && num != 0 && start <= Min(end, t.frame.height - 1)
    ensures var e := Min(end, t.frame.height - 1);
      && Clamp(num, e + 1 - start) != 0
      && ScrollRegion(t, start, end, num) == ScrollClamped(t, start, e, Clamp(num, e + 1 - start))
  {
    hide ScrollClamped;
  }

  /** Shift columns x0..x1 of row y: right when num is positive, left when negative. */
  function ShiftText(t: Term, y: nat, x0: nat, x1: nat, num: int): (r: Term)
    requires t.Valid() && y < t.frame.height && x0 <= x1 < t.frame.width
    requires -(x1 + 1 - x0) <= num <= x1 + 1 - x0
    ensures r.Valid()
  {
    t.(rows := t.rows[y := if num >= 0 then SlideForward(t.rows[y], x0, x1 + 1, num, Blank(t))
                           else SlideBack(t.rows[y], x0, x1 + 1, -num, Blank(t))])
  }

  /** Where history_display moves a view that starts at `start`; `total` rows of history exist. */
  function ViewTarget(start: nat, total: nat, absolute: bool, num: int): (r: nat)
    requires start <= total
    ensures r <= total
  {
    if absolute then if num < 0 then total else Min(num, total)
    else Max(0, Min(start + num, total))
  }

  // ------------------------------------------------------------------ actions

  datatype Action =
    | Print(ch: nat)
    | Cr | Lf | Bs | NextLine | IndexUp
    | CursorLeft(n: u16) | CursorRight(n: u16) | CursorUp(n: u16) | CursorDown(n: u16)
    | CursorUpCr(n: u16) | CursorDownCr(n: u16)
    | CursorPosition(row: u16, col: u16) | CursorPositionCol(col: u16) | CursorPositionRow(row: u16)
    | InsertChar(n: u16) | DeleteChar(n: u16) | EraseChar(n: u16)
    | InsertLine(n: u16) | DeleteLine(n: u16)
    | EraseLine(which: u16) | EraseDisplay(which: u16)
    | ScreenAlign
    | SetMargins(first: u16, last: u16)
    | SetInverse(on: bool) | SetCrlf(on: bool) | SetOrigin(on: bool) | SetAutoWrap(on: bool)
    | SetPen(attr: CharAttr) | SetUnderColor(color: u16) | SetHalfColor(color: u16)
    | SaveCursor | RestoreCursor | Reset

  predicate IsCursorAction(a: Action) {
    a.Cr? || a.Bs? || a.CursorLeft? || a.CursorRight? || a.CursorUp? || a.CursorDown? || a.CursorUpCr?
    || a.CursorDownCr? || a.CursorPosition? || a.CursorPositionCol? || a.CursorPositionRow? || a.RestoreCursor?
  }

  predicate IsModeAction(a: Action) {
    a.SetCrlf? || a.SetOrigin? || a.SetAutoWrap? || a.SetPen? || a.SetUnderColor? || a.SetHalfColor?
    || a.SaveCursor?
  }

  /** A 16-bit sum, held below the limit: a sum past 65535 wraps before it is compared. */
  function WithinU16(sum: nat, limit: nat): (r: nat)
    requires 0 < limit
  {
    if sum % 0x1_0000 >= limit then limit - 1 else sum % 0x1_0000
  }

  /** A missing parameter counts as one. */
  function Count(n: u16): (r: u16) { if n < 1 then 1 else n }

  function Sub(a: nat, b: nat): nat { if a < b then 0 else a - b }

  function DoLf(t: Term): (r: Term)
    requires t.Valid()
    ensures r.Valid()
  {
    var moved := if t.cy < t.bot then MoveCursor(t, t.cx, t.cy + 1)
                 else ScrollRegion(t, t.top, t.bot, 1);
    if t.modes.crlf then MoveCursor(moved, 0, moved.cy) else moved
  }

  function DoNextLine(t: Term): (r: Term)
    requires t.Valid()
    ensures r.Valid() && r.cx == 0
  {
    var moved := DoLf(t);
    MoveCursor(moved, 0, moved.cy)
  }

  function DoIndexUp(t: Term): (r: Term)
    requires t.Valid()
    ensures r.Valid()
  {
    if t.cy > t.top then MoveCursor(t, t.cx, t.cy - 1) else ScrollRegion(t, t.top, t.bot, -1)
  }

  function PutCell(t: Term, c: Cell): (r: Term)
    requires t.Valid() && t.cx < t.frame.width
    ensures r.Valid()
  {
    t.(rows := t.rows[t.cy := t.rows[t.cy][t.cx := c]], cx := t.cx + 1)
  }

  /** Where the next character goes: a cursor past the last column wraps, or is held there. */
  function Placed(t: Term): (r: Term)
    requires t.Valid()
    ensures r.Valid() && r.cx < r.frame.width && r.inks == t.inks
  {
    if t.cx < t.frame.width then t
    else if t.modes.autoWrap then DoNextLine(t)
    else t.(cx := t.frame.width - 1)
  }

  function DoPrint(t: Term, ch: nat): (r: Term)
    requires t.Valid()
    ensures r.Valid()
  {
    PutCell(Placed(t), InkCell(t.inks, if ch > 0xffff then REPLACEMENT else ch))
  }

  /** Inserting (down) or deleting lines at the cursor; below the margin region nothing happens. */
  function DoShiftLines(t: Term, n: u16, down: bool): (r: Term)
    requires t.Valid()
    ensures r.Valid()
  {
    if t.cy > t.bot then t
    else if Count(n) > t.bot - t.cy then ClearArea(t, 0, t.cy, t.frame.width - 1, t.bot)
    else var k: int := Count(n); ScrollRegion(t, t.cy, t.bot, if down then -k else k)
  }

  /** The distance to the margin, computed in 16 bits, decides the same. */
  lemma ShiftLinesCases(t: Term, n: u16, down: bool, k: nat, num: int, mx: nat)
    requires t.Valid() && mx == t.bot + 1 - t.cy + (if t.cy > t.bot + 1 then 0x1_0000 else 0)
    requires k == Count(n) && num == (if down then -(k as int) else k)
    ensures k >= mx ==>
      DoShiftLines(t, n, down) == if t.cy > t.bot then t else ClearArea(t, 0, t.cy, t.frame.width - 1, t.bot)
    ensures k < mx ==> DoShiftLines(t, n, down) == ScrollRegion(t, t.cy, t.bot, num)
    ensures k < mx ==> t.cy > t.bot || k <= t.bot - t.cy
  {
  }

  function DoShiftChars(t: Term, n: u16, right: bool): (r: Term)
    requires t.Valid()
    ensures r.Valid()
  {
    if Count(n) >= t.frame.width - t.cx then ClearArea(t, t.cx, t.cy, t.frame.width - 1, t.cy)
    else ShiftText(t, t.cy, t.cx, t.frame.width - 1, var k: int := Count(n); if right then k else -k)
  }

  lemma ShiftCharsCases(t: Term, n: u16, right: bool, k: nat, num: int)
    requires t.Valid() && k == Count(n) && num == (if right then k else -(k as int))
    ensures k >= t.frame.width - t.cx ==>
      DoShiftChars(t, n, right) == ClearArea(t, t.cx, t.cy, t.frame.width - 1, t.cy)
    ensures k < t.frame.width - t.cx ==>
      DoShiftChars(t, n, right) == ShiftText(t, t.cy, t.cx, t.frame.width - 1, num)
  {
    hide ClearArea, ShiftText;
  }

  /** The last column of n characters from column x, held within the row. */
  function EraseEnd(x: nat, width: nat, n: u16): nat
    requires x <= width && 0 < width
  {
    x + Min(Count(n), width - x) - 1
  }

  function DoEraseChar(t: Term, n: u16): (r: Term)
    requires t.Valid()
    ensures r.Valid()
  {
    ClearArea(t, t.cx, t.cy, EraseEnd(t.cx, t.frame.width, n), t.cy)
  }

  function DoSetInverse(t: Term, on: bool): (r: Term)
    requires t.Valid()
    ensures r.Valid()
  {
    t.(modes := t.modes.(inverse := on))
  }

  function DoEraseLine(t: Term, which: u16): (r: Term)
    requires t.Valid()
    ensures r.Valid()
  {
    if which == 0 then ClearArea(t, t.cx, t.cy, t.frame.width - 1, t.cy)
    else if which == 1 then ClearArea(t, 0, t.cy, t.cx, t.cy)
    else if which == 2 then ClearArea(t, 0, t.cy, t.frame.width - 1, t.cy)
    else t
  }

  /** The rows below the cursor's. */
  function RowsBelowErased(t: Term): (r: Term)
    requires t.Valid()
    ensures r.Valid()
  {
    if t.cy < t.frame.height - 1 then ClearArea(t, 0, t.cy + 1, t.frame.width - 1, t.frame.height - 1) else t
  }

  function EraseBelow(t: Term): (r: Term)
    requires t.Valid()
    ensures r.Valid()
  {
    RowsBelowErased(ClearArea(t, t.cx, t.cy, t.frame.width - 1, t.cy))
  }

  lemma EraseBelowParts(t: Term)
    requires t.Valid()
    ensures EraseBelow(t) == RowsBelowErased(ClearArea(t, t.cx, t.cy, t.frame.width - 1, t.cy))
  {
    hide RowsBelowErased, ClearArea;
  }

  function EraseAbove(t: Term): (r: Term)
    requires t.Valid()
    ensures r.Valid()
  {
    var u := ClearArea(t, 0, t.cy, t.cx, t.cy);
    if t.cy > 0 then ClearArea(u, 0, 0, t.frame.width - 1, t.cy - 1) else u
  }

  function DoEraseDisplay(t: Term, which: u16): (r: Term)
    requires t.Valid()
    ensures r.Valid()
  {
    if which == 0 then EraseBelow(t)
    else if which == 1 then EraseAbove(t)
    else if which == 2 then ClearArea(t, 0, 0, t.frame.width - 1, t.frame.height - 1)
    else t
  }

  function DoScreenAlign(t: Term): (r: Term)
    requires t.Valid()
    ensures r.Valid()
  {
    t.(rows := Repeat(t.frame.height, Repeat(t.frame.width, Ink(t, LETTER_E))))
  }

  function DoSetMargins(t: Term, first: u16, last: u16): (r: Term)
    requires t.Valid()
    ensures r.Valid()
  {
    var b := if last < 1 || last > t.frame.height then t.frame.height else last;
    IntoMargins(t.(top := Count(first) - 1, bot := b - 1))
  }

  /** set_margins finds the two rows in its own way. */
  lemma MarginsSet(t: Term, first: u16, last: u16, top: nat, bot: nat)
    requires t.Valid() && top == (if first < 1 then 0 else first - 1)
    requires bot == (if last < 1 || last > t.frame.height then t.frame.height else last) - 1
    ensures top < 0x1_0000 && bot < t.frame.height && t.(top := top, bot := bot).Valid()
    ensures DoSetMargins(t, first, last) == IntoMargins(t.(top := top, bot := bot))
  {
    hide IntoMargins;
  }

  /** Bring the cursor into the margins: down to the top one, then up to the bottom one. */
  function IntoMargins(u: Term): (r: Term)
    requires u.Valid()
    ensures r.Valid()
  {
    var v := if u.cy < u.top then MoveCursor(u, u.cx, u.top) else u;
    if v.cy > v.bot then MoveCursor(v, v.cx, v.bot) else v
  }

  function DoReset(t: Term): (r: Term)
    requires t.Valid()
    ensures r.Valid()
  {
    Initial(t.frame).(history := t.history)
  }

  /** A terminal as constructed. */
  function Initial(f: Frame): (r: Term)
    requires FrameOk(f)
    ensures r.Valid()
  {
    Term(f, Repeat(f.height, Repeat(f.width, EraseCell(f.base, f.base))), [], 0, 0, 0, 0, 0, f.height - 1,
         InitialInks(f.base), InitialModes())
  }

  lemma RegistersValid(t: Term, inks: Inks, modes: Modes, savedX: nat, savedY: nat)
    requires t.Valid() && savedX < 0x1_0000 && savedY < 0x1_0000
    ensures t.(inks := inks, modes := modes, savedX := savedX, savedY := savedY).Valid()
  {
  }

  /** A terminal as constructed, with text of its own. */
  function Forgotten(t: Term): (r: Term)
    requires t.Valid()
    ensures r.Valid()
  {
    Initial(t.frame).(rows := t.rows, history := t.history)
  }

  lemma ForgottenParts(t: Term)
    requires t.Valid()
    ensures Forgotten(t) == Term(t.frame, t.rows, t.history, 0, 0, 0, 0, 0, t.frame.height - 1,
                                 InitialInks(t.frame.base), InitialModes())
    ensures 0 < t.frame.height
  {
  }

  lemma ForgottenPainted(t: Term)
    requires t.Valid()
    ensures DoReset(t) == Forgotten(t).(rows :=
      Repeat(t.frame.height, Repeat(t.frame.width, EraseCell(t.frame.base, Forgotten(t).inks.pen))))
  {
  }

  /** Where a cursor action sends the cursor, before it is held within the screen. */
  function Target(t: Term, a: Action): (at: (int, int))
    requires IsCursorAction(a)
    ensures 0 <= at.0 && 0 <= at.1
  {
    match a
    case Cr => (0, t.cy)
    case Bs => (if t.cx > 0 then t.cx - 1 else 0, t.cy)
    case CursorLeft(n) => (Sub(t.cx, Count(n)), t.cy)
    case CursorRight(n) => ((t.cx + Count(n)) % 0x1_0000, t.cy)
    case CursorUp(n) => (t.cx, Sub(t.cy, Count(n)))
    case CursorDown(n) => (t.cx, (t.cy + Count(n)) % 0x1_0000)
    case CursorUpCr(n) => (0, Sub(t.cy, Count(n)))
    case CursorDownCr(n) => (0, (t.cy + Count(n)) % 0x1_0000)
    case CursorPosition(row, col) =>
      (Count(col) - 1, (Count(row) - 1 + (if t.modes.origin then t.top else 0)) % 0x1_0000)
    case CursorPositionCol(col) => (Count(col) - 1, t.cy)
    case CursorPositionRow(row) => (t.cx, Count(row) - 1)
    case RestoreCursor => (t.savedX, t.savedY)
  }

  function RestorePen(t: Term): (r: Term)
    requires t.Valid()
    ensures r.Valid()
  {
    t.(inks := t.inks.(pen := t.inks.savedPen))
  }

  function StepCursor(t: Term, a: Action): (r: Term)
    requires t.Valid() && IsCursorAction(a)
    ensures r.Valid()
  {
    var at := Target(t, a);
    MoveCursor(if a.RestoreCursor? then RestorePen(t) else t, at.0, at.1)
  }

  function StepInks(inks: Inks, a: Action): Inks {
    match a
    case SetPen(attr) => inks.(pen := attr)
    case SetUnderColor(color) => if color < 8 then inks.(underColor := color) else inks
    case SetHalfColor(color) => if color < 8 then inks.(halfColor := color) else inks
    case SaveCursor => inks.(savedPen := inks.pen)
    case _ => inks
  }

  function StepModes(modes: Modes, a: Action): Modes {
    match a
    case SetCrlf(on) => modes.(crlf := on)
    case SetOrigin(on) => modes.(origin := on)
    case SetAutoWrap(on) => modes.(autoWrap := on)
    case _ => modes
  }

  function StepMode(t: Term, a: Action): (r: Term)
    requires t.Valid() && IsModeAction(a)
    ensures r.Valid()
  {
    var u := t.(inks := StepInks(t.inks, a), modes := StepModes(t.modes, a));
    if a.SaveCursor? then u.(savedX := t.cx, savedY := t.cy) else u
  }

  lemma StepModeParts(t: Term, a: Action)
    requires t.Valid() && IsModeAction(a)
    ensures StepModes(t.modes, a).inverse == t.modes.inverse
    ensures StepMode(t, a) ==
      t.(inks := StepInks(t.inks, a), modes := StepModes(t.modes, a),
         savedX := if a.SaveCursor? then t.cx else t.savedX, savedY := if a.SaveCursor? then t.cy else t.savedY)
  {
    hide StepInks;
  }

  /** The edits at the cursor. */
  predicate IsCursorEdit(a: Action) {
    a.Print? || a.Lf? || a.NextLine? || a.IndexUp? || a.InsertChar? || a.DeleteChar? || a.EraseChar? || a.InsertLine?
    || a.DeleteLine?
  }

  function StepEdit(t: Term, a: Action): (r: Term)
    requires t.Valid() && !IsCursorAction(a) && !IsModeAction(a)
    ensures r.Valid()
  {
    match a
    case Print(ch) => DoPrint(t, ch)
    case Lf => DoLf(t)
    case NextLine => DoNextLine(t)
    case IndexUp => DoIndexUp(t)
    case InsertChar(n) => DoShiftChars(t, n, true)
    case DeleteChar(n) => DoShiftChars(t, n, false)
    case EraseChar(n) => DoEraseChar(t, n)
    case InsertLine(n) => DoShiftLines(t, n, true)
    case DeleteLine(n) => DoShiftLines(t, n, false)
    case EraseLine(which) => DoEraseLine(t, which)
    case EraseDisplay(which) => DoEraseDisplay(t, which)
    case ScreenAlign => DoScreenAlign(t)
    case SetMargins(first, last) => DoSetMargins(t, first, last)
    case SetInverse(on) => DoSetInverse(t, on)
    case Reset => DoReset(t)
  }

  /** What one action does to the terminal. */
  function Step(t: Term, a: Action): (r: Term)
    requires t.Valid()
    ensures r.Valid()
  {
    if IsCursorAction(a) then StepCursor(t, a)
    else if IsModeAction(a) then StepMode(t, a)
    else StepEdit(t, a)
  }

  function Run(t: Term, actions: seq<Action>): (r: Term)
    requires t.Valid()
    ensures r.Valid()
  {
    if actions == [] then t else Step(Run(t, actions[..|actions| - 1]), actions[|actions| - 1])
  }
}
