/** The engine's memory as a value, what it must satisfy to stand for a terminal,
    and why each group of writes the engine makes keeps it so. */
module Machine {
  import opened Basics
  import opened Cells
  import opened TermSpec
  import opened Damage
  import Lines
  import Refresh

  datatype Mem = Mem(
    text: seq<Row>,          // history ring first, then the screen's lines
    lines: seq<nat>,         // linenumbers
    lo: seq<nat>, hi: seq<nat>,  // dirty_startx, dirty_endx
    pending: int,            // pending_scroll
    save: nat, full: bool,   // history_save_line, history_full
    start: nat,              // visual_start_line
    panel: seq<Row>)         // what the glass shows

  ghost predicate Bounded(lo: seq<nat>, hi: seq<nat>, width: nat) {
    |lo| == |hi| && forall y :: 0 <= y < |lo| ==> lo[y] <= width && hi[y] < width
  }

  ghost predicate Sized(f: Frame, m: Mem) {
    && FrameOk(f)
    && IsGrid(m.text, f.cap + f.height, f.width)
    && |m.lines| == |m.lo| == |m.hi| == f.height
    && Bounded(m.lo, m.hi, f.width)
    && IsGrid(m.panel, f.height, f.width)
  }

  /** The memory holds the terminal's rows and history.  (Compared with true, here and
      below, so that callers pass the relation on as one fact.) */
  ghost predicate Sound(t: Term, m: Mem) {
    Holds(t, m) == true
  }

  ghost predicate Holds(t: Term, m: Mem) {
    && t.Valid() && Sized(t.frame, m)
    && Lines.Permuted(m.lines, t.frame.cap)
    && Lines.Backed(m.text, m.lines, t.rows)
    && Lines.RingHolds(m.text, t.frame.cap, m.save, m.full, t.history)
    && m.start <= |t.history|
  }

  function Owed(t: Term, m: Mem): Lag {
    Lag(m.lo, m.hi, t.top, t.bot, m.pending)
  }

  /** During input the view follows the screen. */
  ghost predicate Stands(t: Term, m: Mem) {
    (Sound(t, m) && m.start == |t.history|) == true
  }

  /** During input: the view follows the screen, and the glass lags no more than is owed. */
  ghost predicate Ready(t: Term, m: Mem) {
    Follows(t, m) == true
  }

  ghost predicate Follows(t: Term, m: Mem) {
    && Stands(t, m)
    && Coherent(t.rows, t.modes.inverse, m.panel, Owed(t, m))
  }

  ghost function View(t: Term, start: nat): (p: seq<Row>)
    requires start <= |t.history|
    ensures |p| == |t.rows|
  {
    Picture(Window(t.history, t.rows, start), t.modes.inverse)
  }

  /** The glass shows the rows of a text from row `from` on: every cell its character and its attributes, with
      the reverse bit turned around on an inverse screen. */
  ghost predicate Displays(glass: seq<Row>, text: seq<Row>, from: nat, inverse: bool) {
    && from + |glass| <= |text|
    && forall y :: 0 <= y < |glass| ==>
         && |glass[y]| == |text[from + y]|
         && forall x :: 0 <= x < |glass[y]| ==> CellDisplayed(glass[y][x], text[from + y][x], inverse)
  }

  predicate CellDisplayed(c: Cell, cell: Cell, inverse: bool) {
    && c.code == cell.code
    && c.attr.fcolor == cell.attr.fcolor && c.attr.bcolor == cell.attr.bcolor
    && c.attr.intensity == cell.attr.intensity && c.attr.italic == cell.attr.italic
    && c.attr.underline == cell.attr.underline && c.attr.blink == cell.attr.blink
    && c.attr.reverse == (if inverse then !cell.attr.reverse else cell.attr.reverse)
  }

  lemma PictureDisplays(rows: seq<Row>, inverse: bool)
    ensures Displays(Picture(rows, inverse), rows, 0, inverse)
  {
  }

  /** A view displays history followed by screen from its start on. */
  lemma ViewDisplays(t: Term, start: nat)
    requires t.Valid() && start <= |t.history|
    ensures Displays(View(t, start), t.history + t.rows, start, t.modes.inverse)
  {
    WindowIsSlice(t.history, t.rows, start);
    hide Term.Valid, Window;
  }

  /** The glass shows exactly the rows in view and nothing is owed. */
  ghost predicate Settled(t: Term, m: Mem) {
    Rests(t, m) == true
  }

  ghost predicate Rests(t: Term, m: Mem) {
    Sound(t, m) && AllClean(Owed(t, m)) && m.panel == View(t, m.start)
  }

  /** Between two inputs: settled, or just constructed with no history to look at. */
  ghost predicate Idle(t: Term, m: Mem) {
    Settled(t, m) || (Ready(t, m) && t.history == [] && m.pending == 0)
  }

  /** A terminal as constructed, over blank memory. */
  lemma InitialSound(f: Frame, m: Mem)
    requires FrameOk(f) && IsGrid(m.panel, f.height, f.width)
    requires m.text == Repeat(f.cap + f.height, Repeat(f.width, EraseCell(f.base, f.base)))
    requires |m.lines| == f.height && forall y :: 0 <= y < f.height ==> m.lines[y] == f.cap + y
    requires m.lo == Repeat(f.height, f.width) && m.hi == Repeat(f.height, 0)
    requires m.save == 0 && !m.full && m.start == 0
    ensures Sound(Initial(f), m)
  {
  }

  lemma ViewIsGrid(t: Term, start: nat)
    requires t.Valid() && start <= |t.history|
    ensures IsGrid(View(t, start), t.frame.height, t.frame.width)
  {
  }

  // -------------------------------------------------------------------- edits

  lemma FillSound(t: Term, m: Mem, m': Mem, x0: nat, y0: nat, x1: nat, y1: nat, c: Cell)
    requires Sound(t, m) && x0 <= x1 < t.frame.width
    requires m' == m.(text := m'.text, lo := m'.lo, hi := m'.hi)
    requires Lines.FilledLines(m.text, m'.text, m.lines, x0, y0, x1, y1, c)
    requires Marked(m.lo, m.hi, m'.lo, m'.hi, x0, y0, x1, y1)
    ensures Sound(t.(rows := FillRect(t.rows, t.frame.width, x0, y0, x1, y1, c)), m')
  {
  }

  lemma FillReady(t: Term, m: Mem, m': Mem, x0: nat, y0: nat, x1: nat, y1: nat, c: Cell)
    requires Ready(t, m) && x0 <= x1 < t.frame.width
    requires m' == m.(text := m'.text, lo := m'.lo, hi := m'.hi)
    requires Lines.FilledLines(m.text, m'.text, m.lines, x0, y0, x1, y1, c)
    requires Marked(m.lo, m.hi, m'.lo, m'.hi, x0, y0, x1, y1)
    ensures Ready(t.(rows := FillRect(t.rows, t.frame.width, x0, y0, x1, y1, c)), m')
  {
    FillSound(t, m, m', x0, y0, x1, y1, c);
    FillKeepsCoherent(t.rows, t.frame.width, x0, y0, x1, y1, c, t.modes.inverse, m.panel, Owed(t, m), Owed(t, m'));
  }

  /** A screen that is dirty all over is coherent, whatever the glass shows. */
  lemma AllDirtyReady(t: Term, m: Mem)
    requires Sound(t, m) && m.start == |t.history|
    requires forall y :: 0 <= y < t.frame.height ==> m.lo[y] == 0 && m.hi[y] == t.frame.width - 1
    ensures Ready(t, m)
  {
  }

  /** Painting every cell makes any sound screen ready. */
  lemma PaintReady(t: Term, m: Mem, m': Mem, c: Cell)
    requires Sound(t, m) && m.start == |t.history|
    requires m' == m.(text := m'.text, lo := m'.lo, hi := m'.hi)
    requires Lines.FilledLines(m.text, m'.text, m.lines, 0, 0, t.frame.width - 1, t.frame.height - 1, c)
    requires Marked(m.lo, m.hi, m'.lo, m'.hi, 0, 0, t.frame.width - 1, t.frame.height - 1)
    ensures Ready(t.(rows := Repeat(t.frame.height, Repeat(t.frame.width, c))), m')
  {
  }

  /** A reset forgets the registers, the modes and the pending scroll. */
  lemma ResetSound(t: Term, m: Mem)
    requires Ready(t, m)
    ensures Sound(Forgotten(t), m.(pending := 0)) && m.start == |t.history|
  {
  }

  /** The line behind row y holds it. */
  lemma LineHolds(t: Term, m: Mem, y: nat)
    requires Sound(t, m) && y < t.frame.height
    ensures |m.lines| == |m.lo| == |m.hi| == |t.rows| == t.frame.height && m.lines[y] < |m.text|
    ensures m.text[m.lines[y]] == t.rows[y] && |t.rows[y]| == t.frame.width
    ensures |m.panel| == t.frame.height && |m.panel[y]| == t.frame.width
  {
  }

  /** Rewriting columns x0..x1 of the line behind row y, and marking them. */
  lemma RowReady(t: Term, m: Mem, m': Mem, y: nat, row: Row, x0: nat, x1: nat)
    requires Ready(t, m) && y < t.frame.height && |row| == t.frame.width && x0 <= x1 < t.frame.width
    requires forall x :: 0 <= x < |row| && !(x0 <= x <= x1) ==> row[x] == t.rows[y][x]
    requires m' == m.(text := m.text[m.lines[y] := row],
                      lo := m.lo[y := Min(m.lo[y], x0)], hi := m.hi[y := Max(m.hi[y], x1)])
    ensures Ready(t.(rows := t.rows[y := row]), m')
  {
    Lines.WriteRow(m.text, m.lines, t.rows, y, row);
    Lines.WriteElsewhere(m.text, m.lines[y], row, t.frame.cap, m.save, m.full, t.history, [], []);
    RowEditKeepsCoherent(t.rows, y, row, x0, x1, t.modes.inverse, m.panel, Owed(t, m));
  }

  /** shift_text on the line behind row y. */
  lemma ShiftReady(t: Term, m: Mem, m': Mem, y: nat, x0: nat, x1: nat, num: int)
    requires Ready(t, m) && y < t.frame.height && x0 <= x1 < t.frame.width
    requires -(x1 + 1 - x0) <= num <= x1 + 1 - x0 && num != 0
    requires m.lines[y] < |m.text| && |m.text[m.lines[y]]| == t.frame.width
    requires m' == m.(text := m.text[m.lines[y] := Lines.Shifted(m.text[m.lines[y]], x0, x1, num, Blank(t))],
                      lo := m.lo[y := Min(m.lo[y], x0)], hi := m.hi[y := Max(m.hi[y], x1)])
    ensures Ready(ShiftText(t, y, x0, x1, num), m')
  {
    Lines.ShiftedIsSlide(t.rows[y], x0, x1, num, Blank(t));
    RowReady(t, m, m', y, Lines.Shifted(t.rows[y], x0, x1, num, Blank(t)), x0, x1);
  }

  /** Cursor, pen, saved cursor and modes other than inverse do not show in the memory. */
  lemma RegistersReady(t: Term, t': Term, m: Mem)
    requires Ready(t, m) && t'.Valid()
    requires t'.frame == t.frame && t'.rows == t.rows && t'.history == t.history
    requires t'.top == t.top && t'.bot == t.bot && t'.modes.inverse == t.modes.inverse
    ensures Ready(t', m)
  {
  }

  /** The margins may change while no scroll is pending. */
  lemma MarginsReady(t: Term, m: Mem, top: nat, bot: nat)
    requires Ready(t, m) && m.pending == 0 && top < 0x1_0000 && bot < t.frame.height
    ensures Ready(t.(top := top, bot := bot), m)
  {
  }

  // ---------------------------------------------------------------- scrolling

  /** What history_scroll starts from. */
  lemma SavingStarts(t: Term, m: Mem)
    requires Stands(t, m)
    ensures t.Valid() && |m.lines| == t.frame.height && Lines.Permuted(m.lines, t.frame.cap)
    ensures Lines.Saving(m.text, m.lines, t.frame.cap, m.save, m.full, t.rows, t.history, t.frame.width)
  {
  }

  /** history_scroll keeps the screen and pushes its top rows. */
  lemma HistoryStands(t: Term, m: Mem, m': Mem, n: nat)
    requires Stands(t, m) && 0 < t.frame.cap && n <= t.frame.height
    requires m' == m.(text := m'.text, save := m'.save, full := m'.full,
                      start := Lines.Count(t.frame.cap, m'.save, m'.full))
    requires |m'.text| == |m.text|
    requires Lines.Saving(m'.text, m.lines, t.frame.cap, m'.save, m'.full, t.rows,
                          Pushed(t.frame.cap, t.history, t.rows, n), t.frame.width)
    ensures Stands(PushHistory(t, n), m')
  {
    PushedIsLast(t.frame.cap, t.history, t.rows, n);
  }

  /** Without a ring there is no history to keep. */
  lemma NoHistory(t: Term, m: Mem, n: nat)
    requires Stands(t, m) && t.frame.cap == 0 && n <= t.frame.height
    ensures PushHistory(t, n) == t && m.start == 0
  {
  }

  /** What the renumbering loop of scroll_region does to the memory. */
  ghost predicate Rotated(m: Mem, m': Mem, cap: nat, start: nat, end: nat, num: int, fast: bool, width: nat, c: Cell)
    requires start < end < |m.lines| == |m.lo| == |m.hi| && -(end - start) <= num <= end - start && 0 < width
  {
    && m' == m.(text := m'.text, lines := Lines.Renumbered(m.lines, start, end + 1, end, num),
                lo := Travel(m.lo, start, end + 1, end, num, fast, 0),
                hi := Travel(m.hi, start, end + 1, end, num, fast, width - 1),
                pending := if fast then m.pending + num else m.pending)
    && Lines.VacatedCleared(m.text, m'.text, m.lines, cap, start, end + 1, end, num, Repeat(width, c))
  }

  lemma ScrollStands(t: Term, m: Mem, m': Mem, start: nat, end: nat, num: int)
    requires Stands(t, m) && start < end < t.frame.height && -(end - start) <= num <= end - start && num != 0
    requires IsGrid(m'.text, |m.text|, t.frame.width)
    requires Rotated(m, m', t.frame.cap, start, end, num, start == t.top && end == t.bot, t.frame.width, Blank(t))
    ensures Stands(MoveRegion(t, start, end, num), m')
    ensures Owed(MoveRegion(t, start, end, num), m') == AfterScroll(Owed(t, m), start, end, num, t.frame.width)
  {
    var blank := Repeat(t.frame.width, Blank(t));
    Lines.RenumberedPermuted(m.lines, t.frame.cap, start, end, num);
    Lines.RenumberedBacks(m.text, m'.text, m.lines, t.frame.cap, t.rows, start, end, num, blank);
  }

  /** A scroll by the whole region only counts. */
  lemma SkipStands(t: Term, m: Mem, m': Mem, start: nat, end: nat, num: int)
    requires Stands(t, m) && start <= end < t.frame.height && !(-(end - start) <= num <= end - start)
    requires m' == m.(pending := if start == t.top && end == t.bot then m.pending + num else m.pending)
    ensures Stands(MoveRegion(t, start, end, num), m')
    ensures Owed(MoveRegion(t, start, end, num), m') == AfterScroll(Owed(t, m), start, end, num, t.frame.width)
  {
  }

  lemma ScrollClampedRows(t: Term, start: nat, end: nat, num: int)
    requires t.Valid() && start <= end < t.frame.height && num <= end + 1 - start
    ensures var t' := ScrollClamped(t, start, end, num);
      && t'.rows == ScrolledRows(t.rows, start, end, num, Repeat(t.frame.width, Blank(t)))
      && t' == t.(rows := t'.rows, history := t'.history)
  {
  }

  /** Every other scroll of a region, of one row or of many, keeps the display payable. */
  lemma ScrollReady(t: Term, m: Mem, t': Term, m': Mem, start: nat, end: nat, num: int)
    requires Ready(t, m) && Stands(t', m') && m'.panel == m.panel
    requires start <= end < t.frame.height && num != 0 && !Skips(Owed(t, m), start, end, num)
    requires t'.rows == ScrolledRows(t.rows, start, end, num, Repeat(t.frame.width, Blank(t)))
    requires t' == t.(rows := t'.rows, history := t'.history)
    requires Owed(t', m') == AfterScroll(Owed(t, m), start, end, num, t.frame.width)
    ensures Ready(t', m')
  {
    ScrollKeepsCoherent(t.rows, t.frame.width, start, end, num, Repeat(t.frame.width, Blank(t)),
                        t.modes.inverse, m.panel, Owed(t, m));
  }

  // ----------------------------------------------------------------- painting

  /** What update leaves on the glass. */
  function AfterUpdate(t: Term, m: Mem, accepted: bool): (r: seq<Row>)
    requires Sound(t, m)
  {
    Refresh.Updated(t.rows, t.modes.inverse, m.panel, Owed(t, m), t.frame.width, accepted)
  }

  /** The row move of update, or the marking that makes up for it. */
  lemma PaidKeeps(t: Term, m: Mem, m': Mem, accepted: bool)
    requires Stands(t, m) && m' == m.(panel := m'.panel, lo := m'.lo, hi := m'.hi, pending := 0)
    requires m'.panel == Refresh.MovedGlass(m.panel, Owed(t, m), accepted)
    requires Owed(t, m') == Refresh.AfterMove(Owed(t, m), t.frame.width, accepted)
    ensures Stands(t, m') && (Ready(t, m) ==> Ready(t, m'))
  {
    if Ready(t, m) {
      Refresh.MoveKeepsCoherent(t.rows, t.modes.inverse, m.panel, Owed(t, m), t.frame.width, accepted);
    }
  }

  /** Row y of the screen repainted where it is dirty. */
  lemma RepaintedRow(t: Term, m: Mem, y: nat)
    requires Stands(t, m) && y < t.frame.height && m.lo[y] <= m.hi[y]
    requires IsGrid(View(t, m.start), t.frame.height, t.frame.width)
    ensures Repaint(m.panel, View(t, m.start), t.frame.width, m.lo[y], y, m.hi[y] - m.lo[y] + 1, 1)
         == m.panel[y := Refresh.RefreshedRow(t.rows[y], t.modes.inverse, m.lo[y], m.hi[y], m.panel[y])]
  {
    WindowAtEnd(t.history, t.rows);
  }

  lemma RepaintStands(t: Term, m: Mem, m': Mem, y: nat)
    requires Stands(t, m) && y < t.frame.height
    requires m' == m.(panel := m'.panel, lo := m.lo[y := t.frame.width], hi := m.hi[y := 0])
    requires |m.panel[y]| == |t.rows[y]|
    requires m'.panel == m.panel[y := Refresh.RefreshedRow(t.rows[y], t.modes.inverse, m.lo[y], m.hi[y], m.panel[y])]
    ensures Stands(t, m')
  {
  }

  /** The loop of update: rows before `upTo` are repainted and clean, the others as they were. */
  ghost predicate PartlyRefreshed(t: Term, paid: Mem, m: Mem, upTo: nat)
    requires Stands(t, paid) && Stands(t, m) && upTo <= t.frame.height
  {
    forall y :: 0 <= y < t.frame.height ==>
      if y < upTo
      then m.hi[y] < m.lo[y]
           && m.panel[y] == Refresh.RefreshedRow(t.rows[y], t.modes.inverse, paid.lo[y], paid.hi[y], paid.panel[y])
      else m.lo[y] == paid.lo[y] && m.hi[y] == paid.hi[y] && m.panel[y] == paid.panel[y]
  }

  lemma NothingRefreshed(t: Term, paid: Mem)
    requires Stands(t, paid)
    ensures PartlyRefreshed(t, paid, paid, 0)
  {
  }

  lemma RefreshStep(t: Term, paid: Mem, m: Mem, m': Mem, y: nat)
    requires Stands(t, paid) && Stands(t, m) && Stands(t, m') && y < t.frame.height
    requires PartlyRefreshed(t, paid, m, y)
    requires if m.lo[y] <= m.hi[y]
             then m'.lo == m.lo[y := t.frame.width] && m'.hi == m.hi[y := 0]
                  && m'.panel == m.panel[y := Refresh.RefreshedRow(t.rows[y], t.modes.inverse, m.lo[y], m.hi[y],
                                                                   m.panel[y])]
             else m' == m
    ensures PartlyRefreshed(t, paid, m', y + 1)
  {
  }

  lemma AllRefreshed(t: Term, m: Mem, paid: Mem, m': Mem, accepted: bool)
    requires Stands(t, m) && Stands(t, paid) && Stands(t, m') && m'.pending == 0
    requires paid.panel == Refresh.MovedGlass(m.panel, Owed(t, m), accepted)
    requires Owed(t, paid) == Refresh.AfterMove(Owed(t, m), t.frame.width, accepted)
    requires PartlyRefreshed(t, paid, m', t.frame.height)
    ensures AllClean(Owed(t, m')) && m'.panel == AfterUpdate(t, m, accepted)
  {
  }

  /** A ready screen is on the glass after update, and nothing is owed. */
  lemma UpdateSettles(t: Term, m: Mem, m': Mem, accepted: bool)
    requires Ready(t, m) && Stands(t, m') && AllClean(Owed(t, m'))
    requires m'.panel == AfterUpdate(t, m, accepted)
    ensures Ready(t, m') && Settled(t, m') && m'.panel == Picture(t.rows, t.modes.inverse)
  {
    Refresh.UpdateShows(t.rows, t.modes.inverse, m.panel, Owed(t, m), t.frame.width, accepted);
    WindowAtEnd(t.history, t.rows);
    SettledIsReady(t, m');
  }

  lemma SettledIsReady(t: Term, m: Mem)
    requires Idle(t, m) && m.start == |t.history|
    ensures Ready(t, m)
  {
  }

  lemma SettledAgain(t: Term, m: Mem, start: nat)
    requires Settled(t, m) && start <= |t.history|
    ensures Settled(t, m.(start := start, panel := View(t, start)))
  {
  }

  /** The line behind row i of history followed by screen. */
  function DocLine(m: Mem, cap: nat, total: nat, i: nat): nat
    requires i < total + |m.lines|
  {
    if i < total then Lines.Slot(i, cap, m.save, m.full) else m.lines[i - total]
  }

  function DocRow(t: Term, i: nat): Row
    requires i < |t.history| + |t.rows|
  {
    if i < |t.history| then t.history[i] else t.rows[i - |t.history|]
  }

  /** get_line stays within 16 bits and within the table. */
  lemma RowInView(t: Term, m: Mem, y: nat)
    requires Sound(t, m) && y < t.frame.height
    ensures m.start + y < 0x1_0000 && |t.history| == Lines.Count(t.frame.cap, m.save, m.full)
    ensures |m.lines| == t.frame.height && m.start + y < |t.history| + |m.lines|
    ensures m.start + y < |t.history| ==> 0 < t.frame.cap
  {
  }

  /** The line get_line finds holds the row in view. */
  lemma LineOfView(t: Term, m: Mem, y: nat, line: nat)
    requires Sound(t, m) && y < t.frame.height
    requires line == if m.start + y >= |t.history| then m.lines[m.start + y - |t.history|]
                     else ((if m.full then m.save else 0) + m.start + y) % t.frame.cap
    ensures line == DocLine(m, t.frame.cap, |t.history|, m.start + y)
    ensures line < |m.text| && m.text[line] == Window(t.history, t.rows, m.start)[y]
    ensures View(t, m.start)[y] == ShownRow(m.text[line], t.modes.inverse)
  {
    if m.start + y < |t.history| {
      Lines.SlotIsModulo(m.start + y, t.frame.cap, m.save, m.full);
    }
  }

  /** Moving the view by n rows: the rows both views share, n apart on the glass. */
  lemma ViewsShare(t: Term, from: nat, to: nat)
    requires t.Valid() && from <= |t.history| && to <= |t.history|
    ensures forall y, z :: 0 <= y < t.frame.height && 0 <= z < t.frame.height && to + y == from + z ==>
      View(t, to)[y] == View(t, from)[z]
  {
  }

  /** The accelerated view move: shift the shared rows, repaint the n new ones. */
  lemma ViewMoves(t: Term, from: nat, to: nat)
    requires t.Valid() && from <= |t.history| && to <= |t.history|
    requires IsGrid(View(t, from), t.frame.height, t.frame.width) && IsGrid(View(t, to), t.frame.height, t.frame.width)
    ensures from < to < from + t.frame.height ==>
      Repaint(MoveRows(View(t, from), to - from, 0, t.frame.height - (to - from)), View(t, to),
              t.frame.width, 0, t.frame.height - (to - from), t.frame.width, to - from) == View(t, to)
    ensures to < from < to + t.frame.height ==>
      Repaint(MoveRows(View(t, from), 0, from - to, t.frame.height - (from - to)), View(t, to),
              t.frame.width, 0, 0, t.frame.width, from - to) == View(t, to)
  {
    ViewsShare(t, from, to);
    if from < to < from + t.frame.height {
      RepaintCompletes(MoveRows(View(t, from), to - from, 0, t.frame.height - (to - from)), View(t, to),
                       t.frame.width, t.frame.height - (to - from), to - from);
    } else if to < from < to + t.frame.height {
      RepaintCompletes(MoveRows(View(t, from), 0, from - to, t.frame.height - (from - to)), View(t, to),
                       t.frame.width, 0, from - to);
    }
  }
}
