/** The screen engine.  Text lives in a block of lines: the first `cap` of them are
    the history ring, the rest back the screen through `lines`.  Scrolling the
    margin region only renumbers `lines` and adds to `pendingScroll`; `Update`
    moves the glass and repaints the dirty columns. */
module VTermEngine {
  import opened Basics
  import opened Cells
  import opened TermSpec
  import opened Damage
  import opened Refresh
  import opened Machine
  import opened Reverse
  import Lines
  import TermLaws

  class VTerm {
    const frame: Frame

    const text: array<Row>         // text and attrs: one row of cells per line
    const lines: array<nat>        // linenumbers: the line that backs each screen row
    const dirtyStart: array<nat>
    const dirtyEnd: array<nat>

    var scrollTop: nat
    var scrollBot: nat
    var pendingScroll: int         // > 0: the text moved up

    var cursorX: nat
    var cursorY: nat
    var savedX: nat
    var savedY: nat
    var inks: Inks                 // char_attr, s_char_attr and the colour substitutions
    var modes: Modes               // mode_flags

    var historyFull: bool
    var historySave: nat           // history_save_line: the ring slot written next
    var visualStart: nat           // visual_start_line

    var panel: seq<Row>            // what the glass shows

    ghost var term: Term           // the terminal all this stands for

    // -------------------------------------------------------------- abstraction

    ghost function Memory(): Mem
      reads `pendingScroll, `historySave, `historyFull, `visualStart, `panel, text, lines, dirtyStart, dirtyEnd
    {
      Mem(text[..], lines[..], dirtyStart[..], dirtyEnd[..], pendingScroll, historySave, historyFull, visualStart,
          panel)
    }

    /** What the glass owes. */
    ghost function Owes(): Lag
      reads `scrollTop, `scrollBot, `pendingScroll, dirtyStart, dirtyEnd
    {
      Lag(dirtyStart[..], dirtyEnd[..], scrollTop, scrollBot, pendingScroll)
    }

    /** The buffers are distinct, and the registers are the terminal's. */
    ghost predicate Mirrors()
      reads `term, `cursorX, `cursorY, `savedX, `savedY, `scrollTop, `scrollBot, `inks, `modes
    {
      && lines != dirtyStart && lines != dirtyEnd && dirtyStart != dirtyEnd
      && term == Term(frame, term.rows, term.history, cursorX, cursorY, savedX, savedY,
                      scrollTop, scrollBot, inks, modes)
    }

    ghost predicate Stands()
      reads this, text, lines, dirtyStart, dirtyEnd
    {
      (Mirrors() && Machine.Stands(term, Memory())) == true
    }

    ghost predicate Ready()
      reads this, text, lines, dirtyStart, dirtyEnd
    {
      (Mirrors() && Machine.Ready(term, Memory())) == true
    }

    ghost predicate Settled()
      reads this, text, lines, dirtyStart, dirtyEnd
    {
      (Mirrors() && Machine.Settled(term, Memory())) == true
    }

    ghost predicate Idle()
      reads this, text, lines, dirtyStart, dirtyEnd
    {
      Mirrors() && Machine.Idle(term, Memory())
    }

    /** What the methods below ask of a terminal that is ready. */
    lemma Mirrored()
      requires Ready()
      ensures term.Valid() && term.frame == frame && term.cx == cursorX && term.cy == cursorY
      ensures term.savedX == savedX && term.savedY == savedY && term.top == scrollTop && term.bot == scrollBot
      ensures term.inks == inks && term.modes == modes
      ensures 0 < frame.width < 0x8000 && 0 < frame.height < 0x8000 && cursorX <= frame.width && cursorY < frame.height
      ensures scrollTop < 0x1_0000 && scrollBot < frame.height
    {
    }

    /** The shapes of the buffers. */
    lemma Shaped()
      requires Mirrors() && Sound(term, Memory())
      ensures FrameOk(frame) && term.Valid() && visualStart <= |term.history|
      ensures text.Length == frame.cap + frame.height && IsGrid(text[..], text.Length, frame.width)
      ensures lines.Length == dirtyStart.Length == dirtyEnd.Length == frame.height
      ensures Lines.Permuted(lines[..], frame.cap)
      ensures IsGrid(panel, frame.height, frame.width)
    {
    }

    /** total_history_lines */
    function Total(): nat
      reads `historyFull, `historySave
    {
      Lines.Count(frame.cap, historySave, historyFull)
    }

    // ------------------------------------------------------------- construction

    constructor (f: Frame, glass: seq<Row>)
      requires FrameOk(f) && IsGrid(glass, f.height, f.width)
      ensures Idle() && Ready()
      ensures fresh(text) && fresh(lines) && fresh(dirtyStart) && fresh(dirtyEnd)
      ensures frame == f && panel == glass
      ensures term == Initial(f)
    {
      frame := f;
      text := new Row[f.cap + f.height](_ => Repeat(f.width, Cell(SPACE, f.base)));
      lines := new nat[f.height](i => f.cap + i);
      dirtyStart := new nat[f.height](_ => f.width);
      dirtyEnd := new nat[f.height](_ => 0);
      scrollTop, scrollBot, pendingScroll := 0, f.height - 1, 0;
      cursorX, cursorY, savedX, savedY := 0, 0, 0, 0;
      inks, modes := InitialInks(f.base), InitialModes();
      historyFull, historySave, visualStart := false, 0, 0;
      panel := glass;
      term := Initial(f);
      new;
      assert text[..] == Repeat(f.cap + f.height, Repeat(f.width, Cell(SPACE, f.base)));
      InitialSound(f, Memory());
      hide Sound, Machine.Ready, Machine.Settled, Initial;
      FirstClear();
    }

    /** The clearing done by the first resize: everything, then column 0 once more. */
    method FirstClear()
      requires Mirrors() && Sound(term, Memory()) && visualStart == |term.history| && term == Initial(frame)
      modifies `term, text, dirtyStart, dirtyEnd
      ensures Ready() && term == old(term)
    {
      var blank := EraseCell(frame.base, inks.pen);
      PaintAll(blank);
      FillAgain(frame.height, frame.width, 0, 0, 0, frame.height - 1, blank);
      ClearArea(0, 0, 0, frame.height - 1);
    }

    // ----------------------------------------------------------- the glass

    /** The panel's row move: it shifts whole rows, or refuses and changes nothing. */
    method MoveChars(sy: nat, dy: nat, h: nat) returns (moved: bool)
      requires sy + h <= |panel| && dy + h <= |panel|
      modifies `panel
      ensures panel == if moved then MoveRows(old(panel), sy, dy, h) else old(panel)
    {
      moved := *;
      if moved {
        panel := MoveRows(panel, sy, dy, h);
      }
    }

    method DrawChars(attr: CharAttr, x: nat, y: nat, codes: seq<nat>)
      requires y < |panel| && x + |codes| <= |panel[y]|
      modifies `panel
      ensures |panel| == |old(panel)| && |panel[y]| == |old(panel)[y]|
      ensures forall k :: 0 <= k < |panel| && k != y ==> panel[k] == old(panel)[k]
      ensures forall k :: 0 <= k < |panel[y]| ==>
        panel[y][k] == if x <= k < x + |codes| then Cell(codes[k - x], attr) else old(panel)[y][k]
    {
      var drawn := seq(|codes|, i requires 0 <= i < |codes| => Cell(codes[i], attr));
      panel := panel[y := panel[y][..x] + drawn + panel[y][x + |codes|..]];
    }

    // -------------------------------------------------- writes to the text block

    method FillLine(line: nat, x0: nat, x1: nat, c: Cell)
      requires line < text.Length && x0 <= x1 < |text[line]|
      modifies text
      ensures text[..] == old(text[..])[line := FillRow(old(text[line]), x0, x1, c)]
    {
      ghost var row := text[line];
      for x := x0 to x1 + 1
        invariant |text[line]| == |row|
        invariant forall k :: 0 <= k < |row| ==> text[line][k] == if x0 <= k < x then c else row[k]
        invariant text[..] == old(text[..])[line := text[line]]
      {
        text[line] := text[line][x := c];
      }
      assert text[line] == FillRow(row, x0, x1, c);
    }

    /** changed_line: widen the dirty interval of row y. */
    method ChangedLine(y: nat, startX: nat, endX: nat)
      requires 0 < frame.width && dirtyStart.Length == dirtyEnd.Length == frame.height && dirtyStart != dirtyEnd
      modifies dirtyStart, dirtyEnd
      ensures y >= frame.height ==> dirtyStart[..] == old(dirtyStart[..]) && dirtyEnd[..] == old(dirtyEnd[..])
      ensures y < frame.height ==>
        && dirtyStart[..] == old(dirtyStart[..])[y := Min(old(dirtyStart[y]), Min(startX, frame.width - 1))]
        && dirtyEnd[..] == old(dirtyEnd[..])[y := Max(old(dirtyEnd[y]), Min(endX, frame.width - 1))]
    {
      if y >= frame.height { return; }
      var sx := if startX >= frame.width then frame.width - 1 else startX;
      var ex := if endX >= frame.width then frame.width - 1 else endX;
      if dirtyStart[y] > sx { dirtyStart[y] := sx; }
      if dirtyEnd[y] < ex { dirtyEnd[y] := ex; }
    }

    /** The writes of clear_area and screen_align.  They are also made while `lines` is
        being renumbered, so nothing is asked about the rows. */
    method FillCells(startX: nat, startY: nat, endX: nat, endY: nat, c: Cell)
      requires 0 < frame.width && |text[..]| == text.Length && IsGrid(text[..], text.Length, frame.width)
      requires lines.Length == dirtyStart.Length == dirtyEnd.Length == frame.height && dirtyStart != dirtyEnd
      requires lines != dirtyStart && lines != dirtyEnd
      requires Lines.Separate(lines[..], text.Length, startY, endY)
      modifies text, dirtyStart, dirtyEnd
      ensures Memory() == old(Memory()).(text := text[..], lo := dirtyStart[..], hi := dirtyEnd[..])
      ensures IsGrid(text[..], text.Length, frame.width)
      ensures
        if startX <= Min(endX, frame.width - 1)
        then
          && Lines.FilledLines(old(text[..]), text[..], lines[..], startX, startY, Min(endX, frame.width - 1), endY, c)
          && Marked(old(dirtyStart[..]), old(dirtyEnd[..]), dirtyStart[..], dirtyEnd[..],
                    startX, startY, Min(endX, frame.width - 1), endY)
        else
          && text[..] == old(text[..])
          && dirtyStart[..] == old(dirtyStart[..]) && dirtyEnd[..] == old(dirtyEnd[..])
    {
      if startX >= frame.width || startY >= frame.height { return; }
      var ex := if endX >= frame.width then frame.width - 1 else endX;
      var ey := if endY >= frame.height then frame.height - 1 else endY;
      if startX > ex || startY > ey { return; }
      FillRows(startX, startY, ex, ey, c);
      Lines.FilledAll(old(text[..]), text[..], lines[..], frame.width, startX, startY, ex, ey, endY, c);
    }

    method FillRows(startX: nat, startY: nat, ex: nat, ey: nat, c: Cell)
      requires startX <= ex < frame.width && startY <= ey < frame.height && IsGrid(text[..], text.Length, frame.width)
      requires lines.Length == dirtyStart.Length == dirtyEnd.Length == frame.height && dirtyStart != dirtyEnd
      requires lines != dirtyStart && lines != dirtyEnd
      requires Lines.Separate(lines[..], text.Length, startY, ey)
      modifies text, dirtyStart, dirtyEnd
      ensures Memory() == old(Memory()).(text := text[..], lo := dirtyStart[..], hi := dirtyEnd[..])
      ensures IsGrid(text[..], text.Length, frame.width)
      ensures Lines.FilledLines(old(text[..]), text[..], lines[..], startX, startY, ex, ey, c)
      ensures Marked(old(dirtyStart[..]), old(dirtyEnd[..]), dirtyStart[..], dirtyEnd[..], startX, startY, ex, ey)
    {
      ghost var block, lo, hi := text[..], dirtyStart[..], dirtyEnd[..];
      for y := startY to ey + 1
        invariant IsGrid(text[..], text.Length, frame.width)
        invariant Lines.FilledLines(block, text[..], lines[..], startX, startY, ex, y - 1, c)
        invariant Marked(lo, hi, dirtyStart[..], dirtyEnd[..], startX, startY, ex, y - 1)
      {
        hide FillRow, Lines.FilledLines, Marked;
        Lines.FilledNext(block, text[..], lines[..], frame.width, startX, startY, ex, y, c);
        MarkedNext(lo, hi, dirtyStart[..], dirtyEnd[..], startX, startY, ex, y);
        FillLine(lines[y], startX, ex, c);
        ChangedLine(y, startX, ex);
      }
    }

    /** Every cell of a sound screen becomes c, and everything is dirty. */
    method PaintAll(c: Cell)
      requires Mirrors() && Sound(term, Memory()) && visualStart == |term.history|
      modifies `term, text, dirtyStart, dirtyEnd
      ensures Ready() && term == old(term).(rows := Repeat(frame.height, Repeat(frame.width, c)))
    {
      PaintCells(c);
      hide Memory, Machine.Ready, Term.Valid;
      term := term.(rows := Repeat(frame.height, Repeat(frame.width, c)));
    }

    method PaintCells(c: Cell)
      requires Mirrors() && Sound(term, Memory()) && visualStart == |term.history|
      modifies text, dirtyStart, dirtyEnd
      ensures Machine.Ready(term.(rows := Repeat(frame.height, Repeat(frame.width, c))), Memory())
    {
      ghost var m := Memory();
      Shaped();
      Lines.PermutedSeparate(lines[..], frame.cap, 0, frame.height - 1);
      assert m.text == text[..] && m.lines == lines[..] && m.lo == dirtyStart[..] && m.hi == dirtyEnd[..];
      hide Sound, Machine.Ready, Lines.FilledLines, Marked, IsGrid, Lines.Permuted, Lines.Separate, Memory;
      FillRows(0, 0, frame.width - 1, frame.height - 1, c);
      PaintReady(term, m, Memory(), c);
    }

    /** clear_area during input. */
    method ClearArea(startX: nat, startY: nat, endX: nat, endY: nat)
      requires Ready()
      modifies `term, text, dirtyStart, dirtyEnd
      ensures Ready() && term == TermSpec.ClearArea(old(term), startX, startY, endX, endY)
    {
      Mirrored();
      hide Ready, Term.Valid;
      var ex := if endX >= frame.width then frame.width - 1 else endX;
      if startX <= ex {
        ClearInside(startX, startY, ex, endY);
      }
    }

    method ClearInside(startX: nat, startY: nat, endX: nat, endY: nat)
      requires Ready() && startX <= endX < frame.width
      modifies `term, text, dirtyStart, dirtyEnd
      ensures Ready()
      ensures term == old(term).(rows :=
        FillRect(old(term).rows, frame.width, startX, startY, endX, endY, Blank(old(term))))
    {
      ghost var m := Memory();
      Shaped();
      Lines.PermutedSeparate(lines[..], frame.cap, startY, endY);
      assert m.text == text[..] && m.lines == lines[..] && m.lo == dirtyStart[..] && m.hi == dirtyEnd[..];
      hide Sound, Machine.Ready, Lines.FilledLines, Marked, IsGrid, Lines.Permuted, Lines.Separate, Memory;
      FillCells(startX, startY, endX, endY, EraseCell(frame.base, inks.pen));
      FillReady(term, m, Memory(), startX, startY, endX, endY, Blank(term));
      term := term.(rows := FillRect(term.rows, frame.width, startX, startY, endX, endY, Blank(term)));
    }

    method ShiftText(y: nat, startX: nat, endX: nat, num: int)
      requires Ready() && y < frame.height && startX <= endX < frame.width
      requires -(endX + 1 - startX) <= num <= endX + 1 - startX && num != 0
      modifies `term, text, dirtyStart, dirtyEnd
      ensures Ready() && term == TermSpec.ShiftText(old(term), y, startX, endX, num)
    {
      ghost var m := Memory();
      ShiftLine(lines[y], startX, endX, num);
      ChangedLine(y, startX, endX);
      ShiftReady(term, m, Memory(), y, startX, endX, num);
      term := TermSpec.ShiftText(term, y, startX, endX, num);
    }

    /** The writes of shift_text on one line: the move when there is something to keep, then the fill. */
    method ShiftLine(line: nat, startX: nat, endX: nat, num: int)
      requires line < text.Length && startX <= endX < |text[line]|
      requires -(endX + 1 - startX) <= num <= endX + 1 - startX && num != 0
      modifies text
      ensures text[..] == old(text[..])
        [line := Lines.Shifted(old(text[line]), startX, endX, num, EraseCell(frame.base, inks.pen))]
    {
      hide FillRow, Lines.CopyWithin, EraseCell;
      var mx := endX - startX + 1;
      if num < mx && -num < mx {
        text[line] := if num < 0 then Lines.CopyWithin(text[line], startX - num, startX, mx + num)
                      else Lines.CopyWithin(text[line], startX, startX + num, mx - num);
      }
      var x := if num < 0 then num + endX + 1 else startX;
      var n := if num < 0 then -num else num;
      FillLine(line, x, x + n - 1, EraseCell(frame.base, inks.pen));
    }

    // ------------------------------------------------------------------ history

    /** history_scroll: copy the top `num` rows into the ring, oldest slot first. */
    method HistoryScroll(num: nat)
      requires Stands() && num <= frame.height
      modifies `term, `historySave, `historyFull, `visualStart, text
      ensures Stands() && term == PushHistory(old(term), num)
    {
      if frame.cap == 0 {
        NoHistory(term, Memory(), num);
        return;
      }
      KeepLines(num);
      hide Last, Sound, Term.Valid;
      term := PushHistory(term, num);
    }

    method KeepLines(num: nat)
      requires Stands() && num <= frame.height && 0 < frame.cap
      modifies `historySave, `historyFull, `visualStart, text
      ensures term.Valid() && num <= term.frame.height && Machine.Stands(PushHistory(term, num), Memory())
    {
      ghost var m := Memory();
      SavingStarts(term, m);
      hide Sound, Lines.Saving, Lines.Permuted, Pushed, PushHistory, Term.Valid;
      SaveLines(num, term.rows, term.history);
      visualStart := Total();
      HistoryStands(term, m, Memory(), num);
    }

    method SaveLines(num: nat, ghost rows: seq<Row>, ghost history: seq<Row>)
      requires 0 < frame.cap && num <= lines.Length && Lines.Permuted(lines[..], frame.cap)
      requires Lines.Saving(text[..], lines[..], frame.cap, historySave, historyFull, rows, history, frame.width)
      modifies `historySave, `historyFull, text
      ensures Lines.Saving(text[..], lines[..], frame.cap, historySave, historyFull, rows,
                           Pushed(frame.cap, history, rows, num), frame.width)
    {
      ghost var h := history;
      for i := 0 to num
        invariant Lines.Saving(text[..], lines[..], frame.cap, historySave, historyFull, rows, h, frame.width)
        invariant h == Pushed(frame.cap, history, rows, i)
      {
        h := SaveLine(i, rows, h);
      }
    }

    /** One round of history_scroll. */
    method SaveLine(i: nat, ghost rows: seq<Row>, ghost h: seq<Row>) returns (ghost h': seq<Row>)
      requires 0 < frame.cap && i < lines.Length && Lines.Permuted(lines[..], frame.cap)
      requires Lines.Saving(text[..], lines[..], frame.cap, historySave, historyFull, rows, h, frame.width)
      modifies `historySave, `historyFull, text
      ensures h' == Last(frame.cap, h + [rows[i]])
      ensures Lines.Saving(text[..], lines[..], frame.cap, historySave, historyFull, rows, h', frame.width)
    {
      Lines.SaveOne(text[..], lines[..], frame.cap, historySave, historyFull, rows, h, frame.width, i);
      h' := Last(frame.cap, h + [rows[i]]);
      text[historySave] := text[lines[i]];
      historySave := historySave + 1;
      if historySave == frame.cap {
        historySave := 0;
        historyFull := true;
      }
    }

    // ---------------------------------------------------------------- scrolling

    /** scroll_region: renumber the lines of rows startY..endY; when that is the margin
        region, leave the moving of the glass for later.  A scroll of all of a margin region
        of several rows moves nothing, yet is left for later too: `Refresh.SkipHarmless`. */
    method ScrollRegion(startY: nat, endY: nat, num: int)
      requires Stands()
      modifies `term, `historySave, `historyFull, `visualStart, `pendingScroll, text, lines, dirtyStart, dirtyEnd
      ensures Stands() && term == TermSpec.ScrollRegion(old(term), startY, endY, num)
      ensures
        var end := Min(endY, frame.height - 1);
        if num == 0 || startY > end then Owes() == old(Owes()) && Ready() == old(Ready())
        else
          var n := Clamp(num, end + 1 - startY);
          && Owes() == AfterScroll(old(Owes()), startY, end, n, frame.width)
          && (old(Ready()) && !Skips(old(Owes()), startY, end, n) ==> Ready())
    {
      hide Coherent, Lines.Permuted, Lines.Backed, Lines.RingHolds, Bounded, IsGrid, AfterScroll, Skips,
        TermSpec.ScrollClamped;
      var end := Min(endY, frame.height - 1);
      if num == 0 || startY > end { return; }
      var n := Clamp(num, end + 1 - startY);
      RegionIsClamped(term, startY, endY, num);
      ScrollClamped(startY, end, n);
    }

    /** The calls the actions make: never for all of a region of several rows. */
    method ScrollPart(startY: nat, endY: nat, num: int)
      requires Ready()
      requires endY < frame.height && (endY <= startY || -(endY - startY) <= num <= endY - startY)
      modifies `term, `historySave, `historyFull, `visualStart, `pendingScroll, text, lines, dirtyStart, dirtyEnd
      ensures Ready() && term == TermSpec.ScrollRegion(old(term), startY, endY, num)
    {
      ScrollRegion(startY, endY, num);
    }

    method ScrollClamped(startY: nat, endY: nat, num: int)
      requires Stands() && startY <= endY < frame.height && num != 0
      requires -(endY + 1 - startY) <= num <= endY + 1 - startY
      modifies `term, `historySave, `historyFull, `visualStart, `pendingScroll, text, lines, dirtyStart, dirtyEnd
      ensures Stands() && term == TermSpec.ScrollClamped(old(term), startY, endY, num)
      ensures Owes() == AfterScroll(old(Owes()), startY, endY, num, frame.width)
      ensures old(Ready()) && !Skips(old(Owes()), startY, endY, num) ==> Ready()
    {
      ghost var t, m, ready := term, Memory(), Ready();
      if startY == 0 && num > 0 {
        HistoryScroll(num);
      }
      MoveRegion(startY, endY, num);
      ScrollClampedRows(t, startY, endY, num);
      if ready && !Skips(Owed(t, m), startY, endY, num) {
        ScrollReady(t, m, term, Memory(), startY, endY, num);
      }
    }

    method MoveRegion(startY: nat, endY: nat, num: int)
      requires Stands() && startY <= endY < frame.height && num != 0
      requires -(endY + 1 - startY) <= num <= endY + 1 - startY
      modifies `term, `pendingScroll, text, lines, dirtyStart, dirtyEnd
      ensures Stands() && term == TermSpec.MoveRegion(old(term), startY, endY, num)
      ensures Owes() == AfterScroll(old(Owes()), startY, endY, num, frame.width)
    {
      var mx := endY - startY + 1;
      var fast := startY == scrollTop && endY == scrollBot;
      if num < mx && -num < mx {
        RotateRegion(startY, endY, num, fast);
      } else {
        SkipRegion(startY, endY, num, fast);
      }
      hide Sound, Scrolled, Term.Valid, AfterScroll, Memory, Owes;
      term := TermSpec.MoveRegion(term, startY, endY, num);
    }

    /** What MoveRegion leaves, before the ghost terminal follows. */
    ghost predicate Moved(t: Term, startY: nat, endY: nat, num: int, owed: Lag)
      requires t.Valid() && startY <= endY < t.frame.height
      reads this, text, lines, dirtyStart, dirtyEnd
    {
      && Machine.Stands(TermSpec.MoveRegion(t, startY, endY, num), Memory())
      && Owes() == owed
    }

    method RotateRegion(startY: nat, endY: nat, num: int, fast: bool)
      requires Stands() && startY < endY < frame.height && -(endY - startY) <= num <= endY - startY && num != 0
      requires fast == (startY == scrollTop && endY == scrollBot)
      modifies `pendingScroll, text, lines, dirtyStart, dirtyEnd
      ensures term.Valid() && term.frame == frame
      ensures Moved(term, startY, endY, num, AfterScroll(old(Owes()), startY, endY, num, frame.width))
    {
      ghost var m := Memory();
      RotateLines(startY, endY, num, fast);
      hide Sound, Rotated, AfterScroll, TermSpec.MoveRegion, Term.Valid;
      ScrollStands(term, m, Memory(), startY, endY, num);
    }

    method RotateLines(startY: nat, endY: nat, num: int, fast: bool)
      requires Stands() && startY < endY < frame.height && -(endY - startY) <= num <= endY - startY && num != 0
      modifies `pendingScroll, text, lines, dirtyStart, dirtyEnd
      ensures term.Valid() && term.frame == frame && IsGrid(text[..], frame.cap + frame.height, frame.width)
      ensures Rotated(old(Memory()), Memory(), frame.cap, startY, endY, num, fast, frame.width, Blank(term))
    {
      Shaped();
      hide Sound, Travel, Lines.Renumbered, Lines.VacatedCleared, Lines.Permuted, IsGrid, Term.Valid;
      AddPending(if fast then num else 0);
      Renumber(startY, endY, num, fast);
    }

    method AddPending(num: int)
      modifies `pendingScroll
      ensures pendingScroll == old(pendingScroll) + num
      ensures Memory() == old(Memory()).(pending := pendingScroll)
    {
      pendingScroll := pendingScroll + num;
    }

    method SkipRegion(startY: nat, endY: nat, num: int, fast: bool)
      requires Stands() && startY <= endY < frame.height && !(-(endY - startY) <= num <= endY - startY)
      requires fast == (startY == scrollTop && endY == scrollBot)
      modifies `pendingScroll
      ensures term.Valid() && term.frame == frame
      ensures Moved(term, startY, endY, num, AfterScroll(old(Owes()), startY, endY, num, frame.width))
    {
      ghost var m := Memory();
      Shaped();
      hide Sound, AfterScroll, TermSpec.MoveRegion, Term.Valid;
      pendingScroll := if fast then pendingScroll + num else pendingScroll;
      SkipStands(term, m, Memory(), startY, endY, num);
    }

    /** The renumbering loop of scroll_region. */
    method Renumber(startY: nat, endY: nat, num: int, fast: bool)
      requires FrameOk(frame) && text.Length == frame.cap + frame.height && IsGrid(text[..], text.Length, frame.width)
      requires lines.Length == dirtyStart.Length == dirtyEnd.Length == frame.height
      requires lines != dirtyStart && lines != dirtyEnd && dirtyStart != dirtyEnd
      requires Lines.Permuted(lines[..], frame.cap)
      requires startY < endY < frame.height && -(endY - startY) <= num <= endY - startY && num != 0
      modifies text, lines, dirtyStart, dirtyEnd
      ensures IsGrid(text[..], text.Length, frame.width)
      ensures lines[..] == Lines.Renumbered(old(lines[..]), startY, endY + 1, endY, num)
      ensures Lines.VacatedCleared(old(text[..]), text[..], old(lines[..]), frame.cap, startY, endY + 1, endY, num,
                                   Repeat(frame.width, EraseCell(frame.base, inks.pen)))
      ensures dirtyStart[..] == Travel(old(dirtyStart[..]), startY, endY + 1, endY, num, fast, 0)
      ensures dirtyEnd[..] == Travel(old(dirtyEnd[..]), startY, endY + 1, endY, num, fast, frame.width - 1)
    {
      ghost var block, blank := text[..], Repeat(frame.width, EraseCell(frame.base, inks.pen));
      var temp, tempStart, tempEnd := lines[..], dirtyStart[..], dirtyEnd[..];
      Lines.RenumberStarts(temp, block, frame.cap, startY, endY, num, blank);
      TravelStarts(tempStart, startY, endY, num, fast, 0);
      TravelStarts(tempEnd, startY, endY, num, fast, frame.width - 1);
      hide Lines.Renumbered, Lines.VacatedCleared, Travel, Lines.Permuted;
      for y := startY to endY + 1
        invariant IsGrid(text[..], text.Length, frame.width)
        invariant lines[..] == Lines.Renumbered(temp, startY, y, endY, num)
        invariant Lines.VacatedCleared(block, text[..], temp, frame.cap, startY, y, endY, num, blank)
        invariant dirtyStart[..] == Travel(tempStart, startY, y, endY, num, fast, 0)
        invariant dirtyEnd[..] == Travel(tempEnd, startY, y, endY, num, fast, frame.width - 1)
      {
        RenumberRow(y, startY, endY, num, fast, temp, tempStart, tempEnd);
        ClearRow(y, startY, endY, num, fast, temp, block);
      }
    }

    /** What one round does to the text. */
    method ClearRow(y: nat, startY: nat, endY: nat, num: int, fast: bool, ghost temp: seq<nat>, ghost block: seq<Row>)
      requires 0 < frame.width && text.Length == frame.cap + frame.height && IsGrid(text[..], text.Length, frame.width)
      requires lines.Length == dirtyStart.Length == dirtyEnd.Length == frame.height == |temp|
      requires lines != dirtyStart && lines != dirtyEnd && dirtyStart != dirtyEnd
      requires startY <= y <= endY < frame.height && -(endY - startY) <= num <= endY - startY
      requires !fast || !(startY <= y + num <= endY) ==> dirtyStart[y] == 0 && dirtyEnd[y] == frame.width - 1
      requires Lines.Permuted(temp, frame.cap) && |block| == text.Length
      requires lines[..] == Lines.Renumbered(temp, startY, y + 1, endY, num)
      requires Lines.VacatedCleared(block, text[..], temp, frame.cap, startY, y, endY, num,
                                    Repeat(frame.width, EraseCell(frame.base, inks.pen)))
      modifies text, dirtyStart, dirtyEnd
      ensures IsGrid(text[..], text.Length, frame.width)
      ensures dirtyStart[..] == old(dirtyStart[..]) && dirtyEnd[..] == old(dirtyEnd[..])
      ensures Lines.VacatedCleared(block, text[..], temp, frame.cap, startY, y + 1, endY, num,
                                   Repeat(frame.width, EraseCell(frame.base, inks.pen)))
    {
      hide *;
      if y + num < startY || y + num > endY {
        RecycleLine(y, startY, endY, num, temp, block);
      } else {
        Lines.VacatedKeep(block, text[..], temp, frame.cap, startY, y, endY, num,
                          Repeat(frame.width, EraseCell(frame.base, inks.pen)));
      }
    }

    /** The clear_area call inside that loop. */
    method RecycleLine(y: nat, startY: nat, endY: nat, num: int, ghost temp: seq<nat>, ghost block: seq<Row>)
      requires 0 < frame.width && text.Length == frame.cap + frame.height && IsGrid(text[..], text.Length, frame.width)
      requires lines.Length == dirtyStart.Length == dirtyEnd.Length == frame.height == |temp|
      requires lines != dirtyStart && lines != dirtyEnd && dirtyStart != dirtyEnd
      requires startY <= y <= endY < frame.height && -(endY - startY) <= num <= endY - startY
      requires !(startY <= y + num <= endY) && dirtyStart[y] == 0 && dirtyEnd[y] == frame.width - 1
      requires Lines.Permuted(temp, frame.cap) && |block| == text.Length
      requires lines[..] == Lines.Renumbered(temp, startY, y + 1, endY, num)
      requires Lines.VacatedCleared(block, text[..], temp, frame.cap, startY, y, endY, num,
                                    Repeat(frame.width, EraseCell(frame.base, inks.pen)))
      modifies text, dirtyStart, dirtyEnd
      ensures IsGrid(text[..], text.Length, frame.width)
      ensures dirtyStart[..] == old(dirtyStart[..]) && dirtyEnd[..] == old(dirtyEnd[..])
      ensures Lines.VacatedCleared(block, text[..], temp, frame.cap, startY, y + 1, endY, num,
                                   Repeat(frame.width, EraseCell(frame.base, inks.pen)))
    {
      ghost var before, lo, hi := text[..], dirtyStart[..], dirtyEnd[..];
      Lines.RenumberedSeparate(temp, frame.cap, startY, y + 1, endY, num, y);
      FillCells(0, y, frame.width - 1, y, EraseCell(frame.base, inks.pen));
      MarkedAgain(lo, hi, dirtyStart[..], dirtyEnd[..], y, frame.width);
      Lines.VacatedClear(block, before, text[..], temp, frame.cap, startY, y, endY, num, frame.width,
                         EraseCell(frame.base, inks.pen));
    }

    /** The table writes of one round; temp, tempStart and tempEnd are the tables before the loop. */
    method RenumberRow(y: nat, startY: nat, endY: nat, num: int, fast: bool,
                       temp: seq<nat>, tempStart: seq<nat>, tempEnd: seq<nat>)
      requires lines.Length == dirtyStart.Length == dirtyEnd.Length == frame.height && 0 < frame.width
      requires lines != dirtyStart && lines != dirtyEnd && dirtyStart != dirtyEnd
      requires startY <= y <= endY < frame.height == |temp| == |tempStart| == |tempEnd|
      requires -(endY - startY) <= num <= endY - startY
      requires lines[..] == Lines.Renumbered(temp, startY, y, endY, num)
      requires dirtyStart[..] == Travel(tempStart, startY, y, endY, num, fast, 0)
      requires dirtyEnd[..] == Travel(tempEnd, startY, y, endY, num, fast, frame.width - 1)
      modifies lines, dirtyStart, dirtyEnd
      ensures lines[..] == Lines.Renumbered(temp, startY, y + 1, endY, num)
      ensures dirtyStart[..] == Travel(tempStart, startY, y + 1, endY, num, fast, 0)
      ensures dirtyEnd[..] == Travel(tempEnd, startY, y + 1, endY, num, fast, frame.width - 1)
      ensures !fast || !(startY <= y + num <= endY) ==> dirtyStart[y] == 0 && dirtyEnd[y] == frame.width - 1
    {
      var takeY := y + num;
      var clear := takeY < startY || takeY > endY;
      if takeY < startY { takeY := endY + 1 - (startY - takeY); }
      if takeY > endY { takeY := startY - 1 + (takeY - endY); }
      Lines.RenumberedStep(temp, startY, y, endY, num);
      TravelStep(tempStart, startY, y, endY, num, fast, 0);
      TravelStep(tempEnd, startY, y, endY, num, fast, frame.width - 1);
      lines[y] := temp[takeY];
      if !fast || clear {
        dirtyStart[y] := 0;
        dirtyEnd[y] := frame.width - 1;
      } else {
        dirtyStart[y] := tempStart[takeY];
        dirtyEnd[y] := tempEnd[takeY];
      }
    }

    // ----------------------------------------------------------------- painting

    /** get_line: the line behind row y of the view. */
    function GetLine(y: nat): (l: nat)
      requires visualStart + y < 0x1_0000 && visualStart + y < Total() + lines.Length
      requires visualStart + y < Total() ==> 0 < frame.cap
      reads `visualStart, `historySave, `historyFull, lines
    {
      var line: u16 := visualStart + y;
      if line >= Total() then lines[line - Total()]
      else ((if historyFull then historySave else 0) + line) % frame.cap
    }

    /** One row of expose: a drawChars call for every run of equal attributes. */
    method DrawRuns(y: nat, row: Row, startX: nat, endX: nat)
      requires y < |panel| && |panel[y]| == |row| && startX <= endX < |row|
      modifies `panel
      ensures panel == old(panel)
        [y := RepaintRow(old(panel)[y], ShownRow(row, modes.inverse), startX, endX + 1 - startX)]
    {
      ghost var glass := panel;
      var attr := row[startX].attr;
      var codes: seq<nat> := [];
      var start := startX;
      for cur := startX to endX + 1
        invariant |panel| == |glass| && |panel[y]| == |row|
        invariant forall k :: 0 <= k < |panel| && k != y ==> panel[k] == glass[k]
        invariant startX <= start <= cur && |codes| == cur - start
        invariant forall k :: start <= k < cur ==> row[k] == Cell(codes[k - start], attr)
        invariant forall k :: 0 <= k < |row| ==>
          panel[y][k] == if startX <= k < start then Shown(row[k], modes.inverse) else glass[y][k]
      {
        if row[cur].attr != attr {
          DrawChars(attr.(reverse := attr.reverse != modes.inverse), start, y, codes);
          codes := [];
          start := cur;
          attr := row[cur].attr;
        }
        codes := codes + [row[cur].code];
      }
      DrawChars(attr.(reverse := attr.reverse != modes.inverse), start, y, codes);
      assert panel[y] == RepaintRow(glass[y], ShownRow(row, modes.inverse), startX, endX + 1 - startX);
    }

    /** expose: repaint a rectangle of the view. */
    method Expose(x: nat, y: nat, w: nat, h: nat)
      requires Mirrors() && Sound(term, Memory()) && IsGrid(View(term, visualStart), frame.height, frame.width)
      modifies `panel
      ensures Sound(term, Memory()) && panel == Repaint(old(panel), View(term, visualStart), frame.width, x, y, w, h)
    {
      ghost var view := View(term, visualStart);
      if w == 0 || h == 0 || x >= frame.width || y >= frame.height {
        RepaintNothing(panel, view, frame.width, x, y, w, h);
      } else {
        var cols := if x + w > frame.width then frame.width - x else w;
        var count := if y + h > frame.height then frame.height - y else h;
        RepaintClipped(panel, view, frame.width, x, y, cols, count, w, h);
        ExposeInside(x, y, cols, count, view);
      }
    }

    method ExposeInside(x: nat, y: nat, w: nat, h: nat, ghost view: seq<Row>)
      requires Mirrors() && Sound(term, Memory()) && 0 < w && x + w <= frame.width && y + h <= frame.height
      requires view == View(term, visualStart) && IsGrid(view, frame.height, frame.width)
      modifies `panel
      ensures Sound(term, Memory()) && panel == Repaint(old(panel), view, frame.width, x, y, w, h)
    {
      ghost var glass := panel;
      assert IsGrid(panel, frame.height, frame.width) && |panel| == |view| == frame.height;
      hide *;
      RepaintNothing(glass, view, frame.width, x, y, w, 0);
      for i := 0 to h
        invariant Sound(term, Memory())
        invariant panel == Repaint(glass, view, frame.width, x, y, w, i)
      {
        ExposeNext(x, y, w, i, glass, view);
      }
    }

    method ExposeNext(x: nat, y: nat, w: nat, i: nat, ghost glass: seq<Row>, ghost view: seq<Row>)
      requires Mirrors() && Sound(term, Memory()) && 0 < w && x + w <= frame.width && y + i < frame.height
      requires view == View(term, visualStart) && IsGrid(view, frame.height, frame.width)
      requires |view| == |glass| == frame.height
      requires IsGrid(glass, frame.height, frame.width) && panel == Repaint(glass, view, frame.width, x, y, w, i)
      modifies `panel
      ensures Sound(term, Memory()) && panel == Repaint(glass, view, frame.width, x, y, w, i + 1)
    {
      hide *;
      RepaintNextRow(glass, view, frame.width, x, y, w, i);
      ExposeRow(y + i, x, x + w - 1, view);
    }

    method ExposeRow(y: nat, startX: nat, endX: nat, ghost view: seq<Row>)
      requires Mirrors() && Sound(term, Memory()) && y < frame.height && startX <= endX < frame.width
      requires view == View(term, visualStart)
      modifies `panel
      ensures Sound(term, Memory())
      ensures panel == old(panel)[y := RepaintRow(old(panel)[y], view[y], startX, endX + 1 - startX)]
    {
      ghost var glass := panel;
      var line := GetLine(y);
      LineOfView(term, Memory(), y, line);
      DrawRuns(y, text[line], startX, endX);
      GlassDoesNotMatter(glass);
    }

    lemma GlassDoesNotMatter(glass: seq<Row>)
      requires Sound(term, Memory().(panel := glass)) && IsGrid(panel, frame.height, frame.width) && term.frame == frame
      ensures Sound(term, Memory())
    {
    }

    /** update, first part: make the glass catch up with the pending scroll, or mark
        the rows that would have moved. */
    method PayScroll() returns (accepted: bool)
      requires Stands()
      modifies `panel, `pendingScroll, dirtyStart, dirtyEnd
      ensures Stands() && panel == MovedGlass(old(panel), old(Owes()), accepted)
      ensures Owes() == AfterMove(old(Owes()), frame.width, accepted)
      ensures old(Ready()) ==> Ready()
    {
      ghost var m := Memory();
      accepted := MoveGlass();
      pendingScroll := 0;
      PaidKeeps(term, m, Memory(), accepted);
    }

    method MoveGlass() returns (accepted: bool)
      requires Stands()
      modifies `panel, dirtyStart, dirtyEnd
      ensures panel == MovedGlass(old(panel), old(Owes()), accepted)
      ensures Owes().(pending := 0) == AfterMove(old(Owes()), frame.width, accepted)
    {
      var mx := scrollBot - scrollTop + 1;
      if pendingScroll == 0 || pendingScroll >= mx || -pendingScroll >= mx {
        accepted := true;
        NothingToMove(panel, Owes(), true);
        assert Owes().(pending := 0) == AfterMove(Owes(), frame.width, true);
      } else if pendingScroll < 0 {
        accepted := MoveOrMark(scrollTop, scrollTop - pendingScroll, mx + pendingScroll);
      } else {
        accepted := MoveOrMark(scrollTop + pendingScroll, scrollTop, mx - pendingScroll);
      }
    }

    method MoveOrMark(sy: nat, dy: nat, h: nat) returns (accepted: bool)
      requires Stands() && sy - dy == pendingScroll != 0
      requires pendingScroll < scrollBot - scrollTop + 1 && -pendingScroll < scrollBot - scrollTop + 1
      requires dy == if pendingScroll < 0 then scrollTop - pendingScroll else scrollTop
      requires h == scrollBot - scrollTop + 1 - (if pendingScroll < 0 then -pendingScroll else pendingScroll)
      modifies `panel, dirtyStart, dirtyEnd
      ensures panel == MovedGlass(old(panel), old(Owes()), accepted)
      ensures Owes().(pending := 0) == AfterMove(old(Owes()), frame.width, accepted)
    {
      ghost var d := Owes();
      MoveIsMoveRows(panel, d, sy, dy, h);
      accepted := MoveChars(sy, dy, h);
      if !accepted {
        MarkRows(dy, h);
      }
      MarksAreAfterMove(d, dirtyStart[..], dirtyEnd[..], frame.width, dy, h, accepted);
    }

    method MarkRows(y: nat, h: nat)
      requires dirtyStart != dirtyEnd && y + h <= dirtyStart.Length == dirtyEnd.Length && 0 < frame.width
      modifies dirtyStart, dirtyEnd
      ensures forall k :: 0 <= k < dirtyStart.Length ==>
        if y <= k < y + h then dirtyStart[k] == 0 && dirtyEnd[k] == frame.width - 1
        else dirtyStart[k] == old(dirtyStart[k]) && dirtyEnd[k] == old(dirtyEnd[k])
    {
      for i := 0 to h
        invariant forall k :: 0 <= k < dirtyStart.Length ==>
          if y <= k < y + i then dirtyStart[k] == 0 && dirtyEnd[k] == frame.width - 1
          else dirtyStart[k] == old(dirtyStart[k]) && dirtyEnd[k] == old(dirtyEnd[k])
      {
        dirtyStart[y + i] := 0;
        dirtyEnd[y + i] := frame.width - 1;
      }
    }

    /** update: pay the scroll and repaint what is dirty.  If the glass lagged no more than
        was owed, it shows the screen afterwards. */
    method Update()
      requires Stands()
      modifies `panel, `pendingScroll, dirtyStart, dirtyEnd
      ensures Stands() && AllClean(Owes())
      ensures exists accepted :: panel == AfterUpdate(term, old(Memory()), accepted)
      ensures old(Ready()) ==> Ready() && Settled() && panel == Picture(term.rows, modes.inverse)
    {
      ghost var m, ready := Memory(), Ready();
      var accepted := PayScroll();
      ghost var paid := Memory();
      RefreshRows(paid);
      hide Sound, PartlyRefreshed, AfterUpdate, AllClean;
      AllRefreshed(term, m, paid, Memory(), accepted);
      if ready {
        UpdateSettles(term, m, Memory(), accepted);
      }
    }

    /** The loop of update; paid is the memory before it. */
    method RefreshRows(ghost paid: Mem)
      requires Stands() && pendingScroll == 0 && paid == Memory()
      modifies `panel, dirtyStart, dirtyEnd
      ensures Stands() && PartlyRefreshed(term, paid, Memory(), frame.height)
    {
      NothingRefreshed(term, paid);
      for i := 0 to frame.height
        invariant Stands() && PartlyRefreshed(term, paid, Memory(), i)
      {
        RefreshRow(i, paid);
      }
    }

    method RefreshRow(i: nat, ghost paid: Mem)
      requires Stands() && i < frame.height
      requires Machine.Stands(term, paid) && PartlyRefreshed(term, paid, Memory(), i)
      modifies `panel, dirtyStart, dirtyEnd
      ensures Stands() && PartlyRefreshed(term, paid, Memory(), i + 1)
    {
      ghost var before := Memory();
      LineHolds(term, before, i);
      hide Sound, PartlyRefreshed, RefreshedRow;
      if dirtyEnd[i] >= dirtyStart[i] {
        RepaintInterval(i);
      }
      RefreshStep(term, paid, before, Memory(), i);
    }

    method RepaintInterval(i: nat)
      requires Stands() && i < frame.height && dirtyEnd[i] >= dirtyStart[i]
      modifies `panel, dirtyStart, dirtyEnd
      ensures Stands()
      ensures dirtyStart[..] == old(dirtyStart[..])[i := frame.width] && dirtyEnd[..] == old(dirtyEnd[..])[i := 0]
      ensures panel == old(panel)[i := RefreshedRow(term.rows[i], modes.inverse, old(dirtyStart[i]), old(dirtyEnd[i]),
                                                    old(panel)[i])]
    {
      ghost var m := Memory();
      LineHolds(term, m, i);
      hide Sound, RefreshedRow, IsGrid;
      PaintInterval(i);
      CleanRow(i);
      RepaintStands(term, m, Memory(), i);
    }

    method PaintInterval(i: nat)
      requires Stands() && i < frame.height && dirtyEnd[i] >= dirtyStart[i]
      modifies `panel
      ensures panel == old(panel)
        [i := RefreshedRow(term.rows[i], modes.inverse, dirtyStart[i], dirtyEnd[i], old(panel)[i])]
    {
      ghost var m := Memory();
      LineHolds(term, m, i);
      ViewIsGrid(term, visualStart);
      hide Sound, RefreshedRow, Repaint, View, IsGrid;
      Expose(dirtyStart[i], i, dirtyEnd[i] - dirtyStart[i] + 1, 1);
      RepaintedRow(term, m, i);
    }

    method CleanRow(i: nat)
      requires i < dirtyStart.Length == dirtyEnd.Length && dirtyStart != dirtyEnd
      requires lines != dirtyStart && lines != dirtyEnd
      modifies dirtyStart, dirtyEnd
      ensures dirtyStart[..] == old(dirtyStart[..])[i := frame.width] && dirtyEnd[..] == old(dirtyEnd[..])[i := 0]
      ensures text[..] == old(text[..]) && lines[..] == old(lines[..])
    {
      dirtyStart[i] := frame.width;
      dirtyEnd[i] := 0;
    }

    // ---------------------------------------------------------- history display

    /** historyDisplay: move the view through the history. */
    method HistoryDisplay(absolute: bool, num: int)
      requires Idle() && -0x8000_0000 < num < 0x8000_0000
      modifies `visualStart, `panel
      ensures Idle() && (old(Settled()) ==> Settled())
      ensures visualStart == ViewTarget(old(visualStart), |term.history|, absolute, num)
      ensures absolute ==> visualStart == if 0 <= num <= |term.history| then num else |term.history|
      ensures !absolute ==>
        var to := old(visualStart) + num;
        visualStart == if to < 0 then 0 else if to > |term.history| then |term.history| else to
      ensures old(Settled()) ==> Displays(panel, term.history + term.rows, visualStart, modes.inverse)
    {
      ChooseView(absolute, num);
      if old(Settled()) {
        SettledDisplays();
      }
    }

    method ChooseView(absolute: bool, num: int)
      requires Idle() && -0x8000_0000 < num < 0x8000_0000
      modifies `visualStart, `panel
      ensures Idle() && (old(Settled()) ==> Settled())
      ensures visualStart == ViewTarget(old(visualStart), |term.history|, absolute, num)
    {
      if frame.cap == 0 || (absolute && num == visualStart) || (!absolute && num == 0) { return; }
      var target := if absolute then (if num < 0 then num + 0x1_0000_0000 else num)
                    else if visualStart < -num then 0 else visualStart + num;
      if target > Total() { target := Total(); }
      if target != visualStart {
        MoveView(target);
      }
    }

    lemma SettledDisplays()
      requires Settled()
      ensures visualStart <= |term.history| && Displays(panel, term.history + term.rows, visualStart, modes.inverse)
    {
      ViewDisplays(term, visualStart);
      hide View, Displays;
    }

    method MoveView(target: nat)
      requires Settled() && target <= |term.history| && target != visualStart
      modifies `visualStart, `panel
      ensures Settled() && visualStart == target
    {
      ghost var m := Memory();
      var from := visualStart;
      visualStart := target;
      ShowView(from);
      SettledAgain(term, m, target);
    }

    /** The view moved to another window: shift the rows both windows share and repaint
        the others, or repaint everything. */
    method ShowView(from: nat)
      requires Mirrors() && Sound(term, Memory()) && from != visualStart && from <= |term.history|
      requires panel == View(term, from)
      modifies `panel
      ensures panel == View(term, visualStart)
    {
      ViewIsGrid(term, visualStart);
      var moved := false;
      if from < visualStart < from + frame.height {
        moved := MoveOn(from, visualStart - from);
      } else if visualStart < from < visualStart + frame.height {
        moved := MoveBack(from, from - visualStart);
      }
      if !moved {
        ShowAll();
      }
    }

    method ShowAll()
      requires Mirrors() && Sound(term, Memory()) && IsGrid(View(term, visualStart), frame.height, frame.width)
      modifies `panel
      ensures panel == View(term, visualStart)
    {
      assert IsGrid(panel, frame.height, frame.width);
      RepaintCompletes(panel, View(term, visualStart), frame.width, 0, frame.height);
      hide *;
      Expose(0, 0, frame.width, frame.height);
    }

    method MoveOn(from: nat, n: nat) returns (moved: bool)
      requires Mirrors() && Sound(term, Memory()) && visualStart == from + n && 0 < n < frame.height
      requires panel == View(term, from) && IsGrid(View(term, visualStart), frame.height, frame.width)
      modifies `panel
      ensures panel == if moved then View(term, visualStart) else old(panel)
    {
      ViewIsGrid(term, from);
      ViewMoves(term, from, visualStart);
      hide Sound, Repaint, MoveRows, View, IsGrid;
      moved := ShiftView(n, 0, frame.height - n, n);
    }

    method MoveBack(from: nat, n: nat) returns (moved: bool)
      requires Mirrors() && Sound(term, Memory()) && from == visualStart + n && 0 < n < frame.height
      requires from <= |term.history|
      requires panel == View(term, from) && IsGrid(View(term, visualStart), frame.height, frame.width)
      modifies `panel
      ensures panel == if moved then View(term, visualStart) else old(panel)
    {
      ViewIsGrid(term, from);
      ViewMoves(term, from, visualStart);
      hide Sound, Repaint, MoveRows, View, IsGrid;
      moved := ShiftView(0, n, 0, n);
    }

    /** The accelerated move and the repainting of the n rows from updateY on. */
    method ShiftView(sy: nat, dy: nat, updateY: nat, n: nat) returns (moved: bool)
      requires Mirrors() && Sound(term, Memory()) && IsGrid(View(term, visualStart), frame.height, frame.width)
      requires n < frame.height && sy + (frame.height - n) <= frame.height && dy + (frame.height - n) <= frame.height
      requires Repaint(MoveRows(panel, sy, dy, frame.height - n), View(term, visualStart),
                       frame.width, 0, updateY, frame.width, n) == View(term, visualStart)
      modifies `panel
      ensures panel == if moved then View(term, visualStart) else old(panel)
    {
      ghost var glass := panel;
      moved := MoveChars(sy, dy, frame.height - n);
      if moved {
        GlassDoesNotMatter(glass);
        Expose(0, updateY, frame.width, n);
      }
    }

    // ---------------------------------------------------------------- reversing

    /** inverse: flip the reverse bit of the cells in view from (sx, sy) to (ex, ey). */
    method Inverse(sx: nat, sy: nat, ex: nat, ey: nat)
      requires Mirrors() && Sound(term, Memory()) && sx < frame.width && ex < frame.width && ey < frame.height
      modifies `term, text
      ensures Mirrors() && Sound(term, Memory())
      ensures term == Flipped(old(term), visualStart, SpanOf(frame.width, sx, sy, ex, ey))
    {
      if sy > ey || (sy == ey && sx > ex) {
        ReadingOrder(frame.width, sy, sx, ey, ex);
        FlippedNothing(term, visualStart, SpanOf(frame.width, sx, sy, ex, ey));
        return;
      }
      ghost var m := Memory();
      hide Sound, Inverted;
      InverseLines(sx, sy, ex, ey);
      InvertedFlips(term, m, Memory(), sx, sy, ex, ey);
      term := Flipped(term, visualStart, SpanOf(frame.width, sx, sy, ex, ey));
    }

    method InverseLines(sx: nat, sy: nat, ex: nat, ey: nat)
      requires Mirrors() && Sound(term, Memory()) && sx < frame.width && ex < frame.width && sy <= ey < frame.height
      requires sy == ey ==> sx <= ex
      modifies text
      ensures Inverted(term, old(Memory()), text[..], sx, sy, ex, ey, ey + 1)
    {
      ghost var m := Memory();
      InvertedStart(term, m, sx, sy, ex, ey);
      for y := sy to ey + 1
        invariant Inverted(term, m, text[..], sx, sy, ex, ey, y)
      {
        InverseRow(y, sx, sy, ex, ey, m);
      }
    }

    /** One round of inverse; m is the memory before the first. */
    method InverseRow(y: nat, sx: nat, sy: nat, ex: nat, ey: nat, ghost m: Mem)
      requires Mirrors() && Sound(term, m) && m == Memory().(text := m.text)
      requires sy <= y <= ey < frame.height && sx < frame.width && ex < frame.width && (sy == ey ==> sx <= ex)
      requires Inverted(term, m, text[..], sx, sy, ex, ey, y)
      modifies text
      ensures Inverted(term, m, text[..], sx, sy, ex, ey, y + 1)
    {
      RowInView(term, m, y);
      InvertedIsGrid(term, m, text[..], sx, sy, ex, ey, y);
      hide Sound, Inverted, SpanRow, DocLine;
      var l := GetLine(y);
      LineOfView(term, m, y, l);
      InverseSpan(l, y, sx, sy, ex, ey);
      InvertedStep(term, m, old(text[..]), sx, sy, ex, ey, y, l, text[l]);
    }

    method InverseSpan(line: nat, y: nat, sx: nat, sy: nat, ex: nat, ey: nat)
      requires line < text.Length && |text[line]| == frame.width && sx < frame.width && ex < frame.width
      requires sy <= y <= ey && (sy == ey ==> sx <= ex)
      modifies text
      ensures text[..] == old(text[..])[line := SpanRow(old(text[line]), y, sx, sy, ex, ey)]
    {
      ghost var row := text[line];
      InverseLine(line, if y == sy then sx else 0, if y == ey then ex else frame.width - 1);
      assert text[line] == SpanRow(row, y, sx, sy, ex, ey);
    }

    method InverseLine(line: nat, start: nat, end: nat)
      requires line < text.Length && start <= end < |text[line]|
      modifies text
      ensures |text[line]| == |old(text[line])| && text[..] == old(text[..])[line := text[line]]
      ensures forall k :: 0 <= k < |text[line]| ==>
        text[line][k] == if start <= k <= end then Flip(old(text[line])[k]) else old(text[line])[k]
    {
      ghost var row := text[line];
      for x := start to end + 1
        invariant |text[line]| == |row| && text[..] == old(text[..])[line := text[line]]
        invariant forall k :: 0 <= k < |row| ==> text[line][k] == if start <= k < x then Flip(row[k]) else row[k]
      {
        text[line] := text[line][x := Flip(text[line][x])];
      }
    }

    /** Shell's inverseTextColor on row and column: flip the span and repaint it. */
    method InverseShown(sx: nat, sy: nat, ex: nat, ey: nat)
      requires Settled() && sx < frame.width && ex < frame.width && sy <= ey < frame.height && (sy == ey ==> sx <= ex)
      modifies `term, `panel, text
      ensures Settled()
      ensures term == Flipped(old(term), visualStart, SpanOf(frame.width, sx, sy, ex, ey))
    {
      ghost var t, m := term, Memory();
      hide Sound, Flipped, SpanOf, SpanRepainted, View, IsGrid, AllClean;
      Inverse(sx, sy, ex, ey);
      ghost var m' := Memory();
      FlipSettles(t, m, term, m', sx, sy, ex, ey);
      ShowSpan(sx, sy, ex, ey, View(term, visualStart));
      assert Memory() == m'.(panel := View(term, visualStart));
    }

    method ShowSpan(sx: nat, sy: nat, ex: nat, ey: nat, ghost view: seq<Row>)
      requires Mirrors() && Sound(term, Memory())
      requires view == View(term, visualStart) && IsGrid(view, frame.height, frame.width)
      requires sx < frame.width && ex < frame.width && sy <= ey < frame.height && (sy == ey ==> sx <= ex)
      modifies `panel
      ensures Sound(term, Memory()) && panel == SpanRepainted(old(panel), view, frame.width, sx, sy, ex, ey)
    {
      hide Sound, Repaint, LaterRepainted, View;
      Expose(sx, sy, (if sy == ey then ex + 1 else frame.width) - sx, 1);
      ShowLater(sy, ex, ey, view);
    }

    method ShowLater(sy: nat, ex: nat, ey: nat, ghost view: seq<Row>)
      requires Mirrors() && Sound(term, Memory())
      requires view == View(term, visualStart) && IsGrid(view, frame.height, frame.width)
      requires ex < frame.width && sy <= ey < frame.height
      modifies `panel
      ensures Sound(term, Memory())
      ensures panel == LaterRepainted(old(panel), view, frame.width, sy, ex, ey)
    {
      if ey > sy + 1 {
        Expose(0, sy + 1, frame.width, ey - sy - 1);
      }
      if ey > sy {
        Expose(0, ey, ex + 1, 1);
      }
    }

    // ------------------------------------------------------------------ actions

    method MoveCursor(x: nat, y: nat)
      requires Ready()
      modifies `term, `cursorX, `cursorY
      ensures Ready() && term == TermSpec.MoveCursor(old(term), x, y)
    {
      cursorX := if x >= frame.width then frame.width - 1 else x;
      cursorY := if y >= frame.height then frame.height - 1 else y;
      RegistersReady(term, TermSpec.MoveCursor(term, x, y), Memory());
      term := TermSpec.MoveCursor(term, x, y);
    }

    method Lf()
      requires Ready()
      modifies this, text, lines, dirtyStart, dirtyEnd
      ensures Ready() && term == DoLf(old(term))
    {
      if cursorY < scrollBot {
        MoveCursor(cursorX, cursorY + 1);
      } else {
        ScrollPart(scrollTop, scrollBot, 1);
      }
      if modes.crlf {
        MoveCursor(0, cursorY);
      }
    }

    method NextLine()
      requires Ready()
      modifies this, text, lines, dirtyStart, dirtyEnd
      ensures Ready() && term == DoNextLine(old(term))
    {
      Lf();
      MoveCursor(0, cursorY);
    }

    method IndexUp()
      requires Ready()
      modifies this, text, lines, dirtyStart, dirtyEnd
      ensures Ready() && term == DoIndexUp(old(term))
    {
      if cursorY > scrollTop {
        MoveCursor(cursorX, cursorY - 1);
      } else {
        ScrollPart(scrollTop, scrollBot, -1);
      }
    }

    /** do_normal_char for a single-width character, insert mode off: it stands where the cursor was, with the
        pen's looks; a cursor past the last column first goes to the next line or back to the last column. */
    method Print(ch: nat)
      requires Ready()
      modifies this, text, lines, dirtyStart, dirtyEnd
      ensures Ready() && term == DoPrint(old(term), ch)
      ensures old(cursorX) < frame.width ==>
        && old(cursorY) < |term.rows| && old(cursorX) < |term.rows[old(cursorY)]|
        && term == old(term).(rows := term.rows, cx := old(cursorX) + 1)
        && TermLaws.Inked(old(inks), ch, term.rows[old(cursorY)][old(cursorX)])
    {
      ghost var t := term;
      Mirrored();
      PrintPlaced(ch);
      if t.cx < t.frame.width {
        TermLaws.Prints(t, ch);
        TermLaws.StepIsEdit(t, Action.Print(ch));
      }
      hide Ready, DoPrint, TermLaws.Inked, Step;
    }

    method PrintPlaced(ch: nat)
      requires Ready()
      modifies this, text, lines, dirtyStart, dirtyEnd
      ensures Ready() && term == DoPrint(old(term), ch)
    {
      Place();
      PutCell(InkCell(inks, if ch > 0xffff then REPLACEMENT else ch));
    }

    method Place()
      requires Ready()
      modifies this, text, lines, dirtyStart, dirtyEnd
      ensures Ready() && term == Placed(old(term))
    {
      if cursorX >= frame.width {
        if modes.autoWrap {
          NextLine();
        } else {
          cursorX := frame.width - 1;
          RegistersReady(term, Placed(term), Memory());
          term := Placed(term);
        }
      }
    }

    method PutCell(c: Cell)
      requires Ready() && cursorX < frame.width
      modifies `term, `cursorX, text, dirtyStart, dirtyEnd
      ensures Ready() && term == TermSpec.PutCell(old(term), c)
    {
      WriteCell(c);
      hide Sound, Machine.Ready, Memory;
      Advance();
    }

    method WriteCell(c: Cell)
      requires Ready() && cursorX < frame.width
      modifies `term, text, dirtyStart, dirtyEnd
      ensures Ready() && cursorY < |old(term).rows| && cursorX < |old(term).rows[cursorY]|
      ensures term == old(term).(rows := old(term).rows[cursorY := old(term).rows[cursorY][cursorX := c]])
    {
      ghost var m, t := Memory(), term;
      LineHolds(t, m, cursorY);
      hide Sound, Machine.Ready, Term.Valid;
      ghost var row := t.rows[cursorY][cursorX := c];
      ChangedLine(cursorY, cursorX, cursorX);
      text[lines[cursorY]] := text[lines[cursorY]][cursorX := c];
      term := t.(rows := t.rows[cursorY := row]);
      RowReady(t, m, Memory(), cursorY, row, cursorX, cursorX);
    }

    method Advance()
      requires Ready() && cursorX < frame.width
      modifies `term, `cursorX
      ensures Ready() && term == old(term).(cx := old(term).cx + 1)
    {
      ghost var want := term.(cx := term.cx + 1);
      RegistersReady(term, want, Memory());
      hide Memory, Machine.Ready, Term.Valid;
      cursorX := cursorX + 1;
      term := want;
    }

    /** insert_char and delete_char. */
    method ShiftChars(n: u16, right: bool)
      requires Ready()
      modifies `term, text, dirtyStart, dirtyEnd
      ensures Ready() && term == DoShiftChars(old(term), n, right)
    {
      var k: nat := if n < 1 then 1 else n;
      var num: int := if right then k else -(k as int);
      ShiftCharsParts(n, right, k, num);
      hide *;
      if k >= frame.width - cursorX {
        ClearArea(cursorX, cursorY, frame.width - 1, cursorY);
      } else {
        ShiftText(cursorY, cursorX, frame.width - 1, num);
      }
    }

    lemma ShiftCharsParts(n: u16, right: bool, k: nat, num: int)
      requires Ready() && k == TermSpec.Count(n) && num == if right then k else -(k as int)
      ensures term.Valid() && 0 < frame.width && cursorX <= frame.width && cursorY < frame.height
      ensures k >= frame.width - cursorX ==>
        DoShiftChars(term, n, right) == TermSpec.ClearArea(term, cursorX, cursorY, frame.width - 1, cursorY)
      ensures k < frame.width - cursorX ==>
        DoShiftChars(term, n, right) == TermSpec.ShiftText(term, cursorY, cursorX, frame.width - 1, num)
    {
      Mirrored();
      ShiftCharsCases(term, n, right, k, num);
      hide *;
    }

    method EraseChar(n: u16)
      requires Ready()
      modifies `term, text, dirtyStart, dirtyEnd
      ensures Ready() && term == DoEraseChar(old(term), n)
    {
      // past the last column there is nothing to erase, and clear_area returns at once
      ClearArea(cursorX, cursorY, EraseEnd(cursorX, frame.width, n), cursorY);
    }

    /** insert_line and delete_line; below the region mx wraps to a huge number. */
    method ShiftLines(n: u16, down: bool)
      requires Ready()
      modifies this, text, lines, dirtyStart, dirtyEnd
      ensures Ready() && term == DoShiftLines(old(term), n, down)
    {
      Mirrored();
      var k: nat := if n < 1 then 1 else n;
      var mx := scrollBot + 1 - cursorY + (if cursorY > scrollBot + 1 then 0x1_0000 else 0);
      var num: int := if down then -(k as int) else k;
      ShiftLinesCases(term, n, down, k, num, mx);
      hide *;
      if k >= mx {
        ClearToMargin();
      } else {
        ScrollPart(cursorY, scrollBot, num);
      }
    }

    method ClearToMargin()
      requires Ready()
      modifies `term, text, dirtyStart, dirtyEnd
      ensures Ready()
      ensures term == if cursorY > scrollBot then old(term)
                      else TermSpec.ClearArea(old(term), 0, cursorY, frame.width - 1, scrollBot)
    {
      if cursorY > scrollBot {
        FillNothing(term.rows, frame.width, 0, cursorY, frame.width - 1, scrollBot, Blank(term));
      }
      ClearArea(0, cursorY, frame.width - 1, scrollBot);
    }

    method EraseLine(which: u16)
      requires Ready()
      modifies `term, text, dirtyStart, dirtyEnd
      ensures Ready() && term == DoEraseLine(old(term), which)
    {
      if which <= 2 {
        ClearArea(if which == 0 then cursorX else 0, cursorY, if which == 1 then cursorX else frame.width - 1, cursorY);
      }
    }

    method EraseDisplay(which: u16)
      requires Ready()
      modifies `term, text, dirtyStart, dirtyEnd
      ensures Ready() && term == DoEraseDisplay(old(term), which)
    {
      match which
      case 0 => EraseBelow();
      case 1 => EraseAbove();
      case 2 => ClearArea(0, 0, frame.width - 1, frame.height - 1);
      case _ =>
    }

    method EraseBelow()
      requires Ready()
      modifies `term, text, dirtyStart, dirtyEnd
      ensures Ready() && term == TermSpec.EraseBelow(old(term))
    {
      assert term.Valid() && 0 < frame.width && TermSpec.EraseBelow(term)
        == RowsBelowErased(TermSpec.ClearArea(term, cursorX, cursorY, frame.width - 1, cursorY)) by {
        Mirrored();
        EraseBelowParts(term);
      }
      hide *;
      ClearArea(cursorX, cursorY, frame.width - 1, cursorY);
      EraseRowsBelow();
    }

    method EraseRowsBelow()
      requires Ready()
      modifies `term, text, dirtyStart, dirtyEnd
      ensures Ready() && term == RowsBelowErased(old(term))
    {
      Mirrored();
      hide Ready, Term.Valid, TermSpec.ClearArea;
      if cursorY < frame.height - 1 {
        ClearArea(0, cursorY + 1, frame.width - 1, frame.height - 1);
      }
    }

    method EraseAbove()
      requires Ready()
      modifies `term, text, dirtyStart, dirtyEnd
      ensures Ready() && term == TermSpec.EraseAbove(old(term))
    {
      ClearArea(0, cursorY, cursorX, cursorY);
      if cursorY > 0 {
        ClearArea(0, 0, frame.width - 1, cursorY - 1);
      }
    }

    method SetMargins(first: u16, last: u16)
      requires Ready()
      modifies `term, `scrollTop, `scrollBot, `cursorX, `cursorY, `pendingScroll, `panel, dirtyStart, dirtyEnd
      ensures Ready() && term == DoSetMargins(old(term), first, last)
    {
      Mirrored();
      var top := if first < 1 then 0 else first - 1;
      var bot := (if last < 1 || last > frame.height then frame.height else last) - 1;
      MarginsSet(term, first, last, top, bot);
      hide *;
      PayIfPending();
      SetRegion(top, bot);
      CursorIntoMargins();
    }

    method PayIfPending()
      requires Ready()
      modifies `panel, `pendingScroll, dirtyStart, dirtyEnd
      ensures Ready() && pendingScroll == 0
    {
      if pendingScroll != 0 {
        Update();
      }
    }

    method SetRegion(top: nat, bot: nat)
      requires Ready() && pendingScroll == 0 && top < 0x1_0000 && bot < frame.height
      modifies `term, `scrollTop, `scrollBot
      ensures Ready() && term == old(term).(top := top, bot := bot)
    {
      scrollTop, scrollBot := top, bot;
      MarginsReady(term, Memory(), top, bot);
      term := term.(top := top, bot := bot);
    }

    method CursorIntoMargins()
      requires Ready()
      modifies `term, `cursorX, `cursorY
      ensures Ready() && term == IntoMargins(old(term))
    {
      Mirrored();
      hide Ready, Term.Valid;
      if cursorY < scrollTop {
        MoveCursor(cursorX, scrollTop);
      }
      Mirrored();
      if cursorY > scrollBot {
        MoveCursor(cursorX, scrollBot);
      }
    }

    /** enable_mode 1005: inverse screen.  Every line is marked, since every cell looks different. */
    method SetInverse(on: bool)
      requires Ready()
      modifies `term, `modes, dirtyStart, dirtyEnd
      ensures Ready() && term == DoSetInverse(old(term), on)
    {
      ghost var m := Memory();
      modes := modes.(inverse := on);
      MarkAll();
      term := term.(modes := modes);
      AllDirtyReady(term, Memory());
    }

    method MarkAll()
      requires 0 < frame.width && dirtyStart.Length == dirtyEnd.Length == frame.height && dirtyStart != dirtyEnd
      requires Bounded(dirtyStart[..], dirtyEnd[..], frame.width)
      modifies dirtyStart, dirtyEnd
      ensures Bounded(dirtyStart[..], dirtyEnd[..], frame.width)
      ensures forall y :: 0 <= y < frame.height ==> dirtyStart[..][y] == 0 && dirtyEnd[..][y] == frame.width - 1
    {
      for i := 0 to frame.height
        invariant Bounded(dirtyStart[..], dirtyEnd[..], frame.width)
        invariant forall y :: 0 <= y < i ==> dirtyStart[..][y] == 0 && dirtyEnd[..][y] == frame.width - 1
      {
        ChangedLine(i, 0, frame.width - 1);
      }
    }

    method Reset()
      requires Ready()
      modifies this, text, dirtyStart, dirtyEnd
      ensures Ready() && term == DoReset(old(term))
    {
      Mirrored();
      ForgottenPainted(term);
      hide Ready;
      ForgetRegisters();
      PaintAll(EraseCell(frame.base, inks.pen));
    }

    method ForgetRegisters()
      requires Ready()
      modifies this
      ensures Mirrors() && Sound(term, Memory()) && visualStart == |term.history| && term == Forgotten(old(term))
    {
      ghost var want := Forgotten(term);
      ResetSound(term, Memory());
      ForgottenParts(term);
      hide Sound, Machine.Ready, Term.Valid, Forgotten, InitialInks, InitialModes;
      pendingScroll := 0;
      ClearRegisters();
      term := want;
    }

    method ClearRegisters()
      requires 0 < frame.height
      modifies `scrollTop, `scrollBot, `cursorX, `cursorY, `savedX, `savedY, `inks, `modes
      ensures scrollTop == cursorX == cursorY == savedX == savedY == 0 && scrollBot == frame.height - 1
      ensures inks == InitialInks(frame.base) && modes == InitialModes()
    {
      hide *;
      scrollTop, scrollBot := 0, frame.height - 1;
      cursorX, cursorY, savedX, savedY := 0, 0, 0, 0;
      inks, modes := InitialInks(frame.base), InitialModes();
    }

    method ScreenAlign()
      requires Ready()
      modifies `term, text, dirtyStart, dirtyEnd
      ensures Ready() && term == DoScreenAlign(old(term))
    {
      PaintAll(InkCell(inks, LETTER_E));
    }

    /** Where a cursor action wants the cursor. */
    function CursorTarget(a: Action): (at: (int, int))
      requires IsCursorAction(a) && 0 < frame.width && 0 < frame.height
      reads `cursorX, `cursorY, `savedX, `savedY, `scrollTop, `modes
      ensures 0 <= at.0 && 0 <= at.1
    {
      match a
      case Cr => (0, cursorY)
      case Bs => (Sub(cursorX, 1), cursorY)
      case CursorLeft(n) => (Sub(cursorX, TermSpec.Count(n)), cursorY)
      case CursorRight(n) => (WithinU16(cursorX + TermSpec.Count(n), frame.width), cursorY)
      case CursorUp(n) => (cursorX, Sub(cursorY, TermSpec.Count(n)))
      case CursorDown(n) => (cursorX, WithinU16(cursorY + TermSpec.Count(n), frame.height))
      case CursorUpCr(n) => (0, Sub(cursorY, TermSpec.Count(n)))
      case CursorDownCr(n) => (0, WithinU16(cursorY + TermSpec.Count(n), frame.height))
      case CursorPosition(row, col) =>
        (TermSpec.Count(col) - 1, (TermSpec.Count(row) - 1 + (if modes.origin then scrollTop else 0)) % 0x1_0000)
      case CursorPositionCol(col) => (TermSpec.Count(col) - 1, cursorY)
      case CursorPositionRow(row) => (cursorX, TermSpec.Count(row) - 1)
      case RestoreCursor => (savedX, savedY)
    }

    /** The actions that only move the cursor. */
    method PerformCursor(a: Action)
      requires Ready() && IsCursorAction(a)
      modifies `term, `cursorX, `cursorY, `inks
      ensures Ready() && term == StepCursor(old(term), a)
    {
      CursorHeld(a);
      hide *;
      var at := CursorTarget(a);
      if a.RestoreCursor? {
        TakeSavedPen();
      }
      MoveCursor(at.0, at.1);
    }

    /** Held within the screen the target is the one meant. */
    lemma CursorHeld(a: Action)
      requires Ready() && IsCursorAction(a)
      ensures 0 < frame.width && 0 < frame.height && term.Valid()
      ensures StepCursor(term, a) == TermSpec.MoveCursor(if a.RestoreCursor? then RestorePen(term) else term,
                                                         CursorTarget(a).0, CursorTarget(a).1)
    {
      Mirrored();
      hide Ready, Term.Valid;
      ColumnHeld(a);
      RowHeld(a);
      assert RestorePen(term).frame == frame;
      hide Target, CursorTarget, RestorePen, Min;
    }

    lemma ColumnHeld(a: Action)
      requires IsCursorAction(a) && term.cx == cursorX && term.savedX == savedX && 0 < frame.width && 0 < frame.height
      ensures Min(Target(term, a).0, frame.width - 1) == Min(CursorTarget(a).0, frame.width - 1)
    {
    }

    lemma RowHeld(a: Action)
      requires IsCursorAction(a) && term.cy == cursorY && term.savedY == savedY && 0 < frame.width && 0 < frame.height
      requires term.top == scrollTop && term.modes == modes
      ensures Min(Target(term, a).1, frame.height - 1) == Min(CursorTarget(a).1, frame.height - 1)
    {
    }

    method TakeSavedPen()
      requires Ready()
      modifies `term, `inks
      ensures Ready() && term == RestorePen(old(term))
    {
      ghost var want := RestorePen(term);
      RegistersReady(term, want, Memory());
      hide Memory, Machine.Ready, Term.Valid;
      inks := inks.(pen := inks.savedPen);
      term := want;
    }

    method SetRegisters(inks: Inks, modes: Modes, savedX: nat, savedY: nat)
      requires Ready() && modes.inverse == this.modes.inverse && savedX < 0x1_0000 && savedY < 0x1_0000
      modifies `term, `inks, `modes, `savedX, `savedY
      ensures Ready() && term == old(term).(inks := inks, modes := modes, savedX := savedX, savedY := savedY)
    {
      Mirrored();
      ghost var want := term.(inks := inks, modes := modes, savedX := savedX, savedY := savedY);
      RegistersValid(term, inks, modes, savedX, savedY);
      RegistersReady(term, want, Memory());
      hide Memory, Machine.Ready, Term.Valid;
      this.inks, this.modes, this.savedX, this.savedY := inks, modes, savedX, savedY;
      term := want;
    }

    /** The actions that only set an attribute or a mode, or save the cursor. */
    method PerformMode(a: Action)
      requires Ready() && IsModeAction(a)
      modifies `term, `inks, `modes, `savedX, `savedY
      ensures Ready() && term == StepMode(old(term), a)
    {
      StepModeParts(term, a);
      hide *;
      SetRegisters(StepInks(inks, a), StepModes(modes, a), if a.SaveCursor? then cursorX else savedX,
                   if a.SaveCursor? then cursorY else savedY);
    }

    /** The actions that edit the text at the cursor. */
    method PerformEdit(a: Action)
      requires Ready() && !IsCursorAction(a) && !IsModeAction(a) && IsCursorEdit(a)
      modifies this, text, lines, dirtyStart, dirtyEnd
      ensures Ready() && term == StepEdit(old(term), a)
    {
      Mirrored();
      hide Ready, Term.Valid, DoPrint, DoLf, DoNextLine, DoIndexUp, DoShiftChars, DoEraseChar, DoShiftLines;
      match a
      case Print(ch) => Print(ch);
      case Lf => Lf();
      case NextLine => NextLine();
      case IndexUp => IndexUp();
      case InsertChar(n) => ShiftChars(n, true);
      case DeleteChar(n) => ShiftChars(n, false);
      case EraseChar(n) => EraseChar(n);
      case InsertLine(n) => ShiftLines(n, true);
      case DeleteLine(n) => ShiftLines(n, false);
    }

    /** The actions that change the screen wherever the cursor is, and those that set it up. */
    method PerformScreen(a: Action)
      requires Ready() && !IsCursorAction(a) && !IsModeAction(a) && !IsCursorEdit(a)
      modifies this, text, dirtyStart, dirtyEnd
      ensures Ready() && term == StepEdit(old(term), a)
    {
      Mirrored();
      hide Ready, Term.Valid, DoEraseLine, DoEraseDisplay, DoScreenAlign, DoSetMargins, DoSetInverse, DoReset;
      match a
      case EraseLine(which) => EraseLine(which);
      case EraseDisplay(which) => EraseDisplay(which);
      case ScreenAlign => ScreenAlign();
      case SetMargins(first, last) => SetMargins(first, last);
      case SetInverse(on) => SetInverse(on);
      case Reset => Reset();
    }

    method Perform(a: Action)
      requires Ready()
      modifies this, text, lines, dirtyStart, dirtyEnd
      ensures Ready() && term == Step(old(term), a)
    {
      if IsCursorAction(a) {
        PerformCursor(a);
      } else if IsModeAction(a) {
        PerformMode(a);
      } else if IsCursorEdit(a) {
        PerformEdit(a);
      } else {
        PerformScreen(a);
      }
    }

    /** input: snap the view back to the screen, perform the actions, update the glass.
        Whatever they were and however often the glass refused to move, it ends up
        showing exactly the screen those actions mean. */
    method Input(actions: seq<Action>)
      requires Idle()
      modifies this, text, lines, dirtyStart, dirtyEnd
      ensures Settled() && Idle() && visualStart == |term.history|
      ensures term == Run(old(term), actions)
      ensures panel == Picture(Run(old(term), actions).rows, Run(old(term), actions).modes.inverse)
      ensures Displays(panel, Run(old(term), actions).rows, 0, Run(old(term), actions).modes.inverse)
    {
      ghost var t := term;
      if visualStart != Total() {
        HistoryDisplay(true, Total());
      }
      SettledIsReady(term, Memory());
      for i := 0 to |actions|
        invariant Ready() && term == Run(t, actions[..i])
      {
        assert actions[..i + 1][..i] == actions[..i];
        Perform(actions[i]);
      }
      assert actions[..|actions|] == actions;
      PictureDisplays(Run(t, actions).rows, Run(t, actions).modes.inverse);
      Update();
    }
  }
}
