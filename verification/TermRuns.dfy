/** What whole runs of actions do to a terminal. */
module TermRuns {
  import opened Basics
  import opened Cells
  import opened TermSpec

  // ------------------------------------------------------- the scrolled-off log

  /** The action makes a line feed at or below the bottom margin. */
  predicate Feeds(t: Term, a: Action) {
    t.cy >= t.bot && (a.Lf? || a.NextLine? || (a.Print? && t.cx >= t.frame.width && t.modes.autoWrap))
  }

  /** The rows an action pushes off the top of the screen. */
  function ScrolledOff(t: Term, a: Action): seq<Row>
    requires t.Valid()
  {
    if Feeds(t, a) && t.top == 0 then t.rows[..1]
    else if a.DeleteLine? && t.cy == 0 && Count(a.n) <= t.bot then t.rows[..Count(a.n)]
    else []
  }

  function Log(t: Term, actions: seq<Action>): seq<Row>
    requires t.Valid()
  {
    if actions == [] then []
    else
      var before := actions[..|actions| - 1];
      Log(t, before) + ScrolledOff(Run(t, before), actions[|actions| - 1])
  }

  /** u is a later state of t's terminal, and `off` scrolled off in between. */
  ghost predicate Logged(t: Term, u: Term, off: seq<Row>) {
    u.frame == t.frame && u.history == Last(t.frame.cap, t.history + off)
  }

  /** The history after any run is the last `cap` rows of everything that ever scrolled off. */
  lemma {:induction false} HistoryIsLog(t: Term, actions: seq<Action>)
    requires t.Valid()
    ensures Run(t, actions).history == Last(t.frame.cap, t.history + Log(t, actions))
    ensures Run(t, actions).frame == t.frame
  {
    if actions == [] {
      assert t.history + Log(t, actions) == t.history;
    } else {
      var before, a := actions[..|actions| - 1], actions[|actions| - 1];
      HistoryIsLog(t, before);
      StepLogs(Run(t, before), a);
      LogsChain(t, Run(t, before), Step(Run(t, before), a), Log(t, before), ScrolledOff(Run(t, before), a));
    }
  }

  lemma LogsChain(t: Term, u: Term, v: Term, off: seq<Row>, off': seq<Row>)
    requires Logged(t, u, off) && Logged(u, v, off')
    ensures Logged(t, v, off + off')
  {
    hide Last;
    LastOfLast(t.frame.cap, t.history + off, off');
    Joins(t.history, off, off');
  }

  lemma NothingOff(t: Term, u: Term)
    requires t.Valid() && u.frame == t.frame && u.history == t.history
    ensures Logged(t, u, [])
  {
  }

  lemma ScrollLogs(t: Term, start: nat, end: nat, num: int)
    requires t.Valid() && end < t.frame.height
    ensures Logged(t, ScrollRegion(t, start, end, num),
                   if start == 0 && num > 0 then t.rows[..Min(num, end + 1)] else [])
  {
    if start != 0 || num <= 0 {
      NothingOff(t, ScrollRegion(t, start, end, num));
    }
  }

  lemma FeedLogs(t: Term)
    requires t.Valid()
    ensures Logged(t, DoLf(t), if t.cy >= t.bot && t.top == 0 then t.rows[..1] else [])
  {
    if t.cy < t.bot {
      NothingOff(t, DoLf(t));
    } else {
      ScrollLogs(t, t.top, t.bot, 1);
    }
  }

  lemma LinesLog(t: Term, n: u16, down: bool)
    requires t.Valid()
    ensures Logged(t, DoShiftLines(t, n, down),
                   if !down && t.cy == 0 && Count(n) <= t.bot then t.rows[..Count(n)] else [])
  {
    if t.cy > t.bot || Count(n) > t.bot - t.cy {
      NothingOff(t, DoShiftLines(t, n, down));
    } else {
      ScrollLogs(t, t.cy, t.bot, if down then -(Count(n) as int) else Count(n));
    }
  }

  lemma StepLogs(t: Term, a: Action)
    requires t.Valid()
    ensures Logged(t, Step(t, a), ScrolledOff(t, a))
  {
    if a.Lf? || a.NextLine? || (a.Print? && t.cx >= t.frame.width && t.modes.autoWrap) {
      FeedingLogs(t, a);
    } else if a.InsertLine? || a.DeleteLine? {
      LinesStepLogs(t, a);
    } else {
      QuietLogs(t, a);
    }
  }

  lemma FeedingLogs(t: Term, a: Action)
    requires t.Valid() && (a.Lf? || a.NextLine? || (a.Print? && t.cx >= t.frame.width && t.modes.autoWrap))
    ensures Logged(t, Step(t, a), ScrolledOff(t, a))
  {
    FeedLogs(t);
    FeedingStep(t, a);
  }

  lemma LinesStepLogs(t: Term, a: Action)
    requires t.Valid() && (a.InsertLine? || a.DeleteLine?)
    ensures Logged(t, Step(t, a), ScrolledOff(t, a))
  {
    LinesLog(t, a.n, a.InsertLine?);
    hide DoShiftLines, Last;
    assert Step(t, a) == DoShiftLines(t, a.n, a.InsertLine?);
  }

  lemma QuietLogs(t: Term, a: Action)
    requires t.Valid() && !a.Lf? && !a.NextLine? && !a.InsertLine? && !a.DeleteLine?
    requires a.Print? ==> t.cx < t.frame.width || !t.modes.autoWrap
    ensures Logged(t, Step(t, a), ScrolledOff(t, a))
  {
    QuietStep(t, a);
    NothingOff(t, Step(t, a));
  }

  lemma FeedingStep(t: Term, a: Action)
    requires t.Valid() && (a.Lf? || a.NextLine? || (a.Print? && t.cx >= t.frame.width && t.modes.autoWrap))
    ensures Step(t, a).frame == DoLf(t).frame && Step(t, a).history == DoLf(t).history
  {
    hide ScrollRegion;
  }

  lemma QuietStep(t: Term, a: Action)
    requires t.Valid() && !a.Lf? && !a.NextLine? && !a.InsertLine? && !a.DeleteLine?
    requires a.Print? ==> t.cx < t.frame.width || !t.modes.autoWrap
    ensures Step(t, a).frame == t.frame && Step(t, a).history == t.history
  {
    if IsCursorAction(a) {
      assert Step(t, a) == StepCursor(t, a);
    } else if IsModeAction(a) {
      assert Step(t, a) == StepMode(t, a);
    } else {
      assert Step(t, a) == StepEdit(t, a);
    }
  }

  // ------------------------------------------------------------- the document

  /** A line feed on the last row of an unrestricted screen adds one blank row to history
      followed by screen and drops the rows the history has no room for - except on a
      screen of one row, whose only row is recorded but not moved. */
  lemma LineFeedExtendsDocument(t: Term)
    requires t.Valid() && t.top == 0 && t.bot == t.frame.height - 1 == t.cy
    ensures var blank := Repeat(t.frame.width, Blank(t));
      DoLf(t).history + DoLf(t).rows == Last(t.frame.cap + t.frame.height, t.history + t.rows + [blank])
      <==> t.frame.height > 1 || t.rows[0] == blank
  {
    var blank := Repeat(t.frame.width, Blank(t));
    var h, u := t.frame.height, DoLf(t);
    var doc, doc' := t.history + t.rows + [blank], u.history + u.rows;
    assert u.history == Last(t.frame.cap, t.history + t.rows[..1]);
    assert t.history + t.rows[..1] + (t.rows[1..] + [blank]) == doc;
    LastSplits(t.frame.cap, t.history + t.rows[..1], t.rows[1..] + [blank]);
    if h > 1 {
      assert u.rows == t.rows[1..] + [blank];
    } else {
      assert u.rows == t.rows;
      assert doc'[|doc'| - 1] == t.rows[0];
      assert Last(t.frame.cap + h, doc)[|u.history|] == blank;
      if t.rows[0] == blank {
        assert u.rows == t.rows[1..] + [blank];
      }
    }
  }

  lemma LastSplits<T>(n: nat, a: seq<T>, b: seq<T>)
    ensures Last(n + |b|, a + b) == Last(n, a) + b
  {
  }

  // --------------------------------------------------------------- the margins

  /** Scrolling leaves the rows outside its region alone. */
  lemma OutsideRegionKept(t: Term, start: nat, end: nat, num: int, y: nat)
    requires t.Valid() && y < t.frame.height && (y < start || y > end)
    ensures ScrollRegion(t, start, end, num).rows[y] == t.rows[y]
  {
  }

  /** Line feeds in either direction leave the rows outside the margins alone. */
  lemma OutsideMarginsKept(t: Term, y: nat)
    requires t.Valid() && y < t.frame.height && (y < t.top || y > t.bot)
    ensures DoLf(t).rows[y] == t.rows[y] && DoNextLine(t).rows[y] == t.rows[y] && DoIndexUp(t).rows[y] == t.rows[y]
  {
    OutsideRegionKept(t, t.top, t.bot, 1, y);
    OutsideRegionKept(t, t.top, t.bot, -1, y);
    hide ScrollRegion;
  }

  /** Scrolling a region one way and back loses only the rows that were pushed out. */
  lemma ScrollUndone(t: Term, start: nat, end: nat, num: int, y: nat)
    requires t.Valid() && start <= end < t.frame.height && -(end - start) <= num <= end - start
    requires y < t.frame.height
    ensures var u := MoveRegion(MoveRegion(t, start, end, num), start, end, -num);
      u.rows[y] ==
        if start <= y <= end && !(start <= y - num <= end) then Repeat(t.frame.width, Blank(t)) else t.rows[y]
  {
  }

  /** Making room for characters and deleting them again loses only what fell off the row. */
  lemma CharsUndone(t: Term, n: u16, y: nat, x: nat)
    requires t.Valid() && t.cx < t.frame.width && y < t.frame.height && x < t.frame.width
    ensures var u := DoShiftChars(DoShiftChars(t, n, true), n, false);
      u.rows[y][x] == if y == t.cy && t.cx <= x && t.frame.width - Count(n) <= x then Blank(t) else t.rows[y][x]
  {
  }
}
