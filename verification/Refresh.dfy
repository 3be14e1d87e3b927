/** What update leaves on the glass, whatever is owed: the screen, when the glass is coherent.
    And what a scroll of the whole margin region, which moves no text but is added to the
    pending scroll all the same, does to that. */
module Refresh {
  import opened Basics
  import opened Cells
  import opened Damage

  /** The glass after the row move that update asks for. */
  function MovedGlass(panel: seq<Row>, d: Lag, accepted: bool): (r: seq<Row>)
    requires d.bot < |panel|
    ensures |r| == |panel|
  {
    seq(|panel|, y requires 0 <= y < |panel| => if accepted && Displaced(d, y) then panel[y + d.pending] else panel[y])
  }

  /** What is owed after it: a refused move is made up for by marking. */
  function AfterMove(d: Lag, width: nat, accepted: bool): (r: Lag)
    requires |d.lo| == |d.hi| && 0 < width
    ensures |r.lo| == |r.hi| == |d.lo|
  {
    d.(lo := seq(|d.lo|, y requires 0 <= y < |d.lo| => if !accepted && Displaced(d, y) then 0 else d.lo[y]),
       hi := seq(|d.hi|, y requires 0 <= y < |d.hi| => if !accepted && Displaced(d, y) then width - 1 else d.hi[y]),
       pending := 0)
  }

  /** One row after its dirty interval is repainted. */
  function RefreshedRow(row: Row, inverse: bool, lo: nat, hi: nat, glass: Row): (r: Row)
    requires |glass| == |row|
    ensures |r| == |row|
  {
    if lo <= hi then RepaintRow(glass, ShownRow(row, inverse), lo, hi + 1 - lo) else glass
  }

  function Refreshed(rows: seq<Row>, inverse: bool, panel: seq<Row>, d: Lag, width: nat): (r: seq<Row>)
    requires IsGrid(rows, |rows|, width) && IsGrid(panel, |rows|, width) && |d.lo| == |d.hi| == |rows|
    ensures IsGrid(r, |rows|, width)
  {
    seq(|rows|, y requires 0 <= y < |rows| => RefreshedRow(rows[y], inverse, d.lo[y], d.hi[y], panel[y]))
  }

  /** What update leaves on the glass, whatever is owed. */
  function Updated(rows: seq<Row>, inverse: bool, panel: seq<Row>, d: Lag, width: nat, accepted: bool): (r: seq<Row>)
    requires IsGrid(rows, |rows|, width) && IsGrid(panel, |rows|, width) && |d.lo| == |d.hi| == |rows|
    requires d.bot < |rows| && 0 < width
    ensures IsGrid(r, |rows|, width)
  {
    Refreshed(rows, inverse, MovedGlass(panel, d, accepted), AfterMove(d, width, accepted), width)
  }

  /** The row move update asks for is MoveRows on the region. */
  lemma MoveIsMoveRows(panel: seq<Row>, d: Lag, from: nat, to: nat, n: nat)
    requires d.bot < |panel| && d.pending < d.bot - d.top + 1 && -d.pending < d.bot - d.top + 1 && d.pending != 0
    requires from - to == d.pending && to == if d.pending < 0 then d.top - d.pending else d.top
    requires n == d.bot - d.top + 1 - (if d.pending < 0 then -d.pending else d.pending)
    ensures MovedGlass(panel, d, true) == MoveRows(panel, from, to, n) && MovedGlass(panel, d, false) == panel
    ensures forall y :: Displaced(d, y) == (to <= y < to + n)
  {
  }

  /** Marking those rows is what a refused move leaves owed. */
  lemma MarksAreAfterMove(d: Lag, lo: seq<nat>, hi: seq<nat>, width: nat, to: nat, n: nat, accepted: bool)
    requires |d.lo| == |d.hi| == |lo| == |hi| && 0 < width
    requires forall y :: Displaced(d, y) == (to <= y < to + n)
    requires forall y :: 0 <= y < |lo| ==>
      if !accepted && to <= y < to + n then lo[y] == 0 && hi[y] == width - 1
      else lo[y] == d.lo[y] && hi[y] == d.hi[y]
    ensures d.(lo := lo, hi := hi, pending := 0) == AfterMove(d, width, accepted)
  {
    assert lo == AfterMove(d, width, accepted).lo && hi == AfterMove(d, width, accepted).hi;
  }

  lemma NothingToMove(panel: seq<Row>, d: Lag, accepted: bool)
    requires d.bot < |panel|
    requires !accepted || d.pending == 0 || d.pending >= d.bot - d.top + 1 || -d.pending >= d.bot - d.top + 1
    ensures MovedGlass(panel, d, accepted) == panel
  {
  }

  /** The pending scroll is paid by moving the glass or by marking it. */
  lemma MoveKeepsCoherent(rows: seq<Row>, inverse: bool, panel: seq<Row>, d: Lag, width: nat, accepted: bool)
    requires Coherent(rows, inverse, panel, d)
    requires IsGrid(rows, |rows|, width) && IsGrid(panel, |panel|, width) && 0 < width
    ensures Coherent(rows, inverse, MovedGlass(panel, d, accepted), AfterMove(d, width, accepted))
  {
    if !accepted || d.pending == 0 || d.pending >= d.bot - d.top + 1 || -d.pending >= d.bot - d.top + 1 {
      NothingToMove(panel, d, accepted);
      RefusedMovePays(rows, inverse, panel, d, AfterMove(d, width, accepted), width);
    } else {
      AcceptedMovePays(rows, inverse, panel, d, width);
    }
  }

  lemma AcceptedMovePays(rows: seq<Row>, inverse: bool, panel: seq<Row>, d: Lag, width: nat)
    requires Coherent(rows, inverse, panel, d)
    requires IsGrid(rows, |rows|, width) && IsGrid(panel, |panel|, width) && 0 < width
    requires d.pending != 0 && d.pending < d.bot - d.top + 1 && -d.pending < d.bot - d.top + 1
    ensures Coherent(rows, inverse, MovedGlass(panel, d, true), AfterMove(d, width, true))
  {
    var to := if d.pending < 0 then d.top - d.pending else d.top;
    var n := d.bot - d.top + 1 - (if d.pending < 0 then -d.pending else d.pending);
    assert |d.lo| == |d.hi| && d.bot < |panel|;
    hide Coherent, MoveRows, MovedGlass, AfterMove, IsGrid, Displaced;
    MoveRowsPays(rows, inverse, panel, d, width, to + d.pending, to, n);
    MoveIsMoveRows(panel, d, to + d.pending, to, n);
    AcceptedLeaves(d, width);
  }

  lemma AcceptedLeaves(d: Lag, width: nat)
    requires |d.lo| == |d.hi| && 0 < width
    ensures AfterMove(d, width, true) == d.(pending := 0)
  {
  }

  lemma RefreshedMatches(row: Row, inverse: bool, lo: nat, hi: nat, glass: Row)
    requires |glass| == |row| && (Matches(row, inverse, lo, hi, glass) || (lo == 0 && hi + 1 >= |row|))
    ensures RefreshedRow(row, inverse, lo, hi, glass) == ShownRow(row, inverse)
  {
  }

  /** A coherent glass shows the screen after update, whether or not it took the move. */
  lemma UpdateShows(rows: seq<Row>, inverse: bool, panel: seq<Row>, d: Lag, width: nat, accepted: bool)
    requires Coherent(rows, inverse, panel, d)
    requires IsGrid(rows, |rows|, width) && IsGrid(panel, |rows|, width) && 0 < width
    ensures Updated(rows, inverse, panel, d, width, accepted) == Picture(rows, inverse)
  {
    var panel', d' := MovedGlass(panel, d, accepted), AfterMove(d, width, accepted);
    MoveKeepsCoherent(rows, inverse, panel, d, width, accepted);
    forall y | 0 <= y < |rows|
      ensures Refreshed(rows, inverse, panel', d', width)[y] == ShownRow(rows[y], inverse)
    {
      assert Tied(rows[y], inverse, panel', d', y);
      RefreshedMatches(rows[y], inverse, d'.lo[y], d'.hi[y], panel'[y]);
    }
  }

  // ------------------------------------------------------- skipped scrolls

  /** A glass that shows the screen, with nothing owed. */
  ghost predicate Shows(rows: seq<Row>, inverse: bool, panel: seq<Row>, d: Lag, width: nat) {
    && |rows| == |d.lo| == |d.hi| && d.bot < |rows| && 0 < width
    && IsGrid(rows, |rows|, width) && IsGrid(panel, |rows|, width)
    && AllClean(d) && panel == Picture(rows, inverse)
  }

  /** A scroll of all of the margin region, up or down. */
  predicate WholeRegion(d: Lag, num: int) {
    d.top <= d.bot && (num == d.bot - d.top + 1 || -num == d.bot - d.top + 1)
  }

  /** By itself a skipped scroll does no harm: update drops what became pending. */
  lemma SkipAlone(rows: seq<Row>, inverse: bool, panel: seq<Row>, d: Lag, width: nat, num: int, accepted: bool)
    requires Shows(rows, inverse, panel, d, width) && WholeRegion(d, num)
    ensures Updated(rows, inverse, panel, AfterScroll(d, d.top, d.bot, num, width), width, accepted)
         == Picture(rows, inverse)
  {
    var d' := AfterScroll(d, d.top, d.bot, num, width);
    assert forall y :: !Displaced(d', y);
  }

  predicate Keeps(top: nat, bot: nat, k: int, y: int) {
    top <= y <= bot && top <= y + k <= bot
  }

  /** Only the vacated rows are dirty, and only they would be moved. */
  ghost predicate Stale(d: Lag, k: int, width: nat) {
    && |d.lo| == |d.hi| && 0 < width
    && forall y :: 0 <= y < |d.lo| ==>
      if d.top <= y <= d.bot && !Keeps(d.top, d.bot, k, y) then d.lo[y] == 0 && d.hi[y] + 1 == width
      else d.hi[y] < d.lo[y] && !Displaced(d, y)
  }

  /** That is what a skipped scroll and a scroll by k leave owed. */
  lemma SkipLeavesStale(d: Lag, width: nat, num: int, k: int)
    requires |d.lo| == |d.hi| && d.bot < |d.lo| && 0 < width && AllClean(d) && WholeRegion(d, num)
    requires k != 0 && -(d.bot - d.top) <= k <= d.bot - d.top
    ensures Stale(AfterScroll(AfterScroll(d, d.top, d.bot, num, width), d.top, d.bot, k, width), k, width)
  {
    var d' := AfterScroll(AfterScroll(d, d.top, d.bot, num, width), d.top, d.bot, k, width);
    assert d'.pending == num + k;
    forall y | 0 <= y < |d.lo| && Keeps(d.top, d.bot, k, y) ensures d'.hi[y] < d'.lo[y] && !Displaced(d', y) {
      assert d.hi[y + k] < d.lo[y + k];
    }
  }

  lemma StaleRow(rows: seq<Row>, inverse: bool, panel: seq<Row>, d: Lag, width: nat, k: int, accepted: bool, y: nat)
    requires Stale(d, k, width) && y < |rows| == |d.lo| && d.bot < |rows|
    requires IsGrid(rows, |rows|, width) && IsGrid(panel, |rows|, width)
    ensures Updated(rows, inverse, panel, d, width, accepted)[y]
         == if d.top <= y <= d.bot && !Keeps(d.top, d.bot, k, y) then ShownRow(rows[y], inverse) else panel[y]
  {
    var d' := AfterMove(d, width, accepted);
    if d.top <= y <= d.bot && !Keeps(d.top, d.bot, k, y) {
      assert d'.lo[y] == 0 && d'.hi[y] + 1 == width;
    } else {
      assert d'.lo[y] == d.lo[y] && d'.hi[y] == d.hi[y];
    }
  }

  /** Followed by a scroll by k it leaves every row that keeps text where it was: the glass is
      right exactly when those rows look like the rows that took their place. */
  lemma SkipThenScroll(rows: seq<Row>, inverse: bool, panel: seq<Row>, d: Lag, width: nat, num: int,
                       k: int, blank: Row, accepted: bool)
    requires Shows(rows, inverse, panel, d, width) && WholeRegion(d, num)
    requires |blank| == width && k != 0 && -(d.bot - d.top + 1) <= k <= d.bot - d.top + 1
    ensures
      ShowsAfterSkip(rows, inverse, panel, d, width, num, k, blank, accepted)
      <==> (forall y :: Keeps(d.top, d.bot, k, y) ==> rows[y + k] == rows[y])
  {
    var rows' := ScrolledRows(rows, d.top, d.bot, k, blank);
    var d' := AfterScroll(AfterScroll(d, d.top, d.bot, num, width), d.top, d.bot, k, width);
    if -(d.bot - d.top) <= k <= d.bot - d.top {
      SkipLeavesStale(d, width, num, k);
      StaleGlass(rows, rows', inverse, panel, d', width, k, accepted);
    } else {
      SkipTwice(rows, inverse, panel, d, width, num, k, accepted);
      assert forall y :: !Keeps(d.top, d.bot, k, y);
    }
  }

  lemma SkipTwice(rows: seq<Row>, inverse: bool, panel: seq<Row>, d: Lag, width: nat, num: int, k: int, accepted: bool)
    requires Shows(rows, inverse, panel, d, width) && WholeRegion(d, num) && WholeRegion(d, k)
    ensures Updated(rows, inverse, panel, AfterScroll(AfterScroll(d, d.top, d.bot, num, width), d.top, d.bot, k, width),
                    width, accepted) == Picture(rows, inverse)
  {
    var d' := AfterScroll(AfterScroll(d, d.top, d.bot, num, width), d.top, d.bot, k, width);
    assert forall y :: !Displaced(d', y);
  }

  /** After a skipped scroll by num, a scroll by k and update, the glass shows the screen. */
  ghost predicate ShowsAfterSkip(rows: seq<Row>, inverse: bool, panel: seq<Row>, d: Lag, width: nat, num: int,
                                 k: int, blank: Row, accepted: bool)
    requires Shows(rows, inverse, panel, d, width) && WholeRegion(d, num) && |blank| == width
  {
    var rows' := ScrolledRows(rows, d.top, d.bot, k, blank);
    Updated(rows', inverse, panel, AfterScroll(AfterScroll(d, d.top, d.bot, num, width), d.top, d.bot, k, width),
            width, accepted) == Picture(rows', inverse)
  }

  ghost predicate SkipCase(rows: seq<Row>, inverse: bool, panel: seq<Row>, d: Lag, width: nat, num: int,
                           k: int, blank: Row) {
    && Shows(rows, inverse, panel, d, width) && WholeRegion(d, num)
    && |blank| == width && k != 0 && -(d.bot - d.top + 1) <= k <= d.bot - d.top + 1
  }

  /** Two scrolls in one input of which the first is skipped: whatever was on the screen, the
      glass ends up right exactly if the region has one row. */
  lemma SkipHarmless(height: nat, width: nat, top: nat, bot: nat)
    requires top <= bot < height && 0 < width
    ensures
      (forall rows, inverse, panel, d: Lag, num, k, blank, accepted ::
         |rows| == height && d.top == top && d.bot == bot && SkipCase(rows, inverse, panel, d, width, num, k, blank) ==>
         ShowsAfterSkip(rows, inverse, panel, d, width, num, k, blank, accepted))
      <==> top == bot
  {
    if top == bot {
      forall rows, inverse, panel, d: Lag, num, k, blank, accepted
        | |rows| == height && d.top == top && d.bot == bot && SkipCase(rows, inverse, panel, d, width, num, k, blank)
        ensures ShowsAfterSkip(rows, inverse, panel, d, width, num, k, blank, accepted)
      {
        SkipThenScroll(rows, inverse, panel, d, width, num, k, blank, accepted);
      }
    } else {
      var rows, d := NumberedRows(height, width), Lag(Repeat(height, 1), Repeat(height, 0), top, bot, 0);
      var num, blank := bot - top + 1, Repeat(width, PlainCell(0));
      assert SkipCase(rows, false, Picture(rows, false), d, width, num, 1, blank);
      SkipThenScroll(rows, false, Picture(rows, false), d, width, num, 1, blank, true);
      assert Keeps(d.top, d.bot, 1, top) && rows[top + 1][0] != rows[top][0];
      assert !ShowsAfterSkip(rows, false, Picture(rows, false), d, width, num, 1, blank, true);
    }
  }

  function PlainCell(code: nat): Cell { Cell(code, CharAttr(7, 0, 1, false, false, false, false)) }

  /** Rows that all differ. */
  function NumberedRows(height: nat, width: nat): (r: seq<Row>)
    ensures IsGrid(r, height, width)
  {
    seq(height, y requires 0 <= y < height => Repeat(width, PlainCell(y)))
  }

  lemma StaleGlass(rows: seq<Row>, rows': seq<Row>, inverse: bool, panel: seq<Row>, d: Lag, width: nat,
                   k: int, accepted: bool)
    requires Stale(d, k, width) && |rows| == |rows'| == |d.lo| && d.bot < |rows|
    requires IsGrid(rows, |rows|, width) && IsGrid(rows', |rows|, width) && IsGrid(panel, |rows|, width)
    requires panel == Picture(rows, inverse)
    requires forall y :: 0 <= y < |rows| && !(d.top <= y <= d.bot) ==> rows'[y] == rows[y]
    requires forall y :: Keeps(d.top, d.bot, k, y) ==> rows'[y] == rows[y + k]
    ensures (Updated(rows', inverse, panel, d, width, accepted) == Picture(rows', inverse))
            <==> (forall y :: Keeps(d.top, d.bot, k, y) ==> rows[y + k] == rows[y])
  {
    var glass := Updated(rows', inverse, panel, d, width, accepted);
    forall y | 0 <= y < |rows|
      ensures glass[y] ==
        if d.top <= y <= d.bot && !Keeps(d.top, d.bot, k, y) then ShownRow(rows'[y], inverse) else panel[y]
    {
      StaleRow(rows', inverse, panel, d, width, k, accepted, y);
    }
    if glass == Picture(rows', inverse) {
      forall y | Keeps(d.top, d.bot, k, y) ensures rows[y + k] == rows[y] {
        assert glass[y] == ShownRow(rows'[y], inverse);
        ShownIsInjective(rows[y], rows[y + k], inverse);
      }
    }
  }

  lemma ShownIsInjective(a: Row, b: Row, inverse: bool)
    requires ShownRow(a, inverse) == ShownRow(b, inverse)
    ensures a == b
  {
    forall x | 0 <= x < |a| ensures a[x] == b[x] {
      assert ShownRow(a, inverse)[x] == Shown(a[x], inverse) == Shown(b[x], inverse);
    }
  }
}
