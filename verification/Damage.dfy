/** How far the display may lag behind the text buffer, and why every buffer
    operation keeps it within that bound. */
module Damage {
  import opened Basics
  import opened Cells

  /** What the display still owes: a dirty column interval per row (clean when
      hi < lo), and a scroll of the margin region that was not performed yet. */
  datatype Lag = Lag(lo: seq<nat>, hi: seq<nat>, top: nat, bot: nat, pending: int)

  /** Every clean cell of `row` is already on the glass, in display row `glass`. */
  ghost predicate Matches(row: Row, inverse: bool, lo: nat, hi: nat, glass: Row) {
    && |glass| == |row|
    && forall x :: 0 <= x < |row| && !(lo <= x <= hi) ==> glass[x] == Shown(row[x], inverse)
  }

  /** A region of one row, or of none, never moves, whatever is pending. */
  predicate InRegion(d: Lag, y: int) {
    d.top < d.bot && d.top <= y <= d.bot
  }

  /** Row y of the buffer is on the glass `pending` rows away, or is dirty all over. */
  ghost predicate Tied(row: Row, inverse: bool, panel: seq<Row>, d: Lag, y: nat)
    requires y < |d.lo| == |d.hi| == |panel| && d.bot < |panel|
  {
    if InRegion(d, y)
    then if InRegion(d, y + d.pending)
         then Matches(row, inverse, d.lo[y], d.hi[y], panel[y + d.pending])
         else d.lo[y] == 0 && d.hi[y] + 1 >= |row|
    else Matches(row, inverse, d.lo[y], d.hi[y], panel[y])
  }

  ghost predicate Coherent(rows: seq<Row>, inverse: bool, panel: seq<Row>, d: Lag) {
    && |rows| == |panel| == |d.lo| == |d.hi|
    && d.bot < |panel|
    && forall y :: 0 <= y < |rows| ==> Tied(rows[y], inverse, panel, d, y)
  }

  ghost predicate AllClean(d: Lag)
    requires |d.lo| == |d.hi|
  {
    d.pending == 0 && forall y :: 0 <= y < |d.lo| ==> d.hi[y] < d.lo[y]
  }

  /** An edit of one row within columns x0..x1 marks them. */
  lemma RowEditKeepsCoherent(rows: seq<Row>, y: nat, row: Row, x0: nat, x1: nat, inverse: bool, panel: seq<Row>, d: Lag)
    requires Coherent(rows, inverse, panel, d)
    requires y < |rows| && |row| == |rows[y]| && x0 <= x1
    requires forall z :: 0 <= z < |rows| ==> 0 < |rows[z]|
    requires forall x :: 0 <= x < |row| && !(x0 <= x <= x1) ==> row[x] == rows[y][x]
    ensures Coherent(rows[y := row], inverse, panel,
                     d.(lo := d.lo[y := Min(d.lo[y], x0)], hi := d.hi[y := Max(d.hi[y], x1)]))
  {
  }

  /** The intervals of rows y0..y1 were widened to include x0..x1. */
  ghost predicate Marked(lo: seq<nat>, hi: seq<nat>, lo': seq<nat>, hi': seq<nat>, x0: nat, y0: nat, x1: nat, y1: int) {
    && |lo'| == |lo| == |hi'| == |hi|
    && forall y :: 0 <= y < |lo| ==>
      if y0 <= y <= y1 then lo'[y] == Min(lo[y], x0) && hi'[y] == Max(hi[y], x1)
      else lo'[y] == lo[y] && hi'[y] == hi[y]
  }

  /** One row more. */
  lemma MarkedNext(lo: seq<nat>, hi: seq<nat>, lo': seq<nat>, hi': seq<nat>, x0: nat, y0: nat, x1: nat, y: nat)
    requires y0 <= y < |lo| && Marked(lo, hi, lo', hi', x0, y0, x1, y - 1)
    ensures Marked(lo, hi, lo'[y := Min(lo'[y], x0)], hi'[y := Max(hi'[y], x1)], x0, y0, x1, y)
  {
    hide Min, Max;
  }

  /** Filling a rectangle marks it. */
  lemma FillKeepsCoherent(rows: seq<Row>, width: nat, x0: nat, y0: nat, x1: nat, y1: nat, c: Cell,
                          inverse: bool, panel: seq<Row>, d: Lag, d': Lag)
    requires Coherent(rows, inverse, panel, d)
    requires IsGrid(rows, |rows|, width) && x0 <= x1 < width
    requires d' == d.(lo := d'.lo, hi := d'.hi) && Marked(d.lo, d.hi, d'.lo, d'.hi, x0, y0, x1, y1)
    ensures Coherent(FillRect(rows, width, x0, y0, x1, y1, c), inverse, panel, d')
  {
    var rows' := FillRect(rows, width, x0, y0, x1, y1, c);
    forall y | 0 <= y < |rows| ensures Tied(rows'[y], inverse, panel, d', y) {
      assert Tied(rows[y], inverse, panel, d, y);
    }
  }

  /** A row that is dirty all over is tied to nothing. */
  lemma WholeRowDirty(row: Row, inverse: bool, panel: seq<Row>, d: Lag, y: nat)
    requires y < |d.lo| == |d.hi| == |panel| && d.bot < |panel|
    requires IsGrid(panel, |panel|, |row|)
    requires d.lo[y] == 0 && d.hi[y] + 1 >= |row|
    ensures Tied(row, inverse, panel, d, y)
  {
  }

  /** What scroll_region leaves in a damage array when rows start..upTo are renumbered:
      in the margin region the interval of a row that stays travels with it, and all
      other rows of the region get `whole`. */
  function Travel(a: seq<nat>, start: nat, upTo: nat, end: nat, num: int, fast: bool, whole: nat): (r: seq<nat>)
    requires end < |a|
    ensures |r| == |a|
  {
    seq(|a|, k requires 0 <= k < |a| =>
      if !(start <= k < upTo) then a[k] else if fast && start <= k + num <= end then a[k + num] else whole)
  }

  lemma TravelStarts(a: seq<nat>, start: nat, end: nat, num: int, fast: bool, whole: nat)
    requires end < |a|
    ensures Travel(a, start, start, end, num, fast, whole) == a
  {
  }

  lemma TravelStep(a: seq<nat>, start: nat, y: nat, end: nat, num: int, fast: bool, whole: nat)
    requires start <= y <= end < |a|
    ensures Travel(a, start, y, end, num, fast, whole)
              [y := if fast && start <= y + num <= end then a[y + num] else whole]
         == Travel(a, start, y + 1, end, num, fast, whole)
  {
  }

  /** What is owed after scroll_region on rows start..end: a scroll by all of them moves
      nothing, and yet in the margin region it is added to what is pending. */
  function AfterScroll(d: Lag, start: nat, end: nat, num: int, width: nat): Lag
    requires end < |d.lo| == |d.hi| && 0 < width
  {
    var fast := start == d.top && end == d.bot;
    var travels := -(end - start) <= num <= end - start;
    d.(lo := if travels then Travel(d.lo, start, end + 1, end, num, fast, 0) else d.lo,
       hi := if travels then Travel(d.hi, start, end + 1, end, num, fast, width - 1) else d.hi,
       pending := if fast then d.pending + num else d.pending)
  }

  /** Lazy scroll: row y takes the text and the damage of row y + num, and the
      distance to the glass grows by num, so y + num's place on the glass stays. */
  lemma FastScrollKeepsCoherent(rows: seq<Row>, width: nat, num: int, blank: Row,
                                inverse: bool, panel: seq<Row>, d: Lag)
    requires Coherent(rows, inverse, panel, d)
    requires IsGrid(rows, |rows|, width) && IsGrid(panel, |panel|, width) && |blank| == width > 0
    requires d.top < d.bot && -(d.bot - d.top) <= num <= d.bot - d.top
    ensures Coherent(Scrolled(rows, d.top, d.bot, num, blank), inverse, panel, AfterScroll(d, d.top, d.bot, num, width))
  {
    var rows', d' := Scrolled(rows, d.top, d.bot, num, blank), AfterScroll(d, d.top, d.bot, num, width);
    forall y | 0 <= y < |rows| ensures Tied(rows'[y], inverse, panel, d', y) {
      if InRegion(d, y) && InRegion(d, y + num) {
        assert Tied(rows[y + num], inverse, panel, d, y + num);
        assert y + num + d.pending == y + d'.pending;
        assert rows'[y] == rows[y + num];
      } else if InRegion(d, y) {
        WholeRowDirty(rows'[y], inverse, panel, d', y);
      } else {
        assert Tied(rows[y], inverse, panel, d, y);
        assert rows'[y] == rows[y];
      }
    }
  }

  /** A scroll of any other region marks all of it. */
  lemma SlowScrollKeepsCoherent(rows: seq<Row>, width: nat, start: nat, end: nat, num: int, blank: Row,
                                inverse: bool, panel: seq<Row>, d: Lag)
    requires Coherent(rows, inverse, panel, d)
    requires IsGrid(rows, |rows|, width) && IsGrid(panel, |panel|, width) && |blank| == width > 0
    requires start < end < |rows| && -(end - start) <= num <= end - start && !(start == d.top && end == d.bot)
    ensures Coherent(Scrolled(rows, start, end, num, blank), inverse, panel, AfterScroll(d, start, end, num, width))
  {
    var rows', d' := Scrolled(rows, start, end, num, blank), AfterScroll(d, start, end, num, width);
    forall y | 0 <= y < |rows| ensures Tied(rows'[y], inverse, panel, d', y) {
      if start <= y <= end {
        WholeRowDirty(rows'[y], inverse, panel, d', y);
      } else {
        assert Tied(rows[y], inverse, panel, d, y);
        assert rows'[y] == rows[y];
      }
    }
  }

  /** A scroll of all of a margin region of several rows. */
  predicate Skips(d: Lag, start: nat, end: nat, num: int) {
    start == d.top && end == d.bot && start < end && !(-(end - start) <= num <= end - start)
  }

  function ScrolledRows(rows: seq<Row>, start: nat, end: nat, num: int, blank: Row): (r: seq<Row>)
    requires start <= end < |rows|
    ensures |r| == |rows|
  {
    if -(end - start) <= num <= end - start then Scrolled(rows, start, end, num, blank) else rows
  }

  lemma ScrollKeepsCoherent(rows: seq<Row>, width: nat, start: nat, end: nat, num: int, blank: Row,
                            inverse: bool, panel: seq<Row>, d: Lag)
    requires Coherent(rows, inverse, panel, d)
    requires IsGrid(rows, |rows|, width) && IsGrid(panel, |panel|, width) && |blank| == width > 0
    requires start <= end < |rows| && num != 0 && !Skips(d, start, end, num)
    ensures Coherent(ScrolledRows(rows, start, end, num, blank), inverse, panel, AfterScroll(d, start, end, num, width))
  {
    if !(-(end - start) <= num <= end - start) {
      OneRowKeepsCoherent(rows, inverse, panel, d, AfterScroll(d, start, end, num, width));
    } else if start == end {
      assert false;
    } else if start == d.top && end == d.bot {
      FastScrollKeepsCoherent(rows, width, num, blank, inverse, panel, d);
    } else {
      SlowScrollKeepsCoherent(rows, width, start, end, num, blank, inverse, panel, d);
    }
  }

  /** Whatever becomes pending for a region of one row never moves. */
  lemma OneRowKeepsCoherent(rows: seq<Row>, inverse: bool, panel: seq<Row>, d: Lag, d': Lag)
    requires Coherent(rows, inverse, panel, d) && d' == d.(pending := d'.pending)
    requires d'.pending == d.pending || d.bot <= d.top
    ensures Coherent(rows, inverse, panel, d')
  {
    forall y | 0 <= y < |rows| ensures Tied(rows[y], inverse, panel, d', y) {
      assert Tied(rows[y], inverse, panel, d, y);
    }
  }

  /** Marking a row that is already dirty all over changes nothing. */
  lemma MarkedAgain(lo: seq<nat>, hi: seq<nat>, lo': seq<nat>, hi': seq<nat>, y: nat, width: nat)
    requires |lo| == |hi| && y < |lo| && lo[y] == 0 && hi[y] + 1 == width
    requires Marked(lo, hi, lo', hi', 0, y, width - 1, y)
    ensures lo' == lo && hi' == hi
  {
  }

  /** Performing the pending scroll on the glass pays it off without touching the damage. */
  lemma MoveRowsPays(rows: seq<Row>, inverse: bool, panel: seq<Row>, d: Lag, width: nat, from: nat, to: nat, n: nat)
    requires Coherent(rows, inverse, panel, d)
    requires IsGrid(rows, |rows|, width) && IsGrid(panel, |panel|, width)
    requires d.pending < d.bot - d.top + 1 && -d.pending < d.bot - d.top + 1
    requires from - to == d.pending && n == d.bot - d.top + 1 - (if d.pending < 0 then -d.pending else d.pending)
    requires to == if d.pending < 0 then d.top - d.pending else d.top
    ensures Coherent(rows, inverse, MoveRows(panel, from, to, n), d.(pending := 0))
    ensures IsGrid(MoveRows(panel, from, to, n), |panel|, width)
  {
    var panel', d' := MoveRows(panel, from, to, n), d.(pending := 0);
    forall y | 0 <= y < |rows| ensures Tied(rows[y], inverse, panel', d', y) {
      assert Tied(rows[y], inverse, panel, d, y);
      if to <= y < to + n {
        assert panel'[y] == panel[y + d.pending];
      } else {
        assert panel'[y] == panel[y];
      }
    }
  }

  /** The rows whose text is on the glass, but in another place. */
  predicate Displaced(d: Lag, y: int) {
    d.pending != 0 && InRegion(d, y) && InRegion(d, y + d.pending)
  }

  /** Every displaced row becomes dirty all over. */
  ghost predicate DisplacedMarked(d: Lag, lo: seq<nat>, hi: seq<nat>, width: nat) {
    && |d.lo| == |d.hi| == |lo| == |hi|
    && forall y :: 0 <= y < |lo| ==>
      if Displaced(d, y) then lo[y] == 0 && hi[y] + 1 == width else lo[y] == d.lo[y] && hi[y] == d.hi[y]
  }

  /** When the glass refuses to move, marking the rows that should have moved pays it off too. */
  lemma RefusedMovePays(rows: seq<Row>, inverse: bool, panel: seq<Row>, d: Lag, d': Lag, width: nat)
    requires Coherent(rows, inverse, panel, d)
    requires IsGrid(rows, |rows|, width) && IsGrid(panel, |panel|, width)
    requires d' == d.(lo := d'.lo, hi := d'.hi, pending := 0) && DisplacedMarked(d, d'.lo, d'.hi, width)
    ensures Coherent(rows, inverse, panel, d')
  {
    forall y | 0 <= y < |rows| ensures Tied(rows[y], inverse, panel, d', y) {
      assert Tied(rows[y], inverse, panel, d, y);
      if Displaced(d, y) {
        WholeRowDirty(rows[y], inverse, panel, d', y);
      } else {
        assert d'.lo[y] == d.lo[y] && d'.hi[y] == d.hi[y];
      }
    }
  }
}
