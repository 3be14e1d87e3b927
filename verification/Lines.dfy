/** Which line of the text block backs which row: the screen's indirection table
    and the history ring, and how writes to the block act through them. */
module Lines {
  import opened Basics
  import opened Cells

  /** `lines` is a permutation of first .. first + |lines|. */
  ghost predicate Permuted(lines: seq<nat>, first: nat) {
    && (forall y :: 0 <= y < |lines| ==> first <= lines[y] < first + |lines|)
    && Distinct(lines)
  }

  ghost predicate Distinct(lines: seq<nat>) {
    forall y, z :: 0 <= y < z < |lines| ==> lines[y] != lines[z]
  }

  ghost predicate Backed(block: seq<Row>, lines: seq<nat>, rows: seq<Row>) {
    && |rows| == |lines|
    && forall y :: 0 <= y < |rows| ==> lines[y] < |block| && rows[y] == block[lines[y]]
  }

  /** The ring slot of the i-th oldest history row. */
  function Slot(i: nat, cap: nat, save: nat, full: bool): nat {
    if full then Wrapped(save + i, cap) else i
  }

  function Count(cap: nat, save: nat, full: bool): nat {
    if full then cap else save
  }

  /** The ring holds `history`, oldest row first. */
  ghost predicate RingHolds(block: seq<Row>, cap: nat, save: nat, full: bool, history: seq<Row>) {
    && (if cap == 0 then save == 0 && !full else save < cap)
    && cap <= |block|
    && |history| == Count(cap, save, full)
    && forall i :: 0 <= i < |history| ==> history[i] == block[Slot(i, cap, save, full)]
  }

  /** The source's ring index. */
  lemma SlotIsModulo(i: nat, cap: nat, save: nat, full: bool)
    requires 0 < cap && save < cap && i < Count(cap, save, full)
    ensures Slot(i, cap, save, full) == ((if full then save else 0) + i) % cap
  {
    WrappedIsModulo((if full then save else 0) + i, cap);
  }

  /** Writing one line changes the one row it backs. */
  lemma WriteRow(block: seq<Row>, lines: seq<nat>, rows: seq<Row>, y: nat, row: Row)
    requires Backed(block, lines, rows) && Distinct(lines) && y < |rows|
    ensures Backed(block[lines[y] := row], lines, rows[y := row])
  {
  }

  /** Writing a line outside the ring leaves history alone, and the reverse. */
  lemma WriteElsewhere(block: seq<Row>, line: nat, row: Row, cap: nat, save: nat, full: bool, history: seq<Row>,
                       lines: seq<nat>, rows: seq<Row>)
    requires line < |block|
    ensures RingHolds(block, cap, save, full, history) && cap <= line ==>
      RingHolds(block[line := row], cap, save, full, history)
    ensures Backed(block, lines, rows) && line !in lines ==> Backed(block[line := row], lines, rows)
  {
  }

  /** Saving a row: the slot written is the oldest once the ring is full. */
  lemma PushRow(block: seq<Row>, cap: nat, save: nat, full: bool, history: seq<Row>, row: Row)
    requires 0 < cap && RingHolds(block, cap, save, full, history)
    ensures
      var save' := if save + 1 == cap then 0 else save + 1;
      RingHolds(block[save := row], cap, save', full || save + 1 == cap, Last(cap, history + [row]))
  {
    var save' := if save + 1 == cap then 0 else save + 1;
    var full' := full || save + 1 == cap;
    var history', block' := Last(cap, history + [row]), block[save := row];
    forall i | 0 <= i < |history'| ensures history'[i] == block'[Slot(i, cap, save', full')] {
      if full {
        if i == cap - 1 {
          assert Slot(i, cap, save', full') == save;
        } else {
          assert Slot(i, cap, save', full') == Slot(i + 1, cap, save, full) != save;
          assert history'[i] == history[i + 1];
        }
      }
    }
  }

  /** Columns x0..x1 of the lines that back rows y0..y1 were filled, and no other line was written. */
  ghost predicate FilledLines(block: seq<Row>, block': seq<Row>, lines: seq<nat>,
                              x0: nat, y0: nat, x1: nat, y1: int, c: Cell)
    requires forall y :: y0 <= y <= y1 && y < |lines| ==> lines[y] < |block| && x0 <= x1 < |block[lines[y]]|
  {
    && |block'| == |block|
    && (forall y :: y0 <= y <= y1 && y < |lines| ==> block'[lines[y]] == FillRow(block[lines[y]], x0, x1, c))
    && (forall l | 0 <= l < |block| ::
         (forall y :: y0 <= y <= y1 && y < |lines| ==> lines[y] != l) ==> block'[l] == block[l])
  }

  /** All rows have lines of the block, and those of y0 through y1 have lines of their own. */
  ghost predicate Separate(lines: seq<nat>, size: nat, y0: nat, y1: nat) {
    (&& (forall y :: 0 <= y < |lines| ==> lines[y] < size)
     && (forall y, z :: y0 <= y < z < |lines| && z <= y1 ==> lines[y] != lines[z])) == true
  }

  lemma PermutedSeparate(lines: seq<nat>, cap: nat, y0: nat, y1: nat)
    requires Permuted(lines, cap)
    ensures Separate(lines, cap + |lines|, y0, y1)
  {
  }

  lemma RenumberedSeparate(lines: seq<nat>, cap: nat, start: nat, upTo: nat, end: nat, num: int, y: nat)
    requires start <= upTo <= end + 1 <= |lines| && -(end - start) <= num <= end - start && Permuted(lines, cap)
    ensures Separate(Renumbered(lines, start, upTo, end, num), cap + |lines|, y, y)
  {
    var r := Renumbered(lines, start, upTo, end, num);
    forall k | 0 <= k < |r| ensures r[k] < cap + |lines| {
      assert start <= k < upTo ==> r[k] == lines[Take(k, start, end, num)];
    }
  }

  /** One row more. */
  lemma FilledNext(block: seq<Row>, block': seq<Row>, lines: seq<nat>, width: nat, x0: nat, y0: nat, x1: nat, y: nat,
                   c: Cell)
    requires y0 <= y < |lines| && |block'| == |block| && Separate(lines, |block|, y0, y)
    requires IsGrid(block, |block|, width) && x0 <= x1 < width
    requires FilledLines(block, block', lines, x0, y0, x1, y - 1, c)
    ensures block'[lines[y]] == block[lines[y]]
    ensures FilledLines(block, block'[lines[y] := FillRow(block[lines[y]], x0, x1, c)], lines, x0, y0, x1, y, c)
  {
    hide FillRow;
  }

  /** Rows past the last line make no difference. */
  lemma FilledAll(block: seq<Row>, block': seq<Row>, lines: seq<nat>, width: nat, x0: nat, y0: nat, x1: nat, y1: int,
                  y2: int, c: Cell)
    requires IsGrid(block, |block|, width) && x0 <= x1 < width && forall y :: 0 <= y < |lines| ==> lines[y] < |block|
    requires FilledLines(block, block', lines, x0, y0, x1, y1, c)
    requires y1 <= y2 && (y1 < y2 ==> |lines| <= y1 + 1)
    ensures FilledLines(block, block', lines, x0, y0, x1, y2, c)
  {
  }

  /** shift_text on one row: the memmove, when it happens, and then the fill. */
  function Shifted(row: Row, x0: nat, x1: nat, num: int, c: Cell): (r: Row)
    requires x0 <= x1 < |row| && -(x1 + 1 - x0) <= num <= x1 + 1 - x0 && num != 0
  {
    var mx := x1 + 1 - x0;
    var moved := if num >= mx || -num >= mx then row
                 else if num < 0 then CopyWithin(row, x0 - num, x0, mx + num)
                 else CopyWithin(row, x0, x0 + num, mx - num);
    if num < 0 then FillRow(moved, num + x1 + 1, x1, c) else FillRow(moved, x0, x0 + num - 1, c)
  }

  function CopyWithin(row: Row, from: nat, to: nat, n: nat): (r: Row)
    requires from + n <= |row| && to + n <= |row|
    ensures |r| == |row|
  {
    seq(|row|, x requires 0 <= x < |row| => if to <= x < to + n then row[from + (x - to)] else row[x])
  }

  lemma ShiftedIsSlide(row: Row, x0: nat, x1: nat, num: int, c: Cell)
    requires x0 <= x1 < |row| && -(x1 + 1 - x0) <= num <= x1 + 1 - x0 && num != 0
    ensures Shifted(row, x0, x1, num, c)
         == if num > 0 then SlideForward(row, x0, x1 + 1, num, c) else SlideBack(row, x0, x1 + 1, -num, c)
  {
  }

  /** The row whose line row y takes over when start..end is rotated by num. */
  function Take(y: nat, start: nat, end: nat, num: int): (k: nat)
    requires start <= y <= end && -(end - start) <= num <= end - start
    ensures start <= k <= end
  {
    if y + num < start then y + num + (end - start + 1)
    else if y + num > end then y + num - (end - start + 1)
    else y + num
  }

  /** The indirection table when rows start..upTo of the rotation are done. */
  function Renumbered(lines: seq<nat>, start: nat, upTo: nat, end: nat, num: int): (r: seq<nat>)
    requires start <= upTo <= end + 1 <= |lines| && -(end - start) <= num <= end - start
    ensures |r| == |lines|
  {
    seq(|lines|, y requires 0 <= y < |lines| => if start <= y < upTo then lines[Take(y, start, end, num)] else lines[y])
  }

  /** Row k's line comes in at the vacated end, and its new row is already below upTo. */
  predicate Vacated(k: int, start: nat, upTo: nat, end: nat, num: int) {
    if num > 0 then start <= k < start + num && k - num + (end - start + 1) < upTo
    else end + num < k <= end && k - num - (end - start + 1) < upTo
  }

  /** The lines recycled so far are blank; every other line still holds what it did. */
  ghost predicate VacatedCleared(block: seq<Row>, block': seq<Row>, lines: seq<nat>, cap: nat,
                                 start: nat, upTo: nat, end: nat, num: int, blank: Row)
  {
    && |block'| == |block|
    && (forall l :: 0 <= l < cap && l < |block| ==> block'[l] == block[l])
    && forall k :: 0 <= k < |lines| && lines[k] < |block| ==>
         block'[lines[k]] == if Vacated(k, start, upTo, end, num) then blank else block[lines[k]]
  }

  lemma RenumberStarts(lines: seq<nat>, block: seq<Row>, cap: nat, start: nat, end: nat, num: int, blank: Row)
    requires start <= end < |lines| && -(end - start) <= num <= end - start
    ensures Renumbered(lines, start, start, end, num) == lines
    ensures VacatedCleared(block, block, lines, cap, start, start, end, num, blank)
  {
  }

  lemma RenumberedStep(lines: seq<nat>, start: nat, y: nat, end: nat, num: int)
    requires start <= y <= end < |lines| && -(end - start) <= num <= end - start
    ensures Renumbered(lines, start, y, end, num)[y := lines[Take(y, start, end, num)]]
         == Renumbered(lines, start, y + 1, end, num)
  {
  }

  /** A row that keeps its text recycles no line. */
  lemma VacatedKeep(block: seq<Row>, block': seq<Row>, lines: seq<nat>, cap: nat,
                    start: nat, y: nat, end: nat, num: int, blank: Row)
    requires start <= y <= end < |lines| && -(end - start) <= num <= end - start
    requires VacatedCleared(block, block', lines, cap, start, y, end, num, blank)
    requires start <= y + num <= end
    ensures VacatedCleared(block, block', lines, cap, start, y + 1, end, num, blank)
  {
  }

  /** Clearing a vacated row touches the recycled line and no other. */
  lemma VacatedClear(block: seq<Row>, block': seq<Row>, block'': seq<Row>, lines: seq<nat>, cap: nat,
                     start: nat, y: nat, end: nat, num: int, width: nat, c: Cell)
    requires start <= y <= end < |lines| && -(end - start) <= num <= end - start && num != 0
    requires Permuted(lines, cap) && cap + |lines| == |block| && 0 < width
    requires forall l :: 0 <= l < |block'| ==> |block'[l]| == width
    requires VacatedCleared(block, block', lines, cap, start, y, end, num, Repeat(width, c))
    requires !(start <= y + num <= end)
    requires var lines' := Renumbered(lines, start, y + 1, end, num);
             FilledLines(block', block'', lines', 0, y, width - 1, y, c)
    ensures VacatedCleared(block, block'', lines, cap, start, y + 1, end, num, Repeat(width, c))
  {
    var lines' := Renumbered(lines, start, y + 1, end, num);
    var taken := Take(y, start, end, num);
    assert lines'[y] == lines[taken];
    assert block''[lines'[y]] == Repeat(width, c);
    forall l | 0 <= l < |block| && l != lines[taken] ensures block''[l] == block'[l] {
    }
    forall k | 0 <= k < |lines|
      ensures block''[lines[k]] == if Vacated(k, start, y + 1, end, num) then Repeat(width, c) else block[lines[k]] {
      if k != taken { assert lines[k] != lines[taken]; }
      assert Vacated(k, start, y + 1, end, num) <==> k == taken || Vacated(k, start, y, end, num);
    }
  }

  /** Rotating a permutation gives a permutation. */
  lemma RenumberedPermuted(lines: seq<nat>, first: nat, start: nat, end: nat, num: int)
    requires Permuted(lines, first) && start <= end < |lines| && -(end - start) <= num <= end - start
    ensures Permuted(Renumbered(lines, start, end + 1, end, num), first)
  {
  }

  /** The rows behind the rotated table are the rows scrolled. */
  lemma RenumberedBacks(block: seq<Row>, block': seq<Row>, lines: seq<nat>, cap: nat, rows: seq<Row>,
                        start: nat, end: nat, num: int, blank: Row)
    requires Backed(block, lines, rows) && start < end < |lines| && -(end - start) <= num <= end - start && num != 0
    requires VacatedCleared(block, block', lines, cap, start, end + 1, end, num, blank)
    ensures Backed(block', Renumbered(lines, start, end + 1, end, num), Scrolled(rows, start, end, num, blank))
    ensures forall save, full, history :: RingHolds(block, cap, save, full, history) ==>
      RingHolds(block', cap, save, full, history)
  {
    var lines', rows' := Renumbered(lines, start, end + 1, end, num), Scrolled(rows, start, end, num, blank);
    forall y | 0 <= y < |rows'| ensures lines'[y] < |block'| && rows'[y] == block'[lines'[y]] {
      var k := if start <= y <= end then Take(y, start, end, num) else y;
      assert lines'[y] == lines[k];
    }
  }

  /** The block after some rows were saved still backs the screen and holds history h. */
  ghost predicate Saving(text: seq<Row>, lines: seq<nat>, cap: nat, save: nat, full: bool,
                         rows: seq<Row>, h: seq<Row>, width: nat)
  {
    SavedSoFar(text, lines, cap, save, full, rows, h, width) == true
  }

  ghost predicate SavedSoFar(text: seq<Row>, lines: seq<nat>, cap: nat, save: nat, full: bool,
                             rows: seq<Row>, h: seq<Row>, width: nat)
  {
    && IsGrid(text, |text|, width)
    && Backed(text, lines, rows)
    && RingHolds(text, cap, save, full, h)
  }

  /** One row copied into the ring. */
  lemma SaveOne(text: seq<Row>, lines: seq<nat>, cap: nat, save: nat, full: bool,
                rows: seq<Row>, h: seq<Row>, width: nat, y: nat)
    requires 0 < cap && y < |lines| && Permuted(lines, cap)
    requires Saving(text, lines, cap, save, full, rows, h, width)
    ensures Saving(text[save := text[lines[y]]], lines, cap, if save + 1 == cap then 0 else save + 1,
                   full || save + 1 == cap, rows, Last(cap, h + [rows[y]]), width)
  {
    PushRow(text, cap, save, full, h, text[lines[y]]);
    WriteElsewhere(text, save, text[lines[y]], cap, save, full, h, lines, rows);
  }
}
