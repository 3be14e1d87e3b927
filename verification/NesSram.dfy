/** The run-length coding of NES battery memory: runs are written as a tag byte, the
    value and the length minus one; the tag is the byte value the input uses least. */
module NesSram {

  import opened Basics

  // -------------------------------------------------------------- the coding

  /** Occurrences of v among the first k bytes. */
  function Count(s: seq<byte>, k: nat, v: byte): nat
    requires k <= |s|
  {
    if k == 0 then 0 else Count(s, k - 1, v) + (if s[k - 1] == v then 1 else 0)
  }

  /** The least value among 0..upTo that s uses least. */
  function RarestBelow(s: seq<byte>, upTo: nat): (t: byte)
    requires 1 <= upTo <= 256
    ensures t < upTo
    ensures forall v: byte :: v < upTo ==> Count(s, |s|, t) <= Count(s, |s|, v)
    ensures forall v: byte :: v < t ==> Count(s, |s|, t) < Count(s, |s|, v)
  {
    if upTo == 1 then 0
    else
      var t := RarestBelow(s, upTo - 1);
      if Count(s, |s|, upTo - 1) < Count(s, |s|, t) then upTo - 1 else t
  }

  function Rarest(s: seq<byte>): byte { RarestBelow(s, 256) }

  /** Length of the run of equal bytes at `from`, at most 256, when `run` of it are known. */
  function RunLengthFrom(s: seq<byte>, from: nat, run: nat): (r: nat)
    requires 1 <= run <= 256 && from + run <= |s|
    ensures run <= r <= 256 && from + r <= |s|
    decreases 256 - run
  {
    if from + run < |s| && run < 256 && s[from + run] == s[from] then RunLengthFrom(s, from, run + 1) else run
  }

  function RunLength(s: seq<byte>, from: nat): (r: nat)
    requires from < |s|
    ensures 1 <= r <= 256 && from + r <= |s|
  {
    RunLengthFrom(s, from, 1)
  }

  function Repeated(v: byte, n: nat): (r: seq<byte>)
    ensures |r| == n
  {
    seq(n, _ => v)
  }

  /** How one run is written. */
  function RunCode(v: byte, run: nat, tag: byte): (r: seq<byte>)
    requires 1 <= run <= 256
    ensures |r| == if run >= 4 || v == tag then 3 else run
  {
    if run >= 4 || v == tag then [tag, v, run - 1] else Repeated(v, run)
  }

  function RunsCode(s: seq<byte>, from: nat, tag: byte): seq<byte>
    decreases |s| - from
  {
    if from >= |s| then []
    else RunCode(s[from], RunLength(s, from), tag) + RunsCode(s, from + RunLength(s, from), tag)
  }

  function Encoding(s: seq<byte>): seq<byte> {
    [Rarest(s)] + RunsCode(s, 0, Rarest(s))
  }

  /** The run a length byte stands for. */
  function RunOf(length: byte): (run: nat)
    ensures 1 <= run <= 256
  {
    1 + length as int
  }

  /** The first n bytes the code stands for, if it is long enough and no run passes the end. */
  function RunsDecoded(code: seq<byte>, tag: byte, n: nat): Option<seq<byte>> {
    if n == 0 then Some([])
    else if code == [] then None
    else if code[0] != tag then Prefixed([code[0]], RunsDecoded(code[1..], tag, n - 1))
    else if |code| < 3 || n < RunOf(code[2]) then None
    else Prefixed(Repeated(code[1], RunOf(code[2])), RunsDecoded(code[3..], tag, n - RunOf(code[2])))
  }

  function Decoding(code: seq<byte>, n: nat): Option<seq<byte>> {
    if code == [] || n == 0 then None else RunsDecoded(code[1..], code[0], n)
  }

  // -------------------------------------------------------------- round trip

  /** Plain bytes in front of a code decode to themselves. */
  lemma {:induction false} PlainDecodes(v: byte, run: nat, code: seq<byte>, tag: byte, n: nat)
    requires v != tag && run <= n
    ensures RunsDecoded(Repeated(v, run) + code, tag, n)
         == Prefixed(Repeated(v, run), RunsDecoded(code, tag, n - run))
  {
    var rest := RunsDecoded(code, tag, n - run);
    if run == 0 {
      assert Repeated(v, run) + code == code;
      PrefixedTwice([], [], rest);
    } else {
      PlainDecodes(v, run - 1, code, tag, n - 1);
      PrefixedTwice([v], Repeated(v, run - 1), rest);
      assert Repeated(v, run) == [v] + Repeated(v, run - 1);
      Joins([v], Repeated(v, run - 1), code);
      ByteDecodes(v, Repeated(v, run - 1) + code, tag, n);
    }
  }

  lemma ByteDecodes(v: byte, code: seq<byte>, tag: byte, n: nat)
    requires v != tag && n >= 1
    ensures RunsDecoded([v] + code, tag, n) == Prefixed([v], RunsDecoded(code, tag, n - 1))
  {
  }

  /** A run in front of a code decodes to itself. */
  lemma RunDecodes(v: byte, run: nat, code: seq<byte>, tag: byte, n: nat)
    requires 1 <= run <= 256 && run <= n
    ensures RunsDecoded(RunCode(v, run, tag) + code, tag, n)
         == Prefixed(Repeated(v, run), RunsDecoded(code, tag, n - run))
  {
    if run >= 4 || v == tag {
      assert (RunCode(v, run, tag) + code)[3..] == code;
    } else {
      PlainDecodes(v, run, code, tag, n);
    }
  }

  lemma RunDecodesTo(v: byte, run: nat, code: seq<byte>, tag: byte, rest: seq<byte>, whole: seq<byte>)
    requires 1 <= run <= 256 && RunsDecoded(code, tag, |rest|) == Some(rest)
    requires Repeated(v, run) + rest == whole
    ensures RunsDecoded(RunCode(v, run, tag) + code, tag, |whole|) == Some(whole)
  {
    RunDecodes(v, run, code, tag, |whole|);
  }

  lemma RunThenRefused(v: byte, run: nat, code: seq<byte>, tag: byte, n: nat)
    requires 1 <= run <= 256 && run <= n && RunsDecoded(code, tag, n - run) == None
    ensures RunsDecoded(RunCode(v, run, tag) + code, tag, n) == None
  {
    RunDecodes(v, run, code, tag, n);
  }

  lemma {:induction false} RunIsUniform(s: seq<byte>, from: nat, run: nat)
    requires 1 <= run <= 256 && from + run <= |s| && s[from..from + run] == Repeated(s[from], run)
    ensures var r := RunLengthFrom(s, from, run); s[from..from + r] == Repeated(s[from], r)
    decreases 256 - run
  {
    if from + run < |s| && run < 256 && s[from + run] == s[from] {
      assert s[from..from + run + 1] == s[from..from + run] + [s[from + run]];
      assert Repeated(s[from], run + 1) == Repeated(s[from], run) + [s[from]];
      RunIsUniform(s, from, run + 1);
    }
  }

  lemma RunSplits(s: seq<byte>, from: nat)
    requires from < |s|
    ensures Repeated(s[from], RunLength(s, from)) + s[from + RunLength(s, from)..] == s[from..]
  {
    RunIsUniform(s, from, 1);
    var end := from + RunLength(s, from);
    assert s[from..end] + s[end..] == s[from..];
  }

  lemma {:induction false} RunsRoundTrip(s: seq<byte>, from: nat, tag: byte)
    requires from <= |s|
    ensures RunsDecoded(RunsCode(s, from, tag), tag, |s| - from) == Some(s[from..])
    decreases |s| - from
  {
    hide *;
    if from < |s| {
      var run := RunLength(s, from);
      RunsNext(s, from, tag);
      RunsRoundTrip(s, from + run, tag);
      RunSplits(s, from);
      RunDecodesTo(s[from], run, RunsCode(s, from + run, tag), tag, s[from + run..], s[from..]);
    } else {
      NoMoreRuns(s, tag);
      NothingDecoded(tag);
      assert s[from..] == [];
    }
  }

  /** Decoding what was encoded, with the original length, gives the original back. */
  lemma RoundTrip(s: seq<byte>)
    requires s != []
    ensures Decoding(Encoding(s), |s|) == Some(s)
  {
    RunsRoundTrip(s, 0, Rarest(s));
    assert Encoding(s)[1..] == RunsCode(s, 0, Rarest(s));
  }

  lemma {:induction false} UniformRun(v: byte, n: nat, run: nat)
    requires 1 <= run <= n <= 256
    ensures RunLengthFrom(Repeated(v, n), 0, run) == n
    decreases n - run
  {
    if run < n {
      UniformRun(v, n, run + 1);
    }
  }

  lemma {:induction false} UniformCount(v: byte, n: nat, k: nat, u: byte)
    requires k <= n
    ensures Count(Repeated(v, n), k, u) == if u == v then k else 0
  {
    if k > 0 {
      UniformCount(v, n, k - 1, u);
    }
  }

  /** How up to 256 equal bytes are written: the tag, the least value that does not occur, then the bytes
      themselves if they are fewer than four, and otherwise the tag again, the byte and their number less one. */
  lemma OneRunIs(v: byte, n: nat)
    requires 1 <= n <= 256
    ensures var tag := if v == 0 then 1 else 0;
      Encoding(Repeated(v, n)) == [tag] + if n < 4 then Repeated(v, n) else [tag, v, n - 1]
  {
    var s := Repeated(v, n);
    var tag: byte := if v == 0 then 1 else 0;
    UniformCount(v, n, n, tag);
    UniformCount(v, n, n, Rarest(s));
    UniformCount(v, n, n, 0);
    UniformRun(v, n, 1);
    assert RunsCode(s, n, tag) == [];
    hide RunLengthFrom, RarestBelow;
  }

  /** One run cut short is refused. */
  lemma CutRunRefused(v: byte, run: nat, tag: byte, k: nat, n: nat)
    requires 1 <= run <= 256 && run <= n && k < |RunCode(v, run, tag)|
    ensures RunsDecoded(RunCode(v, run, tag)[..k], tag, n) == None
  {
    if run < 4 && v != tag {
      assert Repeated(v, run)[..k] == Repeated(v, k) + [];
      PlainDecodes(v, k, [], tag, n);
    }
  }

  lemma CutHead(head: seq<byte>, tail: seq<byte>, k: nat)
    requires k <= |head|
    ensures (head + tail)[..k] == head[..k]
  {
  }

  lemma CutTail(head: seq<byte>, tail: seq<byte>, k: nat)
    requires |head| <= k <= |head| + |tail|
    ensures (head + tail)[..k] == head + tail[..k - |head|]
  {
  }

  lemma InsideRuns(s: seq<byte>, from: nat, tag: byte, k: nat)
    requires k < |RunsCode(s, from, tag)|
    ensures from < |s|
  {
  }

  /** A code that is cut short anywhere is refused. */
  lemma {:induction false} CutRunsRefused(s: seq<byte>, from: nat, tag: byte, k: nat, cut: seq<byte>)
    requires from <= |s| && k < |RunsCode(s, from, tag)| && cut == RunsCode(s, from, tag)[..k]
    ensures RunsDecoded(cut, tag, |s| - from) == None
    decreases |s| - from
  {
    hide RunLength, RunCode, RunsCode, RunsDecoded;
    InsideRuns(s, from, tag, k);
    var run := RunLength(s, from);
    var head, tail := RunCode(s[from], run, tag), RunsCode(s, from + run, tag);
    RunsNext(s, from, tag);
    if k < |head| {
      CutHead(head, tail, k);
      CutRunRefused(s[from], run, tag, k, |s| - from);
    } else {
      var rest := tail[..k - |head|];
      CutTail(head, tail, k);
      CutRunsRefused(s, from + run, tag, |rest|, rest);
      RunThenRefused(s[from], run, rest, tag, |s| - from);
    }
  }

  lemma CutRefused(s: seq<byte>, k: nat)
    requires s != [] && k < |Encoding(s)|
    ensures Decoding(Encoding(s)[..k], |s|) == None
  {
    if k > 0 {
      var tag := Rarest(s);
      CutRunsRefused(s, 0, tag, k - 1, RunsCode(s, 0, tag)[..k - 1]);
      assert Encoding(s)[..k] == [tag] + RunsCode(s, 0, tag)[..k - 1];
    }
  }

  // -------------------------------------------------------------- size bound

  lemma {:induction false} CountGrows(s: seq<byte>, from: nat, to: nat, v: byte)
    requires from <= to <= |s|
    ensures Count(s, from, v) + (if from < to && s[from] == v then 1 else 0) <= Count(s, to, v)
    decreases |s| - from
  {
    if from < to {
      CountGrows(s, from + 1, to, v);
    }
  }

  function RunsSize(s: seq<byte>, from: nat, tag: byte): nat
    decreases |s| - from
  {
    if from >= |s| then 0
    else
      var run := RunLength(s, from);
      (if run >= 4 || s[from] == tag then 3 else run) + RunsSize(s, from + run, tag)
  }

  lemma {:induction false} SizeOfCode(s: seq<byte>, from: nat, tag: byte)
    ensures |RunsCode(s, from, tag)| == RunsSize(s, from, tag)
    decreases |s| - from
  {
    if from < |s| {
      SizeOfCode(s, from + RunLength(s, from), tag);
    }
  }

  /** A run costs more than its bytes only when it is of the tag, and then two more at most. */
  lemma {:induction false} RunsCost(s: seq<byte>, from: nat, tag: byte)
    requires from <= |s|
    ensures RunsSize(s, from, tag) + 2 * Count(s, from, tag) <= |s| - from + 2 * Count(s, |s|, tag)
    decreases |s| - from
  {
    if from < |s| {
      RunsCost(s, from + RunLength(s, from), tag);
      CountGrows(s, from, from + RunLength(s, from), tag);
    }
  }

  /** Occurrences of the values below `top` among the first k bytes. */
  function CountBelow(s: seq<byte>, k: nat, top: nat): nat
    requires k <= |s| && top <= 256
  {
    if top == 0 then 0 else CountBelow(s, k, top - 1) + Count(s, k, top - 1)
  }

  lemma {:induction false} CountBelowStep(s: seq<byte>, k: nat, top: nat)
    requires top <= 256 && k < |s|
    ensures CountBelow(s, k + 1, top) == CountBelow(s, k, top) + (if s[k] < top then 1 else 0)
  {
    if top > 0 {
      CountBelowStep(s, k, top - 1);
    }
  }

  lemma {:induction false} NothingCounted(s: seq<byte>, top: nat)
    requires top <= 256
    ensures CountBelow(s, 0, top) == 0
  {
    if top > 0 {
      NothingCounted(s, top - 1);
    }
  }

  lemma {:induction false} EveryByteCounted(s: seq<byte>, k: nat)
    requires k <= |s|
    ensures CountBelow(s, k, 256) == k
  {
    if k == 0 {
      NothingCounted(s, 256);
    } else {
      EveryByteCounted(s, k - 1);
      CountBelowStep(s, k - 1, 256);
    }
  }

  lemma {:induction false} AtLeastEach(s: seq<byte>, top: nat, m: nat)
    requires top <= 256 && forall v: byte :: v < top ==> m <= Count(s, |s|, v)
    ensures top * m <= CountBelow(s, |s|, top)
  {
    if top > 0 {
      AtLeastEach(s, top - 1, m);
      assert top * m == (top - 1) * m + m;
    }
  }

  /** Of 256 values the rarest occurs at most |s|/256 times. */
  lemma RarestIsRare(s: seq<byte>)
    ensures Count(s, |s|, Rarest(s)) <= |s| / 256
  {
    AtLeastEach(s, 256, Count(s, |s|, Rarest(s)));
    EveryByteCounted(s, |s|);
  }

  lemma EncodingSize(s: seq<byte>)
    ensures |Encoding(s)| <= 1 + |s| + 2 * (|s| / 256)
  {
    RunsCost(s, 0, Rarest(s));
    SizeOfCode(s, 0, Rarest(s));
    RarestIsRare(s);
  }

  // -------------------------------------------------------------- the coder

  method CountBytes(input: seq<byte>) returns (frequency: array<nat>)
    ensures fresh(frequency) && frequency.Length == 256
    ensures forall v: byte :: frequency[v] == Count(input, |input|, v)
  {
    frequency := new nat[256](_ => 0);
    for index := 0 to |input|
      invariant forall v: byte :: frequency[v] == Count(input, index, v)
    {
      frequency[input[index]] := frequency[input[index]] + 1;
    }
  }

  method FindTag(input: seq<byte>) returns (tag: byte)
    ensures tag == Rarest(input)
  {
    var frequency := CountBytes(input);
    tag := 0;
    for value := 1 to 256
      invariant tag == RarestBelow(input, value)
    {
      if frequency[value] < frequency[tag] {
        tag := value;
      }
    }
  }

  method FindRun(input: seq<byte>, from: nat) returns (run: nat)
    requires from < |input|
    ensures run == RunLength(input, from)
  {
    run := 1;
    while from + run < |input| && run < 256 && input[from + run] == input[from]
      invariant 1 <= run <= 256 && from + run <= |input|
      invariant RunLengthFrom(input, from, run) == RunLength(input, from)
    {
      run := run + 1;
    }
  }

  /** A buffer in the course of writing: what is written and what is left make up the whole,
      and nothing beyond the capacity has changed since `was`. */
  predicate Writing(buffer: seq<byte>, was: seq<byte>, written: nat, capacity: nat,
                    left: seq<byte>, all: seq<byte>)
  {
    (&& written <= capacity <= |buffer| == |was|
     && buffer[capacity..] == was[capacity..]
     && buffer[..written] + left == all) == true
  }

  lemma WritingStarts(buffer: seq<byte>, capacity: nat, tag: byte, left: seq<byte>)
    requires 1 <= capacity <= |buffer|
    ensures Writing(buffer[0 := tag], buffer, 1, capacity, left, [tag] + left)
  {
  }

  lemma RunsNext(s: seq<byte>, from: nat, tag: byte)
    requires from < |s|
    ensures var run := RunLength(s, from);
      RunsCode(s, from, tag) == RunCode(s[from], run, tag) + RunsCode(s, from + run, tag)
  {
  }

  lemma NothingDecoded(tag: byte)
    ensures RunsDecoded([], tag, 0) == Some([])
  {
  }

  lemma NoMoreRuns(s: seq<byte>, tag: byte)
    ensures RunsCode(s, |s|, tag) == []
  {
  }

  lemma WritingFits(buffer: seq<byte>, was: seq<byte>, written: nat, capacity: nat, left: seq<byte>, all: seq<byte>)
    requires Writing(buffer, was, written, capacity, left, all)
    ensures written <= capacity <= |buffer| == |was| && buffer[capacity..] == was[capacity..]
  {
  }

  /** The first part of what is left joins what is written, if there is room for it. */
  lemma WritingStep(buffer: seq<byte>, was: seq<byte>, written: nat, capacity: nat,
                    part: seq<byte>, left: seq<byte>, all: seq<byte>)
    requires Writing(buffer, was, written, capacity, part + left, all)
    ensures written + |part| <= |all|
    ensures written + |part| <= capacity ==>
              Writing(Overlaid(buffer, written, part), was, written + |part|, capacity, left, all)
  {
  }

  lemma WritingEnds(buffer: seq<byte>, was: seq<byte>, written: nat, capacity: nat, all: seq<byte>)
    requires Writing(buffer, was, written, capacity, [], all)
    ensures written <= capacity <= |buffer| && buffer[..written] == all
  {
  }

  /** NesSramEncode into the first `capacity` bytes of a buffer. */
  method Encode(input: seq<byte>, output: array<byte>, capacity: nat) returns (ok: bool, written: nat)
    requires capacity <= output.Length
    modifies output
    ensures ok <==> input != [] && |Encoding(input)| <= capacity
    ensures ok ==> written <= capacity && output[..written] == Encoding(input)
    ensures output[capacity..] == old(output[capacity..])
  {
    ok, written := false, 0;
    if |input| == 0 || capacity == 0 { return; }
    var tag := FindTag(input);
    ghost var was := output[..];
    output[0] := tag;
    WritingStarts(was, capacity, tag, RunsCode(input, 0, tag));
    assert output[..] == was[0 := tag];
    ok, written := EncodeRuns(input, tag, output, capacity, was, Encoding(input));
    assert output[capacity..] == output[..][capacity..];
  }

  /** The loop over the runs, after the tag has been written. */
  method EncodeRuns(input: seq<byte>, tag: byte, output: array<byte>, capacity: nat,
                    ghost was: seq<byte>, ghost all: seq<byte>)
    returns (ok: bool, written: nat)
    requires Writing(output[..], was, 1, capacity, RunsCode(input, 0, tag), all)
    modifies output
    ensures ok <==> |all| <= capacity
    ensures ok ==> written <= capacity <= output.Length && output[..][..written] == all
    ensures capacity <= output.Length == |was| && output[..][capacity..] == was[capacity..]
  {
    hide Writing, Overlaid, RunsCode, RunCode, RunLength;
    ok, written := false, 1;
    var index := 0;
    WritingFits(output[..], was, written, capacity, RunsCode(input, 0, tag), all);
    while index < |input|
      invariant index <= |input|
      invariant Writing(output[..], was, written, capacity, RunsCode(input, index, tag), all)
    {
      var run := FindRun(input, index);
      RunsNext(input, index, tag);
      WritingFits(output[..], was, written, capacity, RunsCode(input, index, tag), all);
      WritingStep(output[..], was, written, capacity,
                  RunCode(input[index], run, tag), RunsCode(input, index + run, tag), all);
      if capacity - written < (if run >= 4 || input[index] == tag then 3 else run) { return; }
      written := WriteRun(output, written, input[index], run, tag);
      index := index + run;
    }
    NoMoreRuns(input, tag);
    WritingFits(output[..], was, written, capacity, [], all);
    WritingEnds(output[..], was, written, capacity, all);
    ok := true;
  }

  method WriteRun(output: array<byte>, at: nat, v: byte, run: nat, tag: byte) returns (end: nat)
    requires 1 <= run <= 256 && at + |RunCode(v, run, tag)| <= output.Length
    modifies output
    ensures output[..] == Overlaid(old(output[..]), at, RunCode(v, run, tag))
    ensures end == at + |RunCode(v, run, tag)|
  {
    if run >= 4 || v == tag {
      output[at] := tag;
      output[at + 1] := v;
      output[at + 2] := run - 1;
      end := at + 3;
    } else {
      FillRun(output, at, v, run);
      end := at + run;
    }
  }

  method FillRun(output: array<byte>, at: nat, v: byte, run: nat)
    requires at + run <= output.Length
    modifies output
    ensures output[..] == Overlaid(old(output[..]), at, Repeated(v, run))
  {
    for index := 0 to run
      invariant output[..] == Overlaid(old(output[..]), at, Repeated(v, index))
    {
      output[at + index] := v;
    }
  }

  /** A buffer in the course of decoding: what is written, followed by what is still to
      come, is the whole, or both fail. */
  predicate Reading(buffer: seq<byte>, was: seq<byte>, out: nat, n: nat,
                    rest: Option<seq<byte>>, all: Option<seq<byte>>)
  {
    (&& out <= n <= |buffer| == |was|
     && buffer[n..] == was[n..]
     && Prefixed(buffer[..out], rest) == all) == true
  }

  lemma ReadingStarts(buffer: seq<byte>, n: nat, all: Option<seq<byte>>)
    requires n <= |buffer|
    ensures Reading(buffer, buffer, 0, n, all, all)
  {
    PrefixedTwice([], [], all);
    assert buffer[..0] == [];
  }

  lemma ReadingStep(buffer: seq<byte>, was: seq<byte>, out: nat, n: nat, part: seq<byte>,
                    rest: Option<seq<byte>>, all: Option<seq<byte>>)
    requires Reading(buffer, was, out, n, Prefixed(part, rest), all) && out + |part| <= n
    ensures Reading(Overlaid(buffer, out, part), was, out + |part|, n, rest, all)
  {
    PrefixedTwice(buffer[..out], part, rest);
    assert Overlaid(buffer, out, part)[..out + |part|] == buffer[..out] + part;
    assert Overlaid(buffer, out, part)[n..] == buffer[n..];
  }

  lemma ReadingEnds(buffer: seq<byte>, was: seq<byte>, n: nat, all: Option<seq<byte>>)
    requires Reading(buffer, was, n, n, Some([]), all)
    ensures all == Some(buffer[..n])
  {
    assert buffer[..n] + [] == buffer[..n];
  }

  /** What the byte at `index` of a code says. */
  lemma NextCode(input: seq<byte>, index: nat, tag: byte, n: nat)
    requires index < |input| && n > 0
    ensures RunsDecoded(input[index..], tag, n)
         == if input[index] != tag then
              Prefixed(Repeated(input[index], 1), RunsDecoded(input[index + 1..], tag, n - 1))
            else if |input| - index < 3 || n < RunOf(input[index + 2]) then None
            else
              var run := RunOf(input[index + 2]);
              Prefixed(Repeated(input[index + 1], run), RunsDecoded(input[index + 3..], tag, n - run))
  {
    var code := input[index..];
    assert code[1..] == input[index + 1..];
    assert Repeated(input[index], 1) == [input[index]];
    if |code| >= 3 {
      assert code[3..] == input[index + 3..];
    }
  }

  /** NesSramDecode: fills the first n bytes of a buffer, or fails. */
  method Decode(input: seq<byte>, output: array<byte>, n: nat) returns (ok: bool)
    requires n <= output.Length
    modifies output
    ensures ok <==> Decoding(input, n).Some?
    ensures ok ==> output[..][..n] == Decoding(input, n).value
    ensures output[..][n..] == old(output[..])[n..]
  {
    ok := false;
    if |input| == 0 || n == 0 { return; }
    var tag := input[0];
    var index, out := 1, 0;
    ghost var was, all := output[..], Decoding(input, n);
    ReadingStarts(was, n, all);
    while out < n
      invariant 1 <= index <= |input| && out <= n
      invariant Reading(output[..], was, out, n, RunsDecoded(input[index..], tag, n - out), all)
    {
      if index >= |input| { return; }
      NextCode(input, index, tag, n - out);
      var value := input[index];
      index := index + 1;
      if value != tag {
        ReadingStep(output[..], was, out, n, Repeated(value, 1), RunsDecoded(input[index..], tag, n - out - 1), all);
        FillRun(output, out, value, 1);
        out := out + 1;
        continue;
      }
      if |input| - index < 2 { return; }
      var repeated := input[index];
      var run := RunOf(input[index + 1]);
      index := index + 2;
      if n - out < run { return; }
      ReadingStep(output[..], was, out, n, Repeated(repeated, run), RunsDecoded(input[index..], tag, n - out - run),
                  all);
      FillRun(output, out, repeated, run);
      out := out + run;
    }
    ReadingEnds(output[..], was, n, all);
    ok := true;
  }

  function MaximumEncodedSize(n: nat): nat { n * 3 + 1 }

  /** With the advertised capacity encoding never fails, and decoding the result with the
      original length restores the input. */
  method SaveAndLoad(input: seq<byte>, file: array<byte>) returns (saved: bool, size: nat, loaded: seq<byte>)
    requires input != [] && file.Length == MaximumEncodedSize(|input|)
    modifies file
    ensures saved && size <= file.Length && file[..size] == Encoding(input)
    ensures Decoding(file[..size], |input|) == Some(input) && loaded == input
  {
    saved, size := Encode(input, file, file.Length);
    EncodingSize(input);
    RoundTrip(input);
    var memory := new byte[|input|](_ => 0);
    var ok := Decode(file[..size], memory, |input|);
    assert ok;
    loaded := memory[..];
  }
}
