/** The terminal's UTF-8 decoder, one byte at a time, against a reading of the whole text;
    and the encoder of selected text, whose output the decoder reads back. */
module Utf8Decoder {

  import opened Basics
  import opened Utf8

  const REPLACEMENT := 0xfffd

  /** utf8_count, npar and cur_char. */
  datatype State = State(left: nat, npar: nat, cur: nat) {
    predicate Valid() { left > 0 ==> left + npar <= 5 }
  }

  /** The largest code of a sequence with k continuation bytes. */
  function Limit(k: nat): nat
    requires k <= 5
  {
    [0x7f, 0x7ff, 0xffff, 0x1f_ffff, 0x3ff_ffff, 0x7fff_ffff][k]
  }

  /** Surrogates and the two non-characters are replaced. */
  function Cleaned(c: nat): nat {
    if 0xd800 <= c <= 0xdfff || c == 0xfffe || c == 0xffff then REPLACEMENT else c
  }

  /** A code that came with n continuation bytes must need that many. */
  function Judged(n: nat, c: nat): nat
    requires 1 <= n <= 5
  {
    if c <= Limit(n - 1) || c > Limit(n) then REPLACEMENT else Cleaned(c)
  }

  /** Continuation bytes a lead byte asks for; 0 for the bytes that lead nothing. */
  function Follow(b: byte): (n: nat)
    ensures n <= 5
  {
    if 0xc0 <= b < 0xe0 then 1
    else if 0xe0 <= b < 0xf0 then 2
    else if 0xf0 <= b < 0xf8 then 3
    else if 0xf8 <= b < 0xfc then 4
    else if 0xfc <= b < 0xfe then 5
    else 0
  }

  function Bits(b: byte): nat {
    if b < 0xe0 then b % 0x20
    else if b < 0xf0 then b % 0x10
    else if b < 0xf8 then b % 8
    else if b < 0xfc then b % 4
    else b % 2
  }

  // -------------------------------------------------------------- the machine

  /** A byte that does not continue anything, with nothing pending. */
  function Start(s: State, b: byte): (r: (State, seq<nat>))
    ensures r.0.Valid()
  {
    if b <= 0x7f then (State(0, s.npar, b), [b])
    else if Follow(b) > 0 then (State(Follow(b), 0, Bits(b)), [])
    else (State(0, 0, REPLACEMENT), [REPLACEMENT])
  }

  function Step(s: State, b: byte): (r: (State, seq<nat>))
    requires s.Valid()
    ensures r.0.Valid()
  {
    if Continuation(b) then
      if s.left == 0 then (State(0, s.npar, REPLACEMENT), [REPLACEMENT])
      else
        var code := s.cur * 64 + b % 64;
        if s.left > 1 then (State(s.left - 1, s.npar + 1, code), [])
        else var c := Judged(s.npar + 1, code); (State(0, s.npar + 1, c), [c])
    else if s.left > 0 then
      var again := Start(State(0, s.npar, REPLACEMENT), b);
      (again.0, [REPLACEMENT] + again.1)
    else Start(s, b)
  }

  /** The state after the bytes from i on, and the characters they gave. */
  function Run(s: State, text: seq<byte>, i: nat): (r: (State, seq<nat>))
    requires s.Valid()
    ensures r.0.Valid()
    decreases |text| - i
  {
    if i >= |text| then (s, [])
    else
      var first := Step(s, text[i]);
      var rest := Run(first.0, text, i + 1);
      (rest.0, first.1 + rest.1)
  }

  /** The decoding part of VTerm::input, while no escape sequence is under way. */
  class Decoder {
    var utf8Count: nat
    var npar: nat
    var curChar: nat

    ghost function Now(): State
      reads this
    {
      State(utf8Count, npar, curChar)
    }

    constructor ()
      ensures Now() == State(0, 0, 0)
    {
      utf8Count, npar, curChar := 0, 0, 0;
    }

    method Input(text: seq<byte>) returns (codes: seq<nat>)
      requires Now().Valid()
      modifies this
      ensures (Now(), codes) == Run(old(Now()), text, 0)
    {
      codes := [];
      assert [] + Run(Now(), text, 0).1 == Run(Now(), text, 0).1;
      for i := 0 to |text|
        invariant Now().Valid()
        invariant Continues(old(Now()), text, i, Now(), codes)
      {
        ContinuesStep(old(Now()), text, i, Now(), codes);
        var out := Byte(text[i]);
        codes := codes + out;
      }
      assert codes + [] == codes;
    }

    method Byte(b: byte) returns (codes: seq<nat>)
      requires Now().Valid()
      modifies this
      ensures (Now(), codes) == Step(old(Now()), b)
    {
      codes := [];
      if Continuation(b) {
        if utf8Count > 0 {
          curChar := curChar * 64 + b % 64;
          npar := npar + 1;
          utf8Count := utf8Count - 1;
          if utf8Count > 0 { return; }
          curChar := Judged(npar, curChar);
        } else {
          curChar := REPLACEMENT;
        }
        codes := [curChar];
      } else {
        if utf8Count > 0 {
          utf8Count, curChar, codes := 0, REPLACEMENT, [REPLACEMENT];
        }
        var again := First(b);
        assert [] + again == again;
        codes := codes + again;
      }
    }

    method First(b: byte) returns (codes: seq<nat>)
      requires utf8Count == 0
      modifies this
      ensures (Now(), codes) == Start(old(Now()), b)
    {
      codes := [];
      curChar := b;
      if b > 0x7f {
        npar := 0;
        utf8Count := Follow(b);
        curChar := if utf8Count > 0 then Bits(b) else REPLACEMENT;
        if utf8Count > 0 { return; }
      }
      codes := [curChar];
    }
  }

  /** A run cut at i: the state there and the characters so far, then the rest. */
  ghost predicate Continues(s: State, text: seq<byte>, i: nat, now: State, codes: seq<nat>)
    requires s.Valid() && now.Valid()
  {
    (Run(s, text, 0) == (Run(now, text, i).0, codes + Run(now, text, i).1)) == true
  }

  lemma ContinuesStep(s: State, text: seq<byte>, i: nat, now: State, codes: seq<nat>)
    requires s.Valid() && now.Valid() && i < |text| && Continues(s, text, i, now, codes)
    ensures Continues(s, text, i + 1, Step(now, text[i]).0, codes + Step(now, text[i]).1)
  {
    var first := Step(now, text[i]);
    var rest := Run(first.0, text, i + 1);
    assert codes + (first.1 + rest.1) == codes + first.1 + rest.1;
  }

  // ------------------------------------------------- a reading of the whole text

  /** How many of the next n bytes are continuation bytes, up to the first that is not. */
  function Following(text: seq<byte>, i: nat, n: nat): (k: nat)
    ensures k <= n && (i <= |text| ==> i + k <= |text|)
    decreases n
  {
    if n == 0 || i >= |text| || !Continuation(text[i]) then 0 else 1 + Following(text, i + 1, n - 1)
  }

  /** A code with the low bits of the next n bytes. */
  function Gathered(text: seq<byte>, i: nat, n: nat, code: nat): nat
    requires i + n <= |text|
    decreases n
  {
    if n == 0 then code else Gathered(text, i + 1, n - 1, code * 64 + text[i] % 64)
  }

  /** What is read from i on: whole sequences give their code or a replacement, one replacement
      stands for a sequence that is cut short by another byte, which is then read itself, and a
      sequence cut short by the end of the text gives nothing yet. */
  function Reading(text: seq<byte>, i: nat): seq<nat>
    decreases |text| - i, 0
  {
    if i >= |text| then []
    else if text[i] <= 0x7f then [text[i] as nat] + Reading(text, i + 1)
    else if Follow(text[i]) == 0 then [REPLACEMENT] + Reading(text, i + 1)
    else Pending(text, i + 1, Follow(text[i]), 0, Bits(text[i]))
  }

  /** The same with n more bytes to come for a sequence that has had k. */
  function Pending(text: seq<byte>, i: nat, n: nat, k: nat, code: nat): seq<nat>
    requires n > 0 && n + k <= 5 && i <= |text|
    decreases |text| - i, 1
  {
    var more := Following(text, i, n);
    if more == n then [Judged(n + k, Gathered(text, i, n, code))] + Reading(text, i + n)
    else if i + more == |text| then []
    else [REPLACEMENT] + Reading(text, i + more)
  }

  lemma {:induction false} PendingStep(text: seq<byte>, i: nat, n: nat, k: nat, code: nat)
    requires n > 0 && n + k <= 5 && i < |text|
    ensures !Continuation(text[i]) ==> Pending(text, i, n, k, code) == [REPLACEMENT] + Reading(text, i)
    ensures Continuation(text[i]) && n == 1 ==>
              Pending(text, i, n, k, code) == [Judged(k + 1, code * 64 + text[i] % 64)] + Reading(text, i + 1)
    ensures Continuation(text[i]) && n > 1 ==>
              Pending(text, i, n, k, code) == Pending(text, i + 1, n - 1, k + 1, code * 64 + text[i] % 64)
  {
    hide Reading, Judged;
    if Continuation(text[i]) {
      assert Following(text, i, n) == 1 + Following(text, i + 1, n - 1);
    }
  }

  /** What is read from i on in a given state. */
  function Tail(s: State, text: seq<byte>, i: nat): seq<nat>
    requires s.Valid() && i <= |text|
  {
    if s.left == 0 then Reading(text, i) else Pending(text, i, s.left, s.npar, s.cur)
  }

  lemma TailStep(s: State, text: seq<byte>, i: nat)
    requires s.Valid() && i < |text|
    ensures Tail(s, text, i) == Step(s, text[i]).1 + Tail(Step(s, text[i]).0, text, i + 1)
  {
    if s.left == 0 {
      IdleStep(s, text, i);
    } else if Continuation(text[i]) {
      ContinuedStep(s, text, i);
    } else {
      InterruptedStep(s, text, i);
    }
  }

  lemma ContinuedStep(s: State, text: seq<byte>, i: nat)
    requires s.Valid() && s.left > 0 && i < |text| && Continuation(text[i])
    ensures Tail(s, text, i) == Step(s, text[i]).1 + Tail(Step(s, text[i]).0, text, i + 1)
  {
    hide Judged, Reading, Pending, Start;
    PendingStep(text, i, s.left, s.npar, s.cur);
    EmptyJoins(Tail(Step(s, text[i]).0, text, i + 1));
  }

  /** A sequence cut short gives a replacement, and the byte that cuts it is read afresh. */
  lemma InterruptedStep(s: State, text: seq<byte>, i: nat)
    requires s.Valid() && s.left > 0 && i < |text| && !Continuation(text[i])
    ensures Tail(s, text, i) == [REPLACEMENT] + Reading(text, i)
    ensures Tail(s, text, i) == Step(s, text[i]).1 + Tail(Step(s, text[i]).0, text, i + 1)
  {
    PendingStep(text, i, s.left, s.npar, s.cur);
    var idle := State(0, s.npar, REPLACEMENT);
    IdleStep(idle, text, i);
    var again := Start(idle, text[i]);
    Joins([REPLACEMENT], again.1, Tail(again.0, text, i + 1));
  }

  lemma IdleStep(s: State, text: seq<byte>, i: nat)
    requires s.left == 0 && i < |text|
    ensures Reading(text, i) == Step(s, text[i]).1 + Tail(Step(s, text[i]).0, text, i + 1)
  {
  }

  /** For every byte string the machine reads what the whole-text reading says. */
  lemma {:induction false} MachineReads(s: State, text: seq<byte>, i: nat)
    requires s.Valid() && i <= |text|
    ensures Run(s, text, i).1 == Tail(s, text, i)
    decreases |text| - i
  {
    if i < |text| {
      MachineReads(Step(s, text[i]).0, text, i + 1);
      TailStep(s, text, i);
    }
  }

  // ---------------------------------------------------- well-formed text

  function CleanedAll(codes: seq<nat>): (r: seq<nat>)
    ensures |r| == |codes|
  {
    seq(|codes|, i requires 0 <= i < |codes| => Cleaned(codes[i]))
  }

  /** Encodings, even of surrogates, are read as their codes, cleaned. */
  lemma {:induction false} EncodedReads(text: seq<byte>, i: nat, codes: seq<nat>)
    requires i <= |text| && Encodable(codes) && text[i..] == EncodeAll(codes)
    ensures Reading(text, i) == CleanedAll(codes)
    decreases codes
  {
    if codes != [] {
      var next := EncodedStep(text, i, codes[0], codes[1..]);
      EncodedReads(text, next, codes[1..]);
      CleanedFirst(codes);
    }
  }

  /** So every scalar value of Unicode but the two non-characters is read as itself. */
  lemma ScalarsRead(codes: seq<nat>)
    requires Encodable(codes)
    requires forall i :: 0 <= i < |codes| ==>
      codes[i] <= 0x10_ffff && !(0xd800 <= codes[i] <= 0xdfff) && codes[i] != 0xfffe && codes[i] != 0xffff
    ensures Run(State(0, 0, 0), EncodeAll(codes), 0).1 == codes
  {
    var text := EncodeAll(codes);
    assert text[0..] == text;
    MachineReads(State(0, 0, 0), text, 0);
    EncodedReads(text, 0, codes);
    assert CleanedAll(codes) == codes;
    hide Run, Reading, EncodeAll;
  }

  lemma EncodedStep(text: seq<byte>, i: nat, c: nat, rest: seq<nat>) returns (next: nat)
    requires i <= |text| && c < 0x20_0000 && Encodable(rest) && text[i..] == Encode(c) + EncodeAll(rest)
    ensures i < next <= |text| && text[next..] == EncodeAll(rest)
    ensures Reading(text, i) == [Cleaned(c)] + Reading(text, next)
  {
    hide Encode, EncodeAll, Reading, Cleaned;
    Cut(text, i, Encode(c), EncodeAll(rest));
    FirstReads(text, i, c);
    next := i + |Encode(c)|;
  }

  lemma CleanedFirst(codes: seq<nat>)
    requires codes != []
    ensures CleanedAll(codes) == [Cleaned(codes[0])] + CleanedAll(codes[1..])
  {
  }

  lemma FirstReads(text: seq<byte>, i: nat, c: nat)
    requires c < 0x20_0000 && i + |Encode(c)| <= |text| && text[i..i + |Encode(c)|] == Encode(c)
    ensures Reading(text, i) == [Cleaned(c)] + Reading(text, i + |Encode(c)|)
  {
    var e := Encode(c);
    var n := |e| - 1;
    forall k | 0 <= k <= n ensures text[i + k] == e[k] {
      assert text[i..i + |e|][k] == text[i + k];
    }
    ShortestJudged(c);
    if n > 0 {
      EncodingShape(c);
      forall k | i + 1 <= k < i + 1 + n ensures Continuation(text[k]) {
        assert text[k] == e[k - i];
      }
      AllFollow(text, i + 1, n, Bits(text[i]));
      JoinedAgain(e, c);
      assert Gathered(text, i + 1, n, Bits(text[i])) == c;
      assert Pending(text, i + 1, n, 0, Bits(text[i])) == [Judged(n, c)] + Reading(text, i + 1 + n);
    }
  }

  /** The shortest form is not overlong, and its first byte asks for the rest. */
  lemma ShortestJudged(c: nat)
    requires c < 0x20_0000
    ensures var e := Encode(c);
      if |e| == 1 then e[0] as int == c <= 0x7f && Cleaned(c) == c
      else e[0] > 0x7f && Follow(e[0]) == |e| - 1 && Bits(e[0]) == LeadBits(e[0]) && Judged(|e| - 1, c) == Cleaned(c)
  {
  }

  lemma AllFollow(text: seq<byte>, i: nat, n: nat, lead: nat)
    requires i + n <= |text| && 1 <= n <= 3 && forall k :: i <= k < i + n ==> Continuation(text[k])
    ensures Following(text, i, n) == n
    ensures n == 1 ==> Gathered(text, i, n, lead) == lead * 64 + Low(text, i)
    ensures n == 2 ==> Gathered(text, i, n, lead) == (lead * 64 + Low(text, i)) * 64 + Low(text, i + 1)
    ensures n == 3 ==> Gathered(text, i, n, lead) ==
                         ((lead * 64 + Low(text, i)) * 64 + Low(text, i + 1)) * 64 + Low(text, i + 2)
    decreases n
  {
  }

  // ------------------------------------------------- texts the menu accepts

  /** The two codes that start an escape sequence: what follows them is not decoded. */
  predicate Escapes(c: nat) { c == 0x1b || c == 0x9b }

  /** The characters up to and with the first that starts an escape sequence. */
  function Heard(codes: seq<nat>): seq<nat> {
    if codes == [] || Escapes(codes[0]) then codes[..Min(|codes|, 1)]
    else [codes[0]] + Heard(codes[1..])
  }

  lemma {:induction false} AllHeard(codes: seq<nat>)
    ensures Heard(codes) == codes <==> forall i :: 0 <= i < |codes| - 1 ==> !Escapes(codes[i])
  {
    if codes != [] {
      AllHeard(codes[1..]);
      if Escapes(codes[0]) {
        assert Heard(codes) == [codes[0]];
      } else {
        assert codes == [codes[0]] + codes[1..];
        assert forall i :: 0 <= i < |codes[1..]| - 1 ==> codes[1..][i] == codes[i + 1];
        assert (forall i :: 0 <= i < |codes| - 1 ==> !Escapes(codes[i]))
            ==> (forall i :: 0 <= i < |codes[1..]| - 1 ==> !Escapes(codes[1..][i]));
        if Heard(codes[1..]) == codes[1..] {
          forall i | 0 <= i < |codes| - 1 ensures !Escapes(codes[i]) {
            assert i > 0 ==> codes[i] == codes[1..][i - 1];
          }
        } else {
          assert Heard(codes)[1..] == Heard(codes[1..]);
        }
      }
    }
  }

  lemma HeardCleaned(codes: seq<nat>)
    requires Printable(codes)
    ensures Heard(CleanedAll(codes)) == CleanedAll(codes) <==> NoneBefore(codes, 0x9b, |codes| - 1)
  {
    AllHeard(CleanedAll(codes));
    assert forall i :: 0 <= i < |codes| ==> (Escapes(CleanedAll(codes)[i]) <==> codes[i] == 0x9b);
  }

  predicate NoneBefore(codes: seq<nat>, c: nat, end: int) {
    forall i :: 0 <= i < |codes| && i < end ==> codes[i] != c
  }

  /** An accepted text reaches the terminal as the same characters, cleaned, exactly if no
      U+009B, which the validator lets through, stands before its last character. */
  lemma AcceptedIsHeard(text: seq<byte>, maxCodepoints: nat, allowEmpty: bool)
    requires Accepted(text, maxCodepoints, allowEmpty)
    ensures var codes := CodesFrom(text, 0).value;
      && Run(State(0, 0, 0), text, 0).1 == CleanedAll(codes)
      && (Heard(CleanedAll(codes)) == CleanedAll(codes) <==> NoneBefore(codes, 0x9b, |codes| - 1))
  {
    hide CodesFrom, Run, Reading, Heard, Cleaned, CleanedAll, EncodeAll, NoneBefore;
    var codes := CodesFrom(text, 0).value;
    HeardCleaned(codes);
    ReadIsEncoded(text, 0);
    EncodedReads(text, 0, codes);
    MachineReads(State(0, 0, 0), text, 0);
  }

  /** A text with U+009B inside that is accepted but not heard to the end. */
  lemma AcceptedNotHeard()
    ensures var text := [0xc2, 0x9b, 0x41];
      Accepted(text, 8, false) && Heard(Run(State(0, 0, 0), text, 0).1) == [0x9b]
  {
    var text: seq<byte> := [0xc2, 0x9b, 0x41];
    var codes: seq<nat> := [0x9b, 0x41];
    assert Encode(0x9b) == [0xc2, 0x9b] && Encode(0x41) == [0x41];
    assert EncodeAll([0x41]) == [0x41];
    assert EncodeAll(codes) == Encode(0x9b) + EncodeAll(codes[1..]);
    assert text[0..] == EncodeAll(codes);
    hide Run, Reading, CodesFrom, Encode, EncodeAll;
    EncodedIsRead(text, 0, codes);
    AcceptedIsHeard(text, 8, false);
    assert Escapes(CleanedAll(codes)[0]);
  }

  // ------------------------------------------------------------ selected text

  /** The caller makes room for three bytes a cell of the selection, `cells` of them, and the
      units are no more than that: the encoding and its zero fit exactly when some cell had no
      unit of its own or some unit needs fewer than three bytes. */
  lemma BufferFits(units: seq<u16>, cells: nat)
    requires |units| <= cells
    ensures |EncodeAll(units)| < 3 * cells <==> |units| < cells || exists i :: 0 <= i < |units| && units[i] < 0x800
  {
    EncodedLength(units);
  }

  lemma {:induction false} EncodedLength(units: seq<u16>)
    ensures |EncodeAll(units)| <= 3 * |units|
    ensures |EncodeAll(units)| == 3 * |units| <==> forall i :: 0 <= i < |units| ==> units[i] >= 0x800
  {
    if units != [] {
      EncodedLength(units[1..]);
      assert forall i :: 0 < i < |units| ==> units[i] == units[1..][i - 1];
    }
  }

  /** A selected row of box-drawing lines does not leave room for the zero. */
  lemma LinesOverrun(cells: nat)
    ensures |EncodeAll(seq(cells, _ => 0x2500))| == 3 * cells
  {
    EncodedLength(seq(cells, _ => 0x2500));
  }

  /** utf16_to_utf8: every code unit in its shortest form, and a terminating zero, in a buffer
      that has room for them (`BufferFits` says when the caller's has). */
  method Utf16ToUtf8(units: seq<u16>, buffer: array<byte>) returns (end: nat)
    requires buffer.Length > |EncodeAll(units)|
    modifies buffer
    ensures end == |EncodeAll(units)| && buffer[..end] == EncodeAll(units) && buffer[end] == 0
  {
    end := 0;
    for i := 0 to |units|
      invariant end == |EncodeAll(units[..i])| && end < buffer.Length && buffer[..end] == EncodeAll(units[..i])
    {
      UnitNext(units, i);
      end := WriteUnit(units[i], buffer, end);
    }
    assert units[..|units|] == units;
    buffer[end] := 0;
  }

  lemma UnitNext(units: seq<u16>, i: nat)
    requires i < |units|
    ensures EncodeAll(units[..i + 1]) == EncodeAll(units[..i]) + Encode(units[i])
    ensures |EncodeAll(units[..i + 1])| <= |EncodeAll(units)|
  {
    EncodeJoins(units[..i], [units[i]]);
    assert units[..i + 1] == units[..i] + [units[i]];
    assert EncodeAll([units[i]]) == Encode(units[i]) + [];
    EncodeJoins(units[..i + 1], units[i + 1..]);
    assert units == units[..i + 1] + units[i + 1..];
  }

  method WriteUnit(unit: u16, buffer: array<byte>, index: nat) returns (end: nat)
    requires index + |Encode(unit)| <= buffer.Length
    modifies buffer
    ensures end == index + |Encode(unit)|
    ensures buffer[..end] == old(buffer[..index]) + Encode(unit)
  {
    if unit >= 0x800 {
      buffer[index] := 0xe0 + unit / 4096;
      buffer[index + 1] := 0x80 + unit / 64 % 64;
      buffer[index + 2] := 0x80 + unit % 64;
      end := index + 3;
    } else if unit >= 0x80 {
      buffer[index] := 0xc0 + unit / 64;
      buffer[index + 1] := 0x80 + unit % 64;
      end := index + 2;
    } else {
      buffer[index] := unit;
      end := index + 1;
    }
  }

  /** The terminal reads the encoding of selected text back, unit for unit: surrogates and the
      non-characters are replaced, all others restored. */
  lemma SelectionReadsBack(units: seq<u16>)
    ensures Run(State(0, 0, 0), EncodeAll(units), 0).1 == CleanedAll(units)
  {
    assert EncodeAll(units)[0..] == EncodeAll(units);
    EncodedReads(EncodeAll(units), 0, units);
    MachineReads(State(0, 0, 0), EncodeAll(units), 0);
  }
}
