/** UTF-8 three times: the menu's check of a text, the terminal's byte-at-a-time decoder and
    the encoder of selected text, all against the encoding of section 3 of RFC 3629. */
module Utf8 {

  import opened Basics

  // ------------------------------------------------------------ the encoding

  predicate Scalar(c: int) {
    0 <= c <= 0x10ffff && !(0xd800 <= c <= 0xdfff)
  }

  /** The shortest form of a code of at most 21 bits. */
  function Encode(c: nat): (r: seq<byte>)
    requires c < 0x20_0000
    ensures 1 <= |r| <= 4
  {
    if c < 0x80 then [c]
    else if c < 0x800 then [0xc0 + c / 64, 0x80 + c % 64]
    else if c < 0x1_0000 then [0xe0 + c / 4096, 0x80 + c / 64 % 64, 0x80 + c % 64]
    else [0xf0 + c / 26_2144, 0x80 + c / 4096 % 64, 0x80 + c / 64 % 64, 0x80 + c % 64]
  }

  predicate Encodable(codes: seq<nat>) {
    forall i :: 0 <= i < |codes| ==> codes[i] < 0x20_0000
  }

  function EncodeAll(codes: seq<nat>): seq<byte>
    requires Encodable(codes)
  {
    if codes == [] then [] else Encode(codes[0]) + EncodeAll(codes[1..])
  }

  lemma {:induction false} EncodeJoins(a: seq<nat>, b: seq<nat>)
    requires Encodable(a) && Encodable(b)
    ensures Encodable(a + b) && EncodeAll(a + b) == EncodeAll(a) + EncodeAll(b)
  {
    if a == [] {
      assert a + b == b;
    } else {
      EncodeJoins(a[1..], b);
      assert (a + b)[1..] == a[1..] + b && (a + b)[0] == a[0];
      Joins(Encode(a[0]), EncodeAll(a[1..]), EncodeAll(b));
    }
  }

  // ------------------------------------------------------------ the validator

  predicate Continuation(b: byte) { 0x80 <= b < 0xc0 }

  /** Length of the sequence a byte starts; 0 if it starts none. */
  function LengthOf(first: byte): nat {
    if first < 0x80 then 1
    else if 0xc0 <= first < 0xe0 then 2
    else if 0xe0 <= first < 0xf0 then 3
    else if 0xf0 <= first < 0xf8 then 4
    else 0
  }

  function LeadBits(first: byte): nat {
    if first < 0x80 then first
    else if first < 0xe0 then first % 0x20
    else if first < 0xf0 then first % 0x10
    else first % 8
  }

  /** The code so far, extended by the next n continuation bytes. */
  function Extended(text: seq<byte>, at: nat, n: nat, code: nat): Option<nat>
    requires at + n <= |text|
    decreases n
  {
    if n == 0 then Some(code)
    else if !Continuation(text[at]) then None
    else Extended(text, at + 1, n - 1, code * 64 + text[at] % 64)
  }

  predicate Refused(length: nat, code: nat) {
    || (length == 2 && code < 0x80) || (length == 3 && code < 0x800) || (length == 4 && code < 0x1_0000)
    || code > 0x10ffff || 0xd800 <= code <= 0xdfff
  }

  /** The code point at i, if there is a well-formed one. */
  function CodeAt(text: seq<byte>, i: nat): Option<nat>
    requires i < |text|
  {
    var length := LengthOf(text[i]);
    if length == 0 || i + length > |text| then None
    else
      var code := Extended(text, i + 1, length - 1, LeadBits(text[i]));
      if code.None? || Refused(length, code.value) then None else code
  }

  function CodesFrom(text: seq<byte>, i: nat): Option<seq<nat>>
    decreases |text| - i
  {
    if i >= |text| then Some([])
    else
      var code := CodeAt(text, i);
      if code.None? then None else Prefixed([code.value], CodesFrom(text, i + LengthOf(text[i])))
  }

  predicate Printable(codes: seq<nat>) {
    forall i :: 0 <= i < |codes| ==> codes[i] >= 0x20 && codes[i] != 0x7f
  }

  predicate Accepted(text: seq<byte>, maxCodepoints: nat, allowEmpty: bool) {
    var codes := CodesFrom(text, 0);
    && codes.Some? && Printable(codes.value) && |codes.value| <= maxCodepoints
    && (text == [] ==> allowEmpty)
  }

  /** valid_utf8_text. */
  method ValidUtf8Text(text: seq<byte>, maxCodepoints: nat, allowEmpty: bool) returns (ok: bool)
    ensures ok <==> Accepted(text, maxCodepoints, allowEmpty)
  {
    if |text| == 0 { return allowEmpty; }
    var count, i := 0, 0;
    ghost var done: seq<nat> := [];
    PrefixedTwice([], [], CodesFrom(text, 0));
    while i < |text|
      invariant i <= |text| && count == |done| <= maxCodepoints && Printable(done)
      invariant ReadSoFar(text, i, done)
      decreases |text| - i
    {
      var length := LengthOf(text[i]);
      var code := ReadCode(text, i);
      ReadStep(text, i, done, maxCodepoints, allowEmpty);
      if code.None? { return false; }
      if code.value < 0x20 || code.value == 0x7f { return false; }
      done := done + [code.value];
      count := count + 1;
      if count > maxCodepoints { return false; }
      i := i + length;
    }
    AllRead(text, i, done, maxCodepoints, allowEmpty);
    ok := true;
  }

  /** The codes before i are `done`. */
  predicate ReadSoFar(text: seq<byte>, i: nat, done: seq<nat>) {
    (CodesFrom(text, 0) == Prefixed(done, CodesFrom(text, i))) == true
  }

  lemma ReadStep(text: seq<byte>, i: nat, done: seq<nat>, maxCodepoints: nat, allowEmpty: bool)
    requires i < |text| && ReadSoFar(text, i, done)
    ensures CodeAt(text, i).None? ==> !Accepted(text, maxCodepoints, allowEmpty)
    ensures CodeAt(text, i).Some? ==>
      var c := CodeAt(text, i).value;
      && i + LengthOf(text[i]) <= |text| && LengthOf(text[i]) > 0
      && ReadSoFar(text, i + LengthOf(text[i]), done + [c])
      && (!Printable([c]) || |done| + 1 > maxCodepoints ==> !Accepted(text, maxCodepoints, allowEmpty))
      && (Printable(done) && Printable([c]) ==> Printable(done + [c]))
      && (Printable([c]) <==> c >= 0x20 && c != 0x7f)
  {
    if CodeAt(text, i).Some? {
      var c, rest := CodeAt(text, i).value, CodesFrom(text, i + LengthOf(text[i]));
      PrefixedTwice(done, [c], rest);
      assert [c][0] == c;
      assert (done + [c])[|done|] == c;
      if !Printable([c]) {
        NotPrintable(done + [c], rest);
      }
    }
  }

  lemma AllRead(text: seq<byte>, i: nat, done: seq<nat>, maxCodepoints: nat, allowEmpty: bool)
    requires i >= |text| > 0 && ReadSoFar(text, i, done)
    ensures Accepted(text, maxCodepoints, allowEmpty) <==> Printable(done) && |done| <= maxCodepoints
  {
    assert done + [] == done;
  }

  lemma NotPrintable(done: seq<nat>, rest: Option<seq<nat>>)
    requires !Printable(done)
    ensures Prefixed(done, rest).Some? ==> !Printable(Prefixed(done, rest).value)
  {
    var i :| 0 <= i < |done| && !(done[i] >= 0x20 && done[i] != 0x7f);
    if rest.Some? {
      assert (done + rest.value)[i] == done[i];
    }
  }

  method ReadCode(text: seq<byte>, i: nat) returns (code: Option<nat>)
    requires i < |text|
    ensures code == CodeAt(text, i)
  {
    var length := LengthOf(text[i]);
    if length == 0 || i + length > |text| { return None; }
    code := Extend(text, i + 1, length - 1, LeadBits(text[i]));
    if code.Some? && Refused(length, code.value) { return None; }
  }

  method Extend(text: seq<byte>, at: nat, n: nat, lead: nat) returns (code: Option<nat>)
    requires at + n <= |text|
    ensures code == Extended(text, at, n, lead)
  {
    var value: nat := lead;
    for j := 0 to n
      invariant Extended(text, at + j, n - j, value) == Extended(text, at, n, lead)
    {
      if !Continuation(text[at + j]) { return None; }
      value := value * 64 + text[at + j] % 64;
    }
    code := Some(value);
  }

  // -------------------------------------- what the validator accepts, exactly

  /** Six bits at a time make up the whole. */
  lemma SixBits(c: nat)
    ensures c / 64 * 64 + c % 64 == c
    ensures c / 4096 * 64 + c / 64 % 64 == c / 64
    ensures c / 26_2144 * 64 + c / 4096 % 64 == c / 4096
  {
  }

  lemma LowBits(x: nat)
    requires x < 64
    ensures (0x80 + x) % 64 == x
  {
  }

  /** The bits of a code, put together and taken apart again. */
  lemma Joined(high: nat, low: nat)
    requires low < 64
    ensures (high * 64 + low) / 64 == high && (high * 64 + low) % 64 == low
  {
  }

  lemma {:induction false} NotExtended(text: seq<byte>, at: nat, n: nat, code: nat, k: nat)
    requires at + n <= |text| && k < n && !Continuation(text[at + k])
    ensures Extended(text, at, n, code) == None
    decreases k
  {
    if k > 0 && Continuation(text[at]) {
      NotExtended(text, at + 1, n - 1, code * 64 + text[at] % 64, k - 1);
    }
  }

  function Low(text: seq<byte>, i: nat): nat
    requires i < |text|
  {
    text[i] % 64
  }

  /** What the continuation bytes add to a lead byte's bits. */
  lemma ExtendedIs(text: seq<byte>, at: nat, n: nat, lead: nat)
    requires at + n <= |text| && n <= 3 && forall k :: at <= k < at + n ==> Continuation(text[k])
    ensures n == 0 ==> Extended(text, at, n, lead) == Some(lead)
    ensures n == 1 ==> Extended(text, at, n, lead) == Some(lead * 64 + Low(text, at))
    ensures n == 2 ==> Extended(text, at, n, lead) == Some((lead * 64 + Low(text, at)) * 64 + Low(text, at + 1))
    ensures n == 3 ==> Extended(text, at, n, lead) ==
                         Some(((lead * 64 + Low(text, at)) * 64 + Low(text, at + 1)) * 64 + Low(text, at + 2))
    decreases n
  {
  }

  /** The bytes of an encoding and what the validator makes of each. */
  lemma EncodingShape(c: nat)
    requires c < 0x20_0000
    ensures var e := Encode(c); var n := |e|;
      && LengthOf(e[0]) == n
      && (forall k :: 1 <= k < n ==> Continuation(e[k]))
      && (n == 1 ==> LeadBits(e[0]) == c)
      && (n == 2 ==> LeadBits(e[0]) == c / 64 && Low(e, 1) == c % 64)
      && (n == 3 ==> LeadBits(e[0]) == c / 4096 && Low(e, 1) == c / 64 % 64 && Low(e, 2) == c % 64)
      && (n == 4 ==> LeadBits(e[0]) == c / 26_2144 && Low(e, 1) == c / 4096 % 64 && Low(e, 2) == c / 64 % 64
                     && Low(e, 3) == c % 64)
  {
    if 0x80 <= c < 0x800 {
      LowBits(c % 64);
    } else if 0x800 <= c < 0x1_0000 {
      LowBits(c % 64);
      LowBits(c / 64 % 64);
    } else if 0x1_0000 <= c {
      LowBits(c % 64);
      LowBits(c / 64 % 64);
      LowBits(c / 4096 % 64);
    }
  }

  lemma NotRefused(c: nat)
    requires Scalar(c)
    ensures c < 0x20_0000 && !Refused(|Encode(c)|, c)
  {
  }

  /** A scalar's encoding, wherever it stands, is read as that scalar. */
  lemma EncodingIsRead(text: seq<byte>, i: nat, c: nat)
    requires Scalar(c) && i + |Encode(c)| <= |text| && text[i..i + |Encode(c)|] == Encode(c)
    ensures CodeAt(text, i) == Some(c) && LengthOf(text[i]) == |Encode(c)|
  {
    var e := Encode(c);
    forall k | 0 <= k < |e| ensures text[i + k] == e[k] {
      assert text[i..i + |e|][k] == text[i + k];
    }
    NotRefused(c);
    hide Encode, Extended, Refused, LeadBits, LengthOf, Scalar;
    EncodingShape(c);
    forall k | i + 1 <= k < i + |e| ensures Continuation(text[k]) {
      assert text[k] == e[k - i];
    }
    ExtendedIs(text, i + 1, |e| - 1, LeadBits(text[i]));
    SixBits(c);
    JoinedAgain(e, c);
  }

  /** The bits of an encoding make up the code. */
  lemma JoinedAgain(e: seq<byte>, c: nat)
    requires c < 0x20_0000 && e == Encode(c)
    ensures |e| == 2 ==> LeadBits(e[0]) * 64 + Low(e, 1) == c
    ensures |e| == 3 ==> (LeadBits(e[0]) * 64 + Low(e, 1)) * 64 + Low(e, 2) == c
    ensures |e| == 4 ==> ((LeadBits(e[0]) * 64 + Low(e, 1)) * 64 + Low(e, 2)) * 64 + Low(e, 3) == c
  {
    EncodingShape(c);
    SixBits(c);
  }

  lemma Nested(c: nat)
    ensures c / 4096 == c / 64 / 64 && c / 26_2144 == c / 64 / 64 / 64
  {
  }

  lemma Encoded2(lead: nat, a: nat)
    requires lead < 32 && a < 64 && lead * 64 + a >= 0x80
    ensures Encode(lead * 64 + a) == [0xc0 + lead, 0x80 + a]
  {
    Joined(lead, a);
  }

  lemma Encoded3(lead: nat, a: nat, b: nat)
    requires lead < 16 && a < 64 && b < 64 && (lead * 64 + a) * 64 + b >= 0x800
    ensures Encode((lead * 64 + a) * 64 + b) == [0xe0 + lead, 0x80 + a, 0x80 + b]
  {
    Joined(lead, a);
    Joined(lead * 64 + a, b);
    Nested((lead * 64 + a) * 64 + b);
  }

  lemma Encoded4(lead: nat, a: nat, b: nat, c: nat)
    requires lead < 8 && a < 64 && b < 64 && c < 64 && ((lead * 64 + a) * 64 + b) * 64 + c >= 0x1_0000
    ensures Encode(((lead * 64 + a) * 64 + b) * 64 + c) == [0xf0 + lead, 0x80 + a, 0x80 + b, 0x80 + c]
  {
    Joined(lead, a);
    Joined(lead * 64 + a, b);
    Joined((lead * 64 + a) * 64 + b, c);
    Nested(((lead * 64 + a) * 64 + b) * 64 + c);
  }

  /** A byte is its kind's high bits and the low ones. */
  lemma ByteParts(b: byte)
    ensures Continuation(b) ==> b == 0x80 + b % 64
    ensures LengthOf(b) == 2 ==> LeadBits(b) < 32 && b == 0xc0 + LeadBits(b)
    ensures LengthOf(b) == 3 ==> LeadBits(b) < 16 && b == 0xe0 + LeadBits(b)
    ensures LengthOf(b) == 4 ==> LeadBits(b) < 8 && b == 0xf0 + LeadBits(b)
  {
  }

  lemma Spelled1(text: seq<byte>, i: nat)
    requires i < |text| && text[i] < 0x80
    ensures text[i..i + 1] == Encode(text[i])
  {
  }

  lemma Spelled2(text: seq<byte>, i: nat, lead: nat, a: nat)
    requires i + 2 <= |text| && lead < 32 && a < 64 && lead * 64 + a >= 0x80
    requires text[i] == 0xc0 + lead && text[i + 1] == 0x80 + a
    ensures text[i..i + 2] == Encode(lead * 64 + a)
  {
    hide Encode;
    assert text[i..i + 2] == [text[i], text[i + 1]];
    Encoded2(lead, a);
  }

  lemma Spelled3(text: seq<byte>, i: nat, lead: nat, a: nat, b: nat)
    requires i + 3 <= |text| && lead < 16 && a < 64 && b < 64 && (lead * 64 + a) * 64 + b >= 0x800
    requires text[i] == 0xe0 + lead && text[i + 1] == 0x80 + a && text[i + 2] == 0x80 + b
    ensures text[i..i + 3] == Encode((lead * 64 + a) * 64 + b)
  {
    hide Encode;
    assert text[i..i + 3] == [text[i], text[i + 1], text[i + 2]];
    Encoded3(lead, a, b);
  }

  lemma Spelled4(text: seq<byte>, i: nat, lead: nat, a: nat, b: nat, c: nat)
    requires i + 4 <= |text| && lead < 8 && a < 64 && b < 64 && c < 64
    requires ((lead * 64 + a) * 64 + b) * 64 + c >= 0x1_0000
    requires text[i] == 0xf0 + lead && text[i + 1] == 0x80 + a && text[i + 2] == 0x80 + b && text[i + 3] == 0x80 + c
    ensures text[i..i + 4] == Encode(((lead * 64 + a) * 64 + b) * 64 + c)
  {
    hide Encode;
    assert text[i..i + 4] == [text[i], text[i + 1], text[i + 2], text[i + 3]];
    Encoded4(lead, a, b, c);
  }

  /** What is read was in the bytes bit by bit. */
  lemma CodeParts(text: seq<byte>, i: nat)
    requires i < |text| && CodeAt(text, i).Some?
    ensures var c, n, lead := CodeAt(text, i).value, LengthOf(text[i]), LeadBits(text[i]);
      && 1 <= n <= 4 && i + n <= |text| && !Refused(n, c)
      && (forall k :: i + 1 <= k < i + n ==> text[k] == 0x80 + Low(text, k) && Low(text, k) < 64)
      && (n == 1 ==> text[i] == c < 0x80)
      && (n == 2 ==> lead < 32 && text[i] == 0xc0 + lead && c == lead * 64 + Low(text, i + 1))
      && (n == 3 ==> lead < 16 && text[i] == 0xe0 + lead
                     && c == (lead * 64 + Low(text, i + 1)) * 64 + Low(text, i + 2))
      && (n == 4 ==> lead < 8 && text[i] == 0xf0 + lead
                     && c == ((lead * 64 + Low(text, i + 1)) * 64 + Low(text, i + 2)) * 64 + Low(text, i + 3))
  {
    var n, lead := LengthOf(text[i]), LeadBits(text[i]);
    ByteParts(text[i]);
    forall k | i + 1 <= k < i + n ensures Continuation(text[k]) && text[k] == 0x80 + Low(text, k) {
      if !Continuation(text[k]) {
        NotExtended(text, i + 1, n - 1, lead, k - i - 1);
      }
      ByteParts(text[k]);
    }
    hide Extended, Continuation, Refused;
    ExtendedIs(text, i + 1, n - 1, lead);
  }

  /** Only the encoding of a scalar is read as that scalar. */
  lemma ReadIsEncoding(text: seq<byte>, i: nat)
    requires i < |text| && CodeAt(text, i).Some?
    ensures var c := CodeAt(text, i).value; var n := LengthOf(text[i]);
      Scalar(c) && 1 <= n && i + n <= |text| && text[i..i + n] == Encode(c)
  {
    CodeParts(text, i);
    hide CodeAt, Extended, LeadBits, LengthOf, Low, Encode;
    var n, lead := LengthOf(text[i]), LeadBits(text[i]);
    if n == 1 {
      Spelled1(text, i);
    } else if n == 2 {
      Spelled2(text, i, lead, Low(text, i + 1));
    } else if n == 3 {
      Spelled3(text, i, lead, Low(text, i + 1), Low(text, i + 2));
    } else {
      Spelled4(text, i, lead, Low(text, i + 1), Low(text, i + 2), Low(text, i + 3));
    }
  }

  predicate Scalars(codes: seq<nat>) {
    forall i :: 0 <= i < |codes| ==> Scalar(codes[i])
  }

  lemma Cut(text: seq<byte>, i: nat, a: seq<byte>, b: seq<byte>)
    requires i <= |text| && text[i..] == a + b
    ensures i + |a| <= |text| && text[i..i + |a|] == a && text[i + |a|..] == b
  {
  }

  lemma ReadNext(text: seq<byte>, i: nat, c: nat, length: nat, rest: seq<nat>, codes: seq<nat>)
    requires i < |text| && CodeAt(text, i) == Some(c) && LengthOf(text[i]) == length
    requires CodesFrom(text, i + length) == Some(rest) && [c] + rest == codes
    ensures CodesFrom(text, i) == Some(codes)
  {
  }

  lemma {:induction false} EncodedIsRead(text: seq<byte>, i: nat, codes: seq<nat>)
    requires i <= |text| && Scalars(codes) && text[i..] == EncodeAll(codes)
    ensures CodesFrom(text, i) == Some(codes)
    decreases codes
  {
    if codes != [] {
      var e := Encode(codes[0]);
      assert text[i..] == e + EncodeAll(codes[1..]);
      hide Encode, EncodeAll, CodesFrom, CodeAt, Prefixed;
      Cut(text, i, e, EncodeAll(codes[1..]));
      EncodingIsRead(text, i, codes[0]);
      assert [codes[0]] + codes[1..] == codes;
      EncodedIsRead(text, i + |e|, codes[1..]);
      ReadNext(text, i, codes[0], |e|, codes[1..], codes);
    }
  }

  lemma OneMoreCode(c: nat, codes: seq<nat>)
    requires Scalar(c) && Scalars(codes)
    ensures Scalars([c] + codes) && EncodeAll([c] + codes) == Encode(c) + EncodeAll(codes)
  {
    assert ([c] + codes)[1..] == codes;
  }

  lemma {:induction false} ReadIsEncoded(text: seq<byte>, i: nat)
    requires i <= |text| && CodesFrom(text, i).Some?
    ensures Scalars(CodesFrom(text, i).value)
    ensures text[i..] == EncodeAll(CodesFrom(text, i).value)
    decreases |text| - i
  {
    if i < |text| {
      ReadIsEncoding(text, i);
      var next := i + LengthOf(text[i]);
      ReadIsEncoded(text, next);
      hide CodeAt, Encode, LengthOf;
      OneMoreCode(CodeAt(text, i).value, CodesFrom(text, next).value);
      CutAgain(text, i, next);
    }
  }

  /** The accepted texts are exactly the encodings of at most so many printable scalars. */
  lemma AcceptsExactly(text: seq<byte>, maxCodepoints: nat, allowEmpty: bool)
    ensures Accepted(text, maxCodepoints, allowEmpty) <==>
      exists codes: seq<nat> ::
        && Scalars(codes) && Printable(codes) && |codes| <= maxCodepoints
        && text == EncodeAll(codes) && (codes == [] ==> allowEmpty)
  {
    assert text[0..] == text;
    if Accepted(text, maxCodepoints, allowEmpty) {
      ReadIsEncoded(text, 0);
    }
    forall codes: seq<nat> | Scalars(codes) && text == EncodeAll(codes)
      ensures CodesFrom(text, 0) == Some(codes)
    {
      EncodedIsRead(text, 0, codes);
    }
  }
}
