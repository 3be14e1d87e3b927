/** The palette override file: an s-expression with every colour role once. Over any list of
    distinct role names, what the printer writes the parser reads, and neither the white
    space between tokens nor the order of the roles matters to it. */
module Palette {

  import opened Basics

  const MAXIMUM_BYTES := 4096
  const MAXIMUM_TOKEN := 64

  // ----------------------------------------------------------------- tokens

  predicate Space(c: char) { c == ' ' || c == '\t' || c == '\r' || c == '\n' }

  predicate Paren(c: char) { c == '(' || c == ')' }

  predicate Letter(c: char) { !Space(c) && !Paren(c) }

  predicate Word(s: string) { s != "" && forall i :: 0 <= i < |s| ==> Letter(s[i]) }

  predicate Gap(s: string) { forall i :: 0 <= i < |s| ==> Space(s[i]) }

  predicate Token(s: string) { Word(s) || s == "(" || s == ")" }

  /** End of the letters from i on. */
  function WordEnd(s: string, i: nat): (j: nat)
    requires i <= |s|
    ensures i <= j <= |s| && (forall k :: i <= k < j ==> Letter(s[k])) && (j < |s| ==> !Letter(s[j]))
    decreases |s| - i
  {
    if i < |s| && Letter(s[i]) then WordEnd(s, i + 1) else i
  }

  function Tokens(s: string, i: nat): seq<string>
    decreases |s| - i
  {
    if i >= |s| then []
    else if Space(s[i]) then Tokens(s, i + 1)
    else if Paren(s[i]) then [[s[i]]] + Tokens(s, i + 1)
    else [s[i..WordEnd(s, i)]] + Tokens(s, WordEnd(s, i))
  }

  /** The limits checked when a word is added: its length, and the tokens so far. */
  predicate WithinLimits(tokens: seq<string>, limit: nat) {
    forall k :: 0 <= k < |tokens| && Word(tokens[k]) ==> |tokens[k]| <= MAXIMUM_TOKEN && k < limit
  }

  function Tokenized(contents: string, roles: nat): Option<seq<string>> {
    if 0 < |contents| <= MAXIMUM_BYTES && WithinLimits(Tokens(contents, 0), 2 * roles + 10)
    then Some(Tokens(contents, 0)) else None
  }

  lemma PrefixLimits(tokens: seq<string>, more: seq<string>, limit: nat)
    requires WithinLimits(tokens + more, limit)
    ensures WithinLimits(tokens, limit)
  {
    forall k | 0 <= k < |tokens| && Word(tokens[k])
      ensures |tokens[k]| <= MAXIMUM_TOKEN && k < limit
    {
      assert (tokens + more)[k] == tokens[k];
    }
  }

  /** The tokens before `index`, all within the limits. */
  predicate Scanned(contents: string, index: nat, tokens: seq<string>, limit: nat) {
    (tokens + Tokens(contents, index) == Tokens(contents, 0) && WithinLimits(tokens, limit)) == true
  }

  lemma ScanParen(contents: string, index: nat, tokens: seq<string>, limit: nat)
    requires index < |contents| && Paren(contents[index]) && Scanned(contents, index, tokens, limit)
    ensures Scanned(contents, index + 1, tokens + [[contents[index]]], limit)
  {
    var paren := [contents[index]];
    assert !Letter(paren[0]);
    assert tokens + ([paren] + Tokens(contents, index + 1)) == tokens + [paren] + Tokens(contents, index + 1);
  }

  lemma ScanWord(contents: string, index: nat, tokens: seq<string>, limit: nat)
    requires index < |contents| && Letter(contents[index]) && Scanned(contents, index, tokens, limit)
    ensures var end := WordEnd(contents, index); var token := contents[index..end];
      && index < end
      && (|token| <= MAXIMUM_TOKEN && |tokens| < limit ==> Scanned(contents, end, tokens + [token], limit))
      && (|token| > MAXIMUM_TOKEN || |tokens| >= limit ==> !WithinLimits(Tokens(contents, 0), limit))
  {
    var end := WordEnd(contents, index);
    var token := contents[index..end];
    assert tokens + ([token] + Tokens(contents, end)) == tokens + [token] + Tokens(contents, end);
    assert (tokens + [token])[|tokens|] == token && Word(token);
    if WithinLimits(Tokens(contents, 0), limit) {
      PrefixLimits(tokens + [token], Tokens(contents, end), limit);
    }
  }

  /** paletteTokens. */
  method PaletteTokens(contents: string, roles: nat) returns (result: Option<seq<string>>)
    ensures result == Tokenized(contents, roles)
  {
    if |contents| == 0 || |contents| > MAXIMUM_BYTES { return None; }
    var tokens: seq<string> := [];
    var index := 0;
    ghost var limit := 2 * roles + 10;
    assert tokens + Tokens(contents, 0) == Tokens(contents, 0);
    while index < |contents|
      invariant index <= |contents| && Scanned(contents, index, tokens, limit)
      decreases |contents| - index
    {
      var character := contents[index];
      if Space(character) {
        index := index + 1;
      } else if Paren(character) {
        ScanParen(contents, index, tokens, limit);
        tokens := tokens + [[character]];
        index := index + 1;
      } else {
        ScanWord(contents, index, tokens, limit);
        var end := FindWordEnd(contents, index);
        var token := contents[index..end];
        index := end;
        if |token| > MAXIMUM_TOKEN { return None; }
        tokens := tokens + [token];
        if |tokens| > 2 * roles + 10 { return None; }
      }
    }
    assert tokens + [] == tokens;
    result := Some(tokens);
  }

  method FindWordEnd(contents: string, start: nat) returns (index: nat)
    requires start <= |contents|
    ensures index == WordEnd(contents, start)
  {
    index := start;
    while index < |contents| && Letter(contents[index])
      invariant index <= |contents| && WordEnd(contents, index) == WordEnd(contents, start)
    {
      index := index + 1;
    }
  }

  // ----------------------------------------------------------------- layout

  /** Tokens with gaps around them: words that stand side by side have white space between. */
  predicate Laid(tokens: seq<string>, gaps: seq<string>) {
    && |gaps| == |tokens| + 1
    && (forall k :: 0 <= k < |tokens| ==> Token(tokens[k]))
    && (forall k :: 0 <= k < |gaps| ==> Gap(gaps[k]))
    && (forall k :: 0 < k < |tokens| && Word(tokens[k - 1]) && Word(tokens[k]) ==> gaps[k] != "")
  }

  /** The text from gap k on. */
  function TextFrom(tokens: seq<string>, gaps: seq<string>, k: nat): string
    requires |gaps| == |tokens| + 1 && k <= |tokens|
    decreases |tokens| - k
  {
    if k == |tokens| then gaps[k] else gaps[k] + tokens[k] + TextFrom(tokens, gaps, k + 1)
  }

  lemma {:induction false} GapSkipped(s: string, i: nat, n: nat)
    requires i + n <= |s| && forall k :: i <= k < i + n ==> Space(s[k])
    ensures Tokens(s, i) == Tokens(s, i + n)
    decreases n
  {
    if n > 0 {
      GapSkipped(s, i + 1, n - 1);
    }
  }

  lemma {:induction false} WordEnds(s: string, i: nat, n: nat)
    requires i + n <= |s| && (forall k :: i <= k < i + n ==> Letter(s[k]))
    requires i + n == |s| || !Letter(s[i + n])
    ensures WordEnd(s, i) == i + n
    decreases n
  {
  }

  lemma Pieces(s: string, i: nat, a: string, b: string, c: string)
    requires i <= |s| && s[i..] == a + b + c
    ensures i + |a| + |b| <= |s| && s[i + |a|..i + |a| + |b|] == b && s[i + |a| + |b|..] == c
    ensures forall k :: i <= k < i + |a| ==> s[k] == a[k - i]
    ensures forall k :: i + |a| <= k < i + |a| + |b| ==> s[k] == b[k - i - |a|]
  {
  }

  lemma TokenRead(s: string, at: nat, token: string)
    requires Token(token) && at + |token| <= |s| && s[at..at + |token|] == token
    requires Word(token) && at + |token| < |s| ==> !Letter(s[at + |token|])
    ensures Tokens(s, at) == [token] + Tokens(s, at + |token|)
  {
    if Word(token) {
      WordRead(s, at, token);
    } else {
      assert s[at] == s[at..at + |token|][0] == token[0];
    }
  }

  lemma WordRead(s: string, at: nat, token: string)
    requires Word(token) && at + |token| <= |s| && s[at..at + |token|] == token
    requires at + |token| < |s| ==> !Letter(s[at + |token|])
    ensures Tokens(s, at) == [token] + Tokens(s, at + |token|)
  {
    assert forall k :: at <= k < at + |token| ==> s[k] == s[at..at + |token|][k - at];
    assert Letter(s[at]);
    hide WordEnd;
    WordEnds(s, at, |token|);
  }

  /** A gap, a token and what follows. */
  lemma LaidStep(s: string, i: nat, gap: string, token: string, rest: string) returns (end: nat)
    requires i <= |s| && s[i..] == gap + token + rest && Gap(gap) && Token(token)
    requires Word(token) && rest != "" ==> !Letter(rest[0])
    ensures end <= |s| && s[end..] == rest && Tokens(s, i) == [token] + Tokens(s, end)
  {
    hide Tokens, WordEnd;
    Pieces(s, i, gap, token, rest);
    GapSkipped(s, i, |gap|);
    end := i + |gap| + |token|;
    assert end < |s| ==> s[end] == s[end..][0];
    TokenRead(s, i + |gap|, token);
  }

  /** However they are laid out, the tokens are what is read. */
  lemma {:induction false} LaidTokens(s: string, i: nat, tokens: seq<string>, gaps: seq<string>, k: nat)
    requires Laid(tokens, gaps) && k <= |tokens| && i <= |s| && s[i..] == TextFrom(tokens, gaps, k)
    ensures Tokens(s, i) == tokens[k..]
    decreases |tokens| - k
  {
    if k == |tokens| {
      assert forall j :: i <= j < |s| ==> s[j] == s[i..][j - i];
      GapSkipped(s, i, |s| - i);
    } else {
      AfterWord(tokens, gaps, k);
      var end := LaidStep(s, i, gaps[k], tokens[k], TextFrom(tokens, gaps, k + 1));
      LaidTokens(s, end, tokens, gaps, k + 1);
      assert tokens[k..] == [tokens[k]] + tokens[k + 1..];
    }
  }

  /** A word is followed by the end, white space or a parenthesis. */
  lemma AfterWord(tokens: seq<string>, gaps: seq<string>, k: nat)
    requires Laid(tokens, gaps) && k < |tokens|
    ensures var rest := TextFrom(tokens, gaps, k + 1); Word(tokens[k]) && rest != "" ==> !Letter(rest[0])
  {
  }

  // ----------------------------------------------------------------- colours

  predicate HexDigit(c: char) { '0' <= c <= '9' || 'a' <= c <= 'f' || 'A' <= c <= 'F' }

  function UpperChar(c: char): char { if 'a' <= c <= 'z' then c - 'a' + 'A' else c }

  function Upper(s: string): (r: string)
    ensures |r| == |s|
  {
    seq(|s|, i requires 0 <= i < |s| => UpperChar(s[i]))
  }

  /** normalizeRGB. */
  function NormalizeRGB(value: string): Option<string> {
    if |value| == 7 && value[0] == '#' && forall i :: 1 <= i < 7 ==> HexDigit(value[i])
    then Some(Upper(value)) else None
  }

  lemma NormalizedStays(value: string)
    requires NormalizeRGB(value).Some?
    ensures NormalizeRGB(NormalizeRGB(value).value) == NormalizeRGB(value)
  {
    assert Upper(Upper(value)) == Upper(value);
  }

  /** The number a hexadecimal digit stands for. */
  function HexValue(c: char): int
    requires HexDigit(c)
  {
    if c <= '9' then c as int - '0' as int
    else if c <= 'F' then 10 + (c as int - 'A' as int)
    else 10 + (c as int - 'a' as int)
  }

  /** Colours are six hexadecimal digits behind a number sign; normalising one writes the same digits without
      small letters. */
  lemma NormalizedIsSame(value: string)
    ensures NormalizeRGB(value).Some? <==>
      |value| == 7 && value[0] == '#' && forall i :: 1 <= i < 7 ==> HexDigit(value[i])
    ensures NormalizeRGB(value).Some? ==>
      var r := NormalizeRGB(value).value;
      && |r| == 7 && r[0] == '#'
      && forall i :: 1 <= i < 7 ==>
           HexDigit(r[i]) && HexValue(r[i]) == HexValue(value[i]) && !('a' <= r[i] <= 'z')
  {
    hide HexDigit, HexValue;
    if NormalizeRGB(value).Some? {
      var r := NormalizeRGB(value).value;
      HashStays();
      forall i | 1 <= i < 7
        ensures HexDigit(r[i]) && HexValue(r[i]) == HexValue(value[i]) && !('a' <= r[i] <= 'z')
      {
        UpperKeepsValue(value[i]);
      }
      hide UpperChar;
    }
  }

  lemma HashStays()
    ensures UpperChar('#') == '#'
  {
  }

  lemma UpperKeepsValue(c: char)
    requires HexDigit(c)
    ensures HexDigit(UpperChar(c)) && HexValue(UpperChar(c)) == HexValue(c) && !('a' <= UpperChar(c) <= 'z')
  {
  }

  // ------------------------------------------------------------------ parser

  predicate ValidIcon(name: string) {
    0 < |name| <= 64 && forall i :: 0 <= i < |name| ==> 'a' <= name[i] <= 'z' || '0' <= name[i] <= '9' || name[i] == '-'
  }

  predicate QuotedIcon(encoded: string) {
    && |encoded| >= 3 && encoded[0] == '"' && encoded[|encoded| - 1] == '"'
    && ValidIcon(encoded[1..|encoded| - 1])
  }

  /** The role a key names. */
  function RoleOf(key: string, names: seq<string>): Option<string> {
    if |key| > 0 && key[0] == ':' && key[1..] in names then Some(key[1..]) else None
  }

  function ColorOf(encoded: string): Option<string> {
    if |encoded| == 9 && encoded[0] == '"' && encoded[8] == '"' then NormalizeRGB(encoded[1..8]) else None
  }

  /** Key and colour pairs up to the two closing parentheses. */
  function Pairs(tokens: seq<string>, index: nat, values: map<string, string>, names: seq<string>)
    : Option<map<string, string>>
    decreases |tokens| - index
  {
    if index + 2 >= |tokens| then Some(values)
    else
      var name, color := RoleOf(tokens[index], names), ColorOf(tokens[index + 1]);
      if name.None? || color.None? || name.value in values then None
      else Pairs(tokens, index + 2, values[name.value := color.value], names)
  }

  /** Where the palette starts, if the frame around it is right. */
  function PaletteStart(tokens: seq<string>, roles: nat): Option<nat> {
    if |tokens| < 7 || tokens[0] != "(" || tokens[1] != ":version"
       || tokens[|tokens| - 2] != ")" || tokens[|tokens| - 1] != ")" then None
    else if tokens[2] == "3" then
      if |tokens| == 2 * roles + 9 && tokens[3] == ":settings-icon" && QuotedIcon(tokens[4]) then Some(5) else None
    else if tokens[2] == "2" && |tokens| == 2 * roles + 7 then Some(3)
    else None
  }

  /** validatePalette. */
  predicate ValidPalette(values: map<string, string>, names: seq<string>) {
    |values| == |names| && forall name :: name in names ==>
      name in values && NormalizeRGB(values[name]) == Some(values[name])
  }

  function ParseTokens(tokens: seq<string>, names: seq<string>): Option<map<string, string>> {
    var start := PaletteStart(tokens, |names|);
    if start.None? || start.value + 1 >= |tokens| || tokens[start.value] != ":palette" || tokens[start.value + 1] != "("
    then None
    else
      var values := Pairs(tokens, start.value + 2, map[], names);
      if values.Some? && ValidPalette(values.value, names) then values else None
  }

  function ParseOverride(contents: string, names: seq<string>): Option<map<string, string>> {
    var tokens := Tokenized(contents, |names|);
    if tokens.None? then None else ParseTokens(tokens.value, names)
  }

  /** parsePaletteOverride. */
  method ParsePaletteOverride(contents: string, names: seq<string>) returns (result: Option<map<string, string>>)
    ensures result == ParseOverride(contents, names)
  {
    var scanned := PaletteTokens(contents, |names|);
    if scanned.None? { return None; }
    var tokens := scanned.value;
    var start := PaletteStart(tokens, |names|);
    if start.None? { return None; }
    var index := start.value;
    if tokens[index] != ":palette" || tokens[index + 1] != "(" { return None; }
    index := index + 2;
    var values: map<string, string> := map[];
    while index < |tokens| - 2
      invariant index <= |tokens|
      invariant Pairs(tokens, index, values, names) == Pairs(tokens, start.value + 2, map[], names)
      decreases |tokens| - index
    {
      var name := RoleOf(tokens[index], names);
      if name.None? || name.value in values { return None; }
      var color := ColorOf(tokens[index + 1]);
      if color.None? { return None; }
      values := values[name.value := color.value];
      index := index + 2;
    }
    result := if ValidPalette(values, names) then Some(values) else None;
  }

  // -------------------------------------------------------------- round trip

  predicate Distinct(names: seq<string>) {
    forall i, j :: 0 <= i < j < |names| ==> names[i] != names[j]
  }

  /** Names that make tokens. */
  predicate RoleNames(names: seq<string>) {
    (Distinct(names) && forall name :: name in names ==> |name| < MAXIMUM_TOKEN && Word(":" + name)) == true
  }

  ghost predicate SameRoles(order: seq<string>, names: seq<string>) {
    (|order| == |names| && Distinct(order) && forall name :: name in order <==> name in names) == true
  }

  /** Every role has a colour, in either case of the letters. */
  predicate Colored(raw: map<string, string>, order: seq<string>) {
    (forall name :: name in order ==> name in raw && NormalizeRGB(raw[name]).Some?) == true
  }

  function Quoted(value: string): string { "\"" + value + "\"" }

  function TokenAt(order: seq<string>, raw: map<string, string>, k: nat): string
    requires Colored(raw, order) && k < 2 * |order| + 7
  {
    if k == 0 || k == 4 then "("
    else if k == 1 then ":version"
    else if k == 2 then "2"
    else if k == 3 then ":palette"
    else if k >= 2 * |order| + 5 then ")"
    else if k % 2 == 1 then ":" + order[(k - 5) / 2]
    else Quoted(raw[order[(k - 5) / 2]])
  }

  function TokenList(order: seq<string>, raw: map<string, string>): (r: seq<string>)
    requires Colored(raw, order)
    ensures |r| == 2 * |order| + 7
  {
    seq(2 * |order| + 7, k requires 0 <= k < 2 * |order| + 7 => TokenAt(order, raw, k))
  }

  /** The first k roles with their colours in canonical form. */
  function Canonical(order: seq<string>, raw: map<string, string>, k: nat): map<string, string>
    requires Colored(raw, order) && k <= |order|
  {
    if k == 0 then map[]
    else Canonical(order, raw, k - 1)[order[k - 1] := NormalizeRGB(raw[order[k - 1]]).value]
  }

  lemma {:induction false} KeyOf(order: seq<string>, raw: map<string, string>, k: nat, name: string)
    requires Colored(raw, order) && k <= |order| && name in Canonical(order, raw, k)
    ensures exists i :: 0 <= i < k && order[i] == name
  {
    if name != order[k - 1] {
      KeyOf(order, raw, k - 1, name);
    }
  }

  lemma {:induction false} ValueOf(order: seq<string>, raw: map<string, string>, k: nat, i: nat)
    requires Colored(raw, order) && Distinct(order) && i < k <= |order|
    ensures order[i] in Canonical(order, raw, k)
    ensures Canonical(order, raw, k)[order[i]] == NormalizeRGB(raw[order[i]]).value
  {
    if i < k - 1 {
      ValueOf(order, raw, k - 1, i);
    }
  }

  lemma {:induction false} SizeOf(order: seq<string>, raw: map<string, string>, k: nat)
    requires Colored(raw, order) && Distinct(order) && k <= |order|
    ensures |Canonical(order, raw, k)| == k
  {
    if k > 0 {
      SizeOf(order, raw, k - 1);
      RoleIsNew(order, raw, k - 1);
    }
  }

  lemma RoleIsNew(order: seq<string>, raw: map<string, string>, k: nat)
    requires Colored(raw, order) && Distinct(order) && k < |order|
    ensures order[k] !in Canonical(order, raw, k)
  {
    if order[k] in Canonical(order, raw, k) {
      KeyOf(order, raw, k, order[k]);
    }
  }

  lemma Halves(k: nat)
    ensures (5 + 2 * k) % 2 == 1 && (5 + 2 * k - 5) / 2 == k
    ensures (6 + 2 * k) % 2 == 0 && (6 + 2 * k - 5) / 2 == k
  {
  }

  lemma PairTokensAt(order: seq<string>, raw: map<string, string>, k: nat)
    requires Colored(raw, order) && k < |order|
    ensures TokenAt(order, raw, 5 + 2 * k) == ":" + order[k]
    ensures TokenAt(order, raw, 6 + 2 * k) == Quoted(raw[order[k]])
  {
    Halves(k);
  }

  /** Pair k of the tokens is role k with its colour. */
  predicate PairIs(tokens: seq<string>, order: seq<string>, raw: map<string, string>, names: seq<string>, k: nat)
    requires |tokens| == 2 * |order| + 7 && Colored(raw, order) && k < |order|
  {
    && RoleOf(tokens[5 + 2 * k], names) == Some(order[k])
    && ColorOf(tokens[6 + 2 * k]) == NormalizeRGB(raw[order[k]])
  }

  lemma PairRead(order: seq<string>, raw: map<string, string>, names: seq<string>, k: nat)
    requires Colored(raw, order) && SameRoles(order, names) && k < |order|
    ensures PairIs(TokenList(order, raw), order, raw, names, k)
  {
    assert order[k] in names;
    hide Quoted, RoleOf, ColorOf, TokenAt;
    PairTokensAt(order, raw, k);
    RoleRead(order[k], names);
    ColorRead(raw[order[k]]);
  }

  lemma RoleRead(name: string, names: seq<string>)
    requires name in names
    ensures RoleOf(":" + name, names) == Some(name)
  {
    assert (":" + name)[1..] == name;
  }

  lemma ColorRead(value: string)
    requires |value| == 7
    ensures ColorOf(Quoted(value)) == NormalizeRGB(value)
  {
    assert Quoted(value)[1..8] == value;
  }

  lemma {:induction false} PairsRead(tokens: seq<string>, order: seq<string>, raw: map<string, string>,
                                     names: seq<string>, k: nat)
    requires |tokens| == 2 * |order| + 7 && Colored(raw, order) && Distinct(order) && k <= |order|
    requires forall j :: 0 <= j < |order| ==> PairIs(tokens, order, raw, names, j)
    ensures Pairs(tokens, 5 + 2 * k, Canonical(order, raw, k), names) == Some(Canonical(order, raw, |order|))
    decreases |order| - k
  {
    if k < |order| {
      RoleIsNew(order, raw, k);
      assert PairIs(tokens, order, raw, names, k);
      PairsRead(tokens, order, raw, names, k + 1);
    }
  }

  lemma CanonicalValid(order: seq<string>, raw: map<string, string>, names: seq<string>)
    requires Colored(raw, order) && SameRoles(order, names)
    ensures ValidPalette(Canonical(order, raw, |order|), names)
  {
    SizeOf(order, raw, |order|);
    forall name | name in names
      ensures name in Canonical(order, raw, |order|)
           && NormalizeRGB(Canonical(order, raw, |order|)[name]) == Some(Canonical(order, raw, |order|)[name])
    {
      var i :| 0 <= i < |order| && order[i] == name;
      ValueOf(order, raw, |order|, i);
      NormalizedStays(raw[name]);
    }
  }

  lemma FrameRead(order: seq<string>, raw: map<string, string>)
    requires Colored(raw, order)
    ensures var tokens := TokenList(order, raw);
      PaletteStart(tokens, |order|) == Some(3) && tokens[3] == ":palette" && tokens[4] == "("
  {
  }

  lemma FramedParse(tokens: seq<string>, names: seq<string>, values: map<string, string>)
    requires PaletteStart(tokens, |names|) == Some(3) && |tokens| >= 7 && tokens[3] == ":palette" && tokens[4] == "("
    requires Pairs(tokens, 5, map[], names) == Some(values) && ValidPalette(values, names)
    ensures ParseTokens(tokens, names) == Some(values)
  {
  }

  /** The tokens of every role with a colour, in any order, are read as the palette. */
  lemma TokensParse(order: seq<string>, raw: map<string, string>, names: seq<string>)
    requires Colored(raw, order) && SameRoles(order, names)
    ensures ParseTokens(TokenList(order, raw), names) == Some(Canonical(order, raw, |order|))
  {
    forall k | 0 <= k < |order| ensures PairIs(TokenList(order, raw), order, raw, names, k) {
      PairRead(order, raw, names, k);
    }
    PairsRead(TokenList(order, raw), order, raw, names, 0);
    CanonicalValid(order, raw, names);
    FrameRead(order, raw);
    FramedParse(TokenList(order, raw), names, Canonical(order, raw, |order|));
  }

  lemma TokenIsFine(order: seq<string>, raw: map<string, string>, names: seq<string>, k: nat)
    requires Colored(raw, order) && SameRoles(order, names) && RoleNames(names) && k < 2 * |order| + 7
    ensures Token(TokenAt(order, raw, k)) && |TokenAt(order, raw, k)| <= MAXIMUM_TOKEN
  {
    if 5 <= k < 2 * |order| + 5 {
      var i := (k - 5) / 2;
      assert order[i] in order;
      assert k == 5 + 2 * i || k == 6 + 2 * i;
      hide TokenAt, Word, Quoted, Letter;
      PairTokensAt(order, raw, i);
      QuotedIsWord(raw[order[i]]);
    }
  }

  lemma QuotedIsWord(value: string)
    requires NormalizeRGB(value).Some?
    ensures Word(Quoted(value)) && |Quoted(value)| == 9
  {
  }

  lemma SameCanonical(order: seq<string>, names: seq<string>, raw: map<string, string>)
    requires Colored(raw, order) && Colored(raw, names) && SameRoles(order, names) && Distinct(names)
    ensures Canonical(order, raw, |order|) == Canonical(names, raw, |names|)
  {
    var a, b := Canonical(order, raw, |order|), Canonical(names, raw, |names|);
    forall name
      ensures name in a <==> name in b
      ensures name in a && name in b ==> a[name] == b[name]
    {
      if name in a {
        KeyOf(order, raw, |order|, name);
        InBoth(order, names, raw, name);
      }
      if name in b {
        KeyOf(names, raw, |names|, name);
        InBoth(order, names, raw, name);
      }
    }
  }

  lemma InBoth(order: seq<string>, names: seq<string>, raw: map<string, string>, name: string)
    requires Colored(raw, order) && Colored(raw, names) && SameRoles(order, names) && Distinct(names)
    requires name in names || name in order
    ensures var a, b := Canonical(order, raw, |order|), Canonical(names, raw, |names|);
      name in a && name in b && a[name] == b[name] == NormalizeRGB(raw[name]).value
  {
    var i :| 0 <= i < |order| && order[i] == name;
    var j :| 0 <= j < |names| && names[j] == name;
    ValueOf(order, raw, |order|, i);
    ValueOf(names, raw, |names|, j);
  }

  lemma TokensWithinLimits(order: seq<string>, raw: map<string, string>, names: seq<string>)
    requires RoleNames(names) && SameRoles(order, names) && Colored(raw, order)
    ensures WithinLimits(TokenList(order, raw), 2 * |names| + 10)
  {
  }

  /** A file with every role once, in any order, with any white space between the tokens and
      the digits in either case, is read as the palette in canonical form. */
  lemma AnyLayoutParses(order: seq<string>, raw: map<string, string>, names: seq<string>, gaps: seq<string>)
    requires RoleNames(names) && SameRoles(order, names) && Colored(raw, order) && Colored(raw, names)
    requires Laid(TokenList(order, raw), gaps)
    requires |TextFrom(TokenList(order, raw), gaps, 0)| <= 4096
    ensures ParseOverride(TextFrom(TokenList(order, raw), gaps, 0), names) == Some(Canonical(names, raw, |names|))
  {
    var tokens := TokenList(order, raw);
    var text := TextFrom(tokens, gaps, 0);
    assert text[0..] == text && tokens[0..] == tokens;
    LaidTokens(text, 0, tokens, gaps, 0);
    TokensWithinLimits(order, raw, names);
    TokensParse(order, raw, names);
    SameCanonical(order, names, raw);
  }

  // ------------------------------------------------------- version 3, with an icon

  /** The tokens of the older version of the file, which also names an icon. */
  function IconTokens(order: seq<string>, raw: map<string, string>, icon: string): (r: seq<string>)
    requires Colored(raw, order)
    ensures |r| == 2 * |order| + 9
  {
    ["(", ":version", "3", ":settings-icon", Quoted(icon)] + TokenList(order, raw)[3..]
  }

  lemma IconTokenAt(order: seq<string>, raw: map<string, string>, icon: string, k: nat)
    requires Colored(raw, order) && 5 <= k < 2 * |order| + 9
    ensures IconTokens(order, raw, icon)[k] == TokenAt(order, raw, k - 2)
  {
  }

  lemma {:induction false} PairsShifted(a: seq<string>, b: seq<string>, index: nat, values: map<string, string>,
                                        names: seq<string>)
    requires |a| == |b| + 2 && index <= |b| && forall k :: index <= k < |b| ==> a[k + 2] == b[k]
    ensures Pairs(a, index + 2, values, names) == Pairs(b, index, values, names)
    decreases |b| - index
  {
    if index + 2 < |b| {
      var name, color := RoleOf(b[index], names), ColorOf(b[index + 1]);
      assert a[index + 2] == b[index] && a[index + 1 + 2] == b[index + 1];
      if name.Some? && color.Some? {
        PairsShifted(a, b, index + 2, values[name.value := color.value], names);
      }
    }
  }

  lemma IconFramed(tokens: seq<string>, names: seq<string>, values: map<string, string>, icon: string)
    requires |tokens| == 2 * |names| + 9 && tokens[..5] == ["(", ":version", "3", ":settings-icon", Quoted(icon)]
    requires tokens[5] == ":palette" && tokens[6] == "(" && tokens[|tokens| - 2] == ")" && tokens[|tokens| - 1] == ")"
    requires ValidIcon(icon) && Pairs(tokens, 7, map[], names) == Some(values) && ValidPalette(values, names)
    ensures ParseTokens(tokens, names) == Some(values)
  {
    hide Pairs, ValidPalette, ValidIcon;
    assert tokens[0] == tokens[..5][0] && tokens[1] == tokens[..5][1] && tokens[2] == tokens[..5][2];
    assert tokens[3] == tokens[..5][3] && tokens[4] == tokens[..5][4];
    hide QuotedIcon, Quoted;
    IconQuoted(icon);
  }

  lemma IconQuoted(icon: string)
    requires ValidIcon(icon)
    ensures QuotedIcon(Quoted(icon))
  {
    assert Quoted(icon)[1..|icon| + 1] == icon;
  }

  lemma IconFrame(order: seq<string>, raw: map<string, string>, icon: string)
    requires Colored(raw, order)
    ensures var tokens := IconTokens(order, raw, icon);
      && tokens[..5] == ["(", ":version", "3", ":settings-icon", Quoted(icon)]
      && tokens[5] == ":palette" && tokens[6] == "(" && tokens[|tokens| - 2] == ")" && tokens[|tokens| - 1] == ")"
  {
    var n := 2 * |order| + 9;
    IconTokenAt(order, raw, icon, 5);
    IconTokenAt(order, raw, icon, 6);
    IconTokenAt(order, raw, icon, n - 2);
    IconTokenAt(order, raw, icon, n - 1);
  }

  lemma IconPairs(order: seq<string>, raw: map<string, string>, names: seq<string>, icon: string)
    requires Colored(raw, order) && SameRoles(order, names)
    ensures Pairs(IconTokens(order, raw, icon), 7, map[], names) == Some(Canonical(order, raw, |order|))
  {
    var tokens, list := IconTokens(order, raw, icon), TokenList(order, raw);
    forall k | 5 <= k < |list| ensures tokens[k + 2] == list[k] {
      IconTokenAt(order, raw, icon, k + 2);
    }
    forall k | 0 <= k < |order| ensures PairIs(list, order, raw, names, k) {
      PairRead(order, raw, names, k);
    }
    PairsRead(list, order, raw, names, 0);
    PairsShifted(tokens, list, 5, map[], names);
  }

  /** With any valid icon they are read as the same palette. */
  lemma IconTokensParse(order: seq<string>, raw: map<string, string>, names: seq<string>, icon: string)
    requires Colored(raw, order) && SameRoles(order, names) && ValidIcon(icon)
    ensures ParseTokens(IconTokens(order, raw, icon), names) == Some(Canonical(order, raw, |order|))
  {
    hide ParseTokens, Pairs, Canonical, ValidPalette, ValidIcon, IconTokens;
    IconFrame(order, raw, icon);
    IconPairs(order, raw, names, icon);
    CanonicalValid(order, raw, names);
    IconFramed(IconTokens(order, raw, icon), names, Canonical(order, raw, |order|), icon);
  }

  lemma IconIsWord(icon: string)
    requires ValidIcon(icon)
    ensures Word(Quoted(icon)) && |Quoted(icon)| == |icon| + 2
  {
  }

  lemma OneLongWord(tokens: seq<string>, j: nat, limit: nat)
    requires j < |tokens| <= limit && Word(tokens[j])
    requires forall k :: 0 <= k < |tokens| && k != j ==> |tokens[k]| <= MAXIMUM_TOKEN
    ensures WithinLimits(tokens, limit) <==> |tokens[j]| <= MAXIMUM_TOKEN
  {
  }

  /** But an icon's name is valid up to 64 letters, and a token with its quotes only up to as
      many: the tokens pass the limits exactly if the name has 62 at most. */
  lemma IconWithinLimits(order: seq<string>, raw: map<string, string>, names: seq<string>, icon: string)
    requires RoleNames(names) && SameRoles(order, names) && Colored(raw, order) && ValidIcon(icon)
    ensures WithinLimits(IconTokens(order, raw, icon), 2 * |names| + 10) <==> |icon| <= MAXIMUM_TOKEN - 2
  {
    var tokens := IconTokens(order, raw, icon);
    IconIsWord(icon);
    forall k | 0 <= k < |tokens| && k != 4 ensures |tokens[k]| <= MAXIMUM_TOKEN {
      if k >= 5 {
        IconTokenAt(order, raw, icon, k);
        TokenIsFine(order, raw, names, k - 2);
      }
    }
    assert |order| == |names|;
    OneLongWord(tokens, 4, 2 * |names| + 10);
  }

  /** A file of the older version, in any order, layout and case, is read as its palette exactly
      if the name of its icon leaves room for the quotes. */
  lemma AnyIconLayoutParses(order: seq<string>, raw: map<string, string>, names: seq<string>, icon: string,
                            gaps: seq<string>)
    requires RoleNames(names) && SameRoles(order, names) && Colored(raw, order) && Colored(raw, names)
    requires ValidIcon(icon) && Laid(IconTokens(order, raw, icon), gaps)
    requires |TextFrom(IconTokens(order, raw, icon), gaps, 0)| <= 4096
    ensures ParseOverride(TextFrom(IconTokens(order, raw, icon), gaps, 0), names)
         == if |icon| <= 62 then Some(Canonical(names, raw, |names|)) else None
  {
    var tokens := IconTokens(order, raw, icon);
    var text := TextFrom(tokens, gaps, 0);
    assert text[0..] == text && tokens[0..] == tokens;
    LaidTokens(text, 0, tokens, gaps, 0);
    IconWithinLimits(order, raw, names, icon);
    IconTokensParse(order, raw, names, icon);
    SameCanonical(order, names, raw);
  }

  // ----------------------------------------------------------------- printer

  function GapBefore(roles: nat, k: nat): string {
    if k == 2 then " "
    else if k == 3 then "\n "
    else if k == 4 then "\n  "
    else if k <= 5 then ""
    else if k >= 2 * roles + 5 then (if k == 2 * roles + 7 then "\n" else "")
    else if k % 2 == 1 then "\n   "
    else " "
  }

  function Gaps(roles: nat): (r: seq<string>)
    ensures |r| == 2 * roles + 8
  {
    seq(2 * roles + 8, k requires 0 <= k < 2 * roles + 8 => GapBefore(roles, k))
  }

  /** What the printer writes. */
  function Printed(names: seq<string>, values: map<string, string>): string
    requires Colored(values, names)
  {
    TextFrom(TokenList(names, values), Gaps(|names|), 0)
  }

  lemma PrintedIsLaid(names: seq<string>, values: map<string, string>)
    requires Colored(values, names) && RoleNames(names)
    ensures Laid(TokenList(names, values), Gaps(|names|))
  {
    hide TokenAt, GapBefore, Token, Word, Gap;
    forall k | 0 <= k < 2 * |names| + 7
      ensures Token(TokenAt(names, values, k))
      ensures k > 0 && Word(TokenAt(names, values, k - 1)) && Word(TokenAt(names, values, k)) ==>
                GapBefore(|names|, k) != ""
    {
      TokenIsFine(names, values, names, k);
      if k > 0 && Word(TokenAt(names, values, k - 1)) && Word(TokenAt(names, values, k)) {
        WordsApart(names, values, k);
      }
    }
    forall k | 0 <= k < 2 * |names| + 8 ensures Gap(GapBefore(|names|, k)) {
      GapIsFine(|names|, k);
    }
  }

  lemma GapIsFine(roles: nat, k: nat)
    ensures Gap(GapBefore(roles, k))
  {
  }

  lemma WordsApart(names: seq<string>, values: map<string, string>, k: nat)
    requires Colored(values, names) && 0 < k < 2 * |names| + 7
    requires Word(TokenAt(names, values, k - 1)) && Word(TokenAt(names, values, k))
    ensures GapBefore(|names|, k) != ""
  {
    NotWords();
    hide Word;
  }

  lemma NotWords()
    ensures !Word("(") && !Word(")")
  {
    assert !Letter("("[0]) && !Letter(")"[0]);
  }

  const HEADER := "(:version 2\n :palette\n  ("

  /** The text from token k on. */
  function PrintedFrom(names: seq<string>, values: map<string, string>, k: nat): string
    requires Colored(values, names) && k <= 2 * |names| + 7
  {
    TextFrom(TokenList(names, values), Gaps(|names|), k)
  }

  lemma TokenPrinted(names: seq<string>, values: map<string, string>, k: nat, rest: string)
    requires Colored(values, names) && k < 2 * |names| + 7 && PrintedFrom(names, values, k + 1) == rest
    ensures PrintedFrom(names, values, k) == GapBefore(|names|, k) + TokenAt(names, values, k) + rest
  {
  }

  lemma HeaderPrinted(names: seq<string>, values: map<string, string>)
    requires Colored(values, names)
    ensures Printed(names, values) == HEADER + PrintedFrom(names, values, 5)
  {
    var rest := PrintedFrom(names, values, 5);
    TokenPrinted(names, values, 4, rest);
    TokenPrinted(names, values, 3, "\n  " + "(" + rest);
    TokenPrinted(names, values, 2, "\n " + ":palette" + ("\n  " + "(" + rest));
    TokenPrinted(names, values, 1, " " + "2" + ("\n " + ":palette" + ("\n  " + "(" + rest)));
    TokenPrinted(names, values, 0, "" + ":version" + (" " + "2" + ("\n " + ":palette" + ("\n  " + "(" + rest))));
    HeaderJoins(rest);
  }

  lemma HeaderJoins(rest: string)
    ensures "" + "(" + ("" + ":version" + (" " + "2" + ("\n " + ":palette" + ("\n  " + "(" + rest)))) == HEADER + rest
  {
    Joins("\n " + ":palette", "\n  " + "(", rest);
    Joins(" " + "2", "\n " + ":palette" + ("\n  " + "("), rest);
    Joins("" + ":version", " " + "2" + ("\n " + ":palette" + ("\n  " + "(")), rest);
    Joins("" + "(", "" + ":version" + (" " + "2" + ("\n " + ":palette" + ("\n  " + "("))), rest);
    assert "" + "(" + ("" + ":version" + (" " + "2" + ("\n " + ":palette" + ("\n  " + "(")))) == HEADER;
  }

  function Separator(k: nat): string { if k > 0 then "\n   " else "" }

  function Entry(names: seq<string>, values: map<string, string>, k: nat): string
    requires Colored(values, names) && k < |names|
  {
    Separator(k) + (":" + names[k]) + " " + Quoted(values[names[k]])
  }

  lemma EntryPrinted(names: seq<string>, values: map<string, string>, k: nat)
    requires Colored(values, names) && k < |names|
    ensures PrintedFrom(names, values, 5 + 2 * k)
         == Entry(names, values, k) + PrintedFrom(names, values, 7 + 2 * k)
  {
    var rest, color := PrintedFrom(names, values, 7 + 2 * k), Quoted(values[names[k]]);
    PairTokensAt(names, values, k);
    GapsAt(|names|, k);
    TokenPrinted(names, values, 6 + 2 * k, rest);
    TokenPrinted(names, values, 5 + 2 * k, " " + color + rest);
    EntryJoins(Separator(k), ":" + names[k], color, rest);
  }

  lemma GapsAt(roles: nat, k: nat)
    requires k < roles
    ensures GapBefore(roles, 5 + 2 * k) == Separator(k) && GapBefore(roles, 6 + 2 * k) == " "
  {
  }

  lemma EntryJoins(separator: string, key: string, color: string, rest: string)
    ensures separator + key + (" " + color + rest) == separator + key + " " + color + rest
  {
  }

  lemma EndPrinted(names: seq<string>, values: map<string, string>)
    requires Colored(values, names)
    ensures PrintedFrom(names, values, 5 + 2 * |names|) == "))\n"
  {
    TokenPrinted(names, values, 6 + 2 * |names|, "\n");
    TokenPrinted(names, values, 5 + 2 * |names|, "" + ")" + "\n");
  }

  /** encodePaletteOverride. */
  method EncodePaletteOverride(values: map<string, string>, names: seq<string>) returns (contents: string)
    requires Colored(values, names)
    ensures contents == Printed(names, values)
  {
    contents := HEADER;
    HeaderPrinted(names, values);
    for index := 0 to |names|
      invariant Printing(contents, names, values, index)
    {
      PrintingStep(contents, names, values, index);
      if index > 0 {
        contents := contents + "\n   ";
      } else {
        assert contents + "" == contents;
      }
      contents := contents + (":" + names[index] + " " + Quoted(values[names[index]]));
    }
    EndPrinted(names, values);
    contents := contents + "))\n";
  }

  /** What is printed, with the entries from k on still to come. */
  predicate Printing(contents: string, names: seq<string>, values: map<string, string>, k: nat)
    requires Colored(values, names) && k <= |names|
  {
    (contents + PrintedFrom(names, values, 5 + 2 * k) == Printed(names, values)) == true
  }

  lemma PrintingStep(contents: string, names: seq<string>, values: map<string, string>, k: nat)
    requires Colored(values, names) && k < |names| && Printing(contents, names, values, k)
    ensures Printing(contents + Separator(k) + (":" + names[k] + " " + Quoted(values[names[k]])), names, values, k + 1)
  {
    var color := Quoted(values[names[k]]);
    EntryPrinted(names, values, k);
    Joins(contents, Entry(names, values, k), PrintedFrom(names, values, 7 + 2 * k));
    EntryAdds(contents, Separator(k), ":" + names[k], color);
  }

  lemma EntryAdds(contents: string, separator: string, key: string, color: string)
    ensures contents + (separator + key + " " + color) == contents + separator + (key + " " + color)
  {
  }

  lemma {:induction false} TextSize(tokens: seq<string>, gaps: seq<string>, k: nat)
    requires |gaps| == |tokens| + 1 && k <= |tokens|
    requires forall j :: 0 <= j < |tokens| ==> |tokens[j]| <= MAXIMUM_TOKEN
    requires forall j :: 0 <= j < |gaps| ==> |gaps[j]| <= 4
    ensures |TextFrom(tokens, gaps, k)| <= (MAXIMUM_TOKEN + 4) * (|tokens| - k) + 4
    decreases |tokens| - k
  {
    if k < |tokens| {
      TextSize(tokens, gaps, k + 1);
    }
  }

  lemma PrintedSize(names: seq<string>, values: map<string, string>)
    requires RoleNames(names) && Colored(values, names)
    ensures |Printed(names, values)| <= (MAXIMUM_TOKEN + 4) * (2 * |names| + 7) + 4
  {
    forall k | 0 <= k < 2 * |names| + 7 ensures |TokenList(names, values)[k]| <= MAXIMUM_TOKEN {
      TokenIsFine(names, values, names, k);
    }
    TextSize(TokenList(names, values), Gaps(|names|), 0);
  }

  /** A palette that passes validation is read back from what is printed, exactly if that is
      within the size limit; with up to 26 roles it always is. */
  lemma RoundTrip(names: seq<string>, values: map<string, string>)
    requires RoleNames(names) && ValidPalette(values, names)
    ensures ParseOverride(Printed(names, values), names) == Some(values)
       <==> |Printed(names, values)| <= 4096
    ensures |names| <= 26 ==> |Printed(names, values)| <= 4096
  {
    if |Printed(names, values)| <= MAXIMUM_BYTES {
      PrintedIsLaid(names, values);
      AnyLayoutParses(names, values, names, Gaps(|names|));
      CanonicalIsPalette(names, values);
    }
    PrintedSize(names, values);
  }

  lemma CanonicalIsPalette(names: seq<string>, values: map<string, string>)
    requires Distinct(names) && ValidPalette(values, names)
    ensures Canonical(names, values, |names|) == values
  {
    var all := Canonical(names, values, |names|);
    SizeOf(names, values, |names|);
    forall name | name in all
      ensures name in values && all[name] == values[name]
    {
      KeyOf(names, values, |names|, name);
      InBoth(names, names, values, name);
    }
    assert all.Keys <= values.Keys;
    assert |values.Keys - all.Keys| == |values.Keys| - |all.Keys|;
    assert values.Keys - all.Keys == {};
    assert all.Keys == values.Keys;
  }

  /** The store's save, and what the dashboard then reads. */
  method SaveAndLoad(values: map<string, string>, names: seq<string>) returns (loaded: Option<map<string, string>>)
    requires RoleNames(names) && |names| <= 26
    ensures loaded == if ValidPalette(values, names) then Some(values) else None
  {
    if !ValidPalette(values, names) { return None; }
    var file := EncodePaletteOverride(values, names);
    RoundTrip(names, values);
    loaded := ParsePaletteOverride(file, names);
  }
}
