/** Identifiers and titles of uploaded games: what the uploader makes of a title, and what the
    menu accepts. Texts are byte strings. */
module CatalogEntry {

  import opened Basics
  import opened Utf8

  type text = seq<byte>

  const HYPHEN: byte := 45
  const TAB: byte := 9
  const NEWLINE: byte := 10
  const RETURN: byte := 13
  const HASH: byte := 35
  const SLASH: byte := 47

  predicate Ascii(s: string) { forall i :: 0 <= i < |s| ==> 0x20 < s[i] as int < 0x7f }

  function Text(s: string): (t: text)
    requires Ascii(s)
    ensures |t| == |s|
  {
    seq(|s|, i requires 0 <= i < |s| => s[i] as int)
  }

  /** Lower-case letters and digits. */
  predicate Alnum(c: nat) { 97 <= c <= 122 || 48 <= c <= 57 }

  // ------------------------------------------------------------- menu checks

  /** valid_id: letters, digits and single hyphens between them, at most 48. */
  predicate ValidId(id: text) {
    0 < |id| <= 48 && forall index :: 0 <= index < |id| ==> Fits(id, index)
  }

  predicate Fits(id: text, index: nat)
    requires index < |id|
  {
    && (Alnum(id[index]) || id[index] == HYPHEN)
    && (index == 0 ==> Alnum(id[index]))
    && (id[index] == HYPHEN ==> index + 1 != |id| && id[index - 1] != HYPHEN)
  }

  predicate AsciiSpace(c: nat) { 9 <= c <= 13 || c == 32 }

  /** The text is its own trim_ascii_space. */
  predicate AsciiTrimmed(t: text) {
    t != [] ==> !AsciiSpace(t[0]) && !AsciiSpace(t[|t| - 1])
  }

  predicate MenuTitle(title: text) { Accepted(title, 64, false) && AsciiTrimmed(title) }

  // --------------------------------------------------------- uploader: titles

  /** White space as strings.TrimSpace takes it. */
  predicate Space(c: nat) {
    9 <= c <= 13 || c == 32 || c == 0x85 || c == 0xa0 || c == 0x1680 || 0x2000 <= c <= 0x200a
    || c == 0x2028 || c == 0x2029 || c == 0x202f || c == 0x205f || c == 0x3000
  }

  predicate Control(c: nat) { c < 0x20 || 0x7f <= c < 0xa0 }

  /** validTitle. */
  predicate ValidTitle(title: text) {
    var codes := CodesFrom(title, 0);
    && codes.Some? && 0 < |codes.value| <= 64
    && !Space(codes.value[0]) && !Space(codes.value[|codes.value| - 1])
    && forall i :: 0 <= i < |codes.value| ==> !Control(codes.value[i])
  }

  /** The menu accepts every title the uploader does. */
  lemma TitleAccepted(title: text)
    requires ValidTitle(title)
    ensures MenuTitle(title) && TAB !in title && NEWLINE !in title
  {
    var codes := CodesFrom(title, 0).value;
    assert title[0..] == title;
    ReadIsEncoded(title, 0);
    FirstByte(codes);
    LastByte(codes);
    forall c: byte | c == TAB || c == NEWLINE
      ensures c !in title
    {
      NoControlByte(codes, c);
    }
  }

  lemma FirstByte(codes: seq<nat>)
    requires Encodable(codes) && codes != []
    ensures EncodeAll(codes) != []
    ensures EncodeAll(codes)[0] < 0x80 ==> EncodeAll(codes)[0] == codes[0]
  {
  }

  lemma {:induction false} LastByte(codes: seq<nat>)
    requires Encodable(codes) && codes != []
    ensures var t := EncodeAll(codes);
      t != [] && (t[|t| - 1] < 0x80 ==> t[|t| - 1] == codes[|codes| - 1])
  {
    if |codes| > 1 {
      LastByte(codes[1..]);
    } else {
      assert EncodeAll(codes) == Encode(codes[0]) + [];
    }
  }

  lemma NotEncoding(code: nat, c: byte)
    requires code < 0x20_0000 && c < 0x80 && c != code
    ensures c !in Encode(code)
  {
  }

  lemma {:induction false} NoControlByte(codes: seq<nat>, c: byte)
    requires Encodable(codes) && c < 0x80 && c !in codes
    ensures c !in EncodeAll(codes)
  {
    if codes != [] {
      assert c !in codes[1..] && c != codes[0];
      NoControlByte(codes[1..], c);
      NotEncoding(codes[0], c);
    }
    hide Encode;
  }

  // ----------------------------------------------------- uploader: identifiers

  function SlugFrom(s: seq<nat>, i: nat, built: text, lastHyphen: bool): text
    decreases |s| - i
  {
    if i >= |s| then built
    else if Alnum(s[i]) then
      if |built| >= 32 then built else SlugFrom(s, i + 1, built + [s[i]], false)
    else if |built| > 0 && !lastHyphen && |built| < 32 then SlugFrom(s, i + 1, built + [HYPHEN], true)
    else SlugFrom(s, i + 1, built, lastHyphen)
  }

  function TrimLeft(t: text): text {
    if t != [] && t[0] == HYPHEN then TrimLeft(t[1..]) else t
  }

  function TrimRight(t: text): text {
    if t != [] && t[|t| - 1] == HYPHEN then TrimRight(t[..|t| - 1]) else t
  }

  /** The slug of a title, from the characters of the title in lower case. */
  function Slug(lowered: seq<nat>): text { TrimLeft(TrimRight(SlugFrom(lowered, 0, [], false))) }

  /** Letters, digits and single hyphens, the first not a hyphen. */
  predicate SlugShape(t: text) {
    && (forall i :: 0 <= i < |t| ==> Alnum(t[i]) || t[i] == HYPHEN)
    && (t != [] ==> t[0] != HYPHEN)
    && (forall i, j :: 0 <= i < |t| && 0 <= j < |t| && j == i + 1 ==> t[i] != HYPHEN || t[j] != HYPHEN)
  }

  lemma IdShape(t: text)
    ensures ValidId(t) <==> 0 < |t| <= 48 && SlugShape(t) && t[|t| - 1] != HYPHEN
  {
    if ValidId(t) {
      assert Fits(t, 0) && Fits(t, |t| - 1);
      forall i, j | 0 <= i < |t| && 0 <= j < |t| && j == i + 1
        ensures t[i] != HYPHEN || t[j] != HYPHEN
      {
        assert Fits(t, j);
      }
      forall i | 0 <= i < |t| ensures Alnum(t[i]) || t[i] == HYPHEN {
        assert Fits(t, i);
      }
    }
  }

  lemma OneMore(t: text, c: byte)
    requires SlugShape(t) && (Alnum(c) || (c == HYPHEN && t != [] && t[|t| - 1] != HYPHEN))
    ensures SlugShape(t + [c])
  {
  }

  lemma {:induction false} SlugShaped(s: seq<nat>, i: nat, built: text, lastHyphen: bool)
    requires SlugShape(built) && |built| <= 32
    requires lastHyphen <==> built != [] && built[|built| - 1] == HYPHEN
    ensures SlugShape(SlugFrom(s, i, built, lastHyphen)) && |SlugFrom(s, i, built, lastHyphen)| <= 32
    decreases |s| - i
  {
    if i < |s| {
      if Alnum(s[i]) {
        if |built| < 32 {
          OneMore(built, s[i]);
          SlugShaped(s, i + 1, built + [s[i]], false);
        }
      } else if |built| > 0 && !lastHyphen && |built| < 32 {
        OneMore(built, HYPHEN);
        SlugShaped(s, i + 1, built + [HYPHEN], true);
      } else {
        SlugShaped(s, i + 1, built, lastHyphen);
      }
    }
  }

  lemma {:induction false} TrimmedRight(t: text)
    requires SlugShape(t)
    ensures SlugShape(TrimRight(t)) && |TrimRight(t)| <= |t| && TrimLeft(TrimRight(t)) == TrimRight(t)
    ensures TrimRight(t) != [] ==> TrimRight(t)[|TrimRight(t)| - 1] != HYPHEN
  {
  }

  /** A slug is empty or an identifier of at most 32 characters. */
  lemma SlugIsId(lowered: seq<nat>)
    ensures Slug(lowered) == [] || (ValidId(Slug(lowered)) && |Slug(lowered)| <= 32)
  {
    SlugShaped(lowered, 0, [], false);
    TrimmedRight(SlugFrom(lowered, 0, [], false));
    IdShape(Slug(lowered));
  }

  // ------------------------------------------------------ what a slug keeps

  /** Where the letters and digits of a text are, in order. */
  function Places(s: seq<nat>): (p: seq<nat>)
    ensures forall k :: 0 <= k < |p| ==> p[k] < |s|
  {
    if s == [] then []
    else
      var n := |s| - 1;
      Places(s[..n]) + if Alnum(s[n]) then [n] else []
  }

  /** p are the places of all letters and digits of s and of nothing else, in order. */
  ghost predicate AllPlaces(s: seq<nat>, p: seq<nat>) {
    && (forall k :: 0 <= k < |p| ==> p[k] < |s| && Alnum(s[p[k]]))
    && (forall j, k :: 0 <= j < k < |p| ==> p[j] < p[k])
    && (forall i :: 0 <= i < |s| && Alnum(s[i]) ==> i in p)
  }

  lemma {:induction false} PlacesAreAll(s: seq<nat>)
    ensures AllPlaces(s, Places(s))
  {
    if s != [] {
      var n := |s| - 1;
      PlacesAreAll(s[..n]);
      AllPlacesNext(s[..n], Places(s[..n]), s);
      hide AllPlaces, Alnum;
    }
  }

  lemma AllPlacesNext(r: seq<nat>, p: seq<nat>, s: seq<nat>)
    requires AllPlaces(r, p) && |s| == |r| + 1 && s[..|r|] == r
    ensures AllPlaces(s, p + if Alnum(s[|r|]) then [|r|] else [])
  {
    hide Alnum;
    var p' := p + if Alnum(s[|r|]) then [|r|] else [];
    forall i | 0 <= i < |s| && Alnum(s[i])
      ensures i in p'
    {
      if i < |r| {
        assert r[i] == s[i] && i in p;
      }
    }
    forall k | 0 <= k < |p'|
      ensures p'[k] < |s| && Alnum(s[p'[k]])
    {
      if k < |p| {
        assert r[p[k]] == s[p[k]];
      }
    }
  }

  /** The letters and digits of t are the first ones of s, in order; two of them stand together if they
      did in s, and otherwise have one character between them. */
  ghost predicate Follows(s: seq<nat>, t: seq<nat>) {
    Aligned(s, Places(s), t, Places(t))
  }

  ghost predicate Aligned(s: seq<nat>, p: seq<nat>, t: seq<nat>, q: seq<nat>) {
    && (forall k :: 0 <= k < |p| ==> p[k] < |s|)
    && (forall k :: 0 <= k < |q| ==> q[k] < |t|)
    && |q| <= |p|
    && (q != [] ==> q[0] == 0)
    && (forall k :: 0 <= k < |q| ==> t[q[k]] == s[p[k]])
    && (forall j, k :: 0 <= j < |q| && 0 <= k < |q| && k == j + 1 ==>
          q[k] == q[j] + if p[k] == p[j] + 1 then 1 else 2)
  }

  /** The next letter of s would not have fitted into 32 characters. */
  ghost predicate Full(s: seq<nat>, t: seq<nat>) {
    var p, n := Places(s), |Places(t)|;
    && 0 < n < |p|
    && |t| + (if p[n] == p[n - 1] + 1 then 0 else 1) >= 32
  }

  lemma AlignedNext(s: seq<nat>, p: seq<nat>, t: seq<nat>, q: seq<nat>, s': seq<nat>, i: nat, t': seq<nat>, j: nat)
    requires Aligned(s, p, t, q) && |q| == |p| && s <= s' && t <= t'
    requires i < |s'| && j < |t'| && t'[j] == s'[i]
    requires if q == [] then j == 0 else j == q[|q| - 1] + if i == p[|p| - 1] + 1 then 1 else 2
    ensures Aligned(s', p + [i], t', q + [j])
  {
    forall k | 0 <= k < |q| + 1
      ensures t'[(q + [j])[k]] == s'[(p + [i])[k]]
    {
      if k < |q| {
        assert t[q[k]] == s[p[k]] && t'[q[k]] == t[q[k]] && s'[p[k]] == s[p[k]];
      }
    }
  }

  lemma AlignedStill(s: seq<nat>, p: seq<nat>, t: seq<nat>, q: seq<nat>, s': seq<nat>, t': seq<nat>)
    requires Aligned(s, p, t, q) && s <= s' && t <= t'
    ensures Aligned(s', p, t', q)
  {
    forall k | 0 <= k < |q|
      ensures t'[q[k]] == s'[p[k]]
    {
      assert t[q[k]] == s[p[k]] && t'[q[k]] == t[q[k]] && s'[p[k]] == s[p[k]];
    }
  }

  lemma PlacesNext(s: seq<nat>, i: nat)
    requires i < |s|
    ensures Places(s[..i + 1]) == if Alnum(s[i]) then Places(s[..i]) + [i] else Places(s[..i])
  {
    assert s[..i + 1][..i] == s[..i];
  }

  lemma {:induction false} PlacesBegin(s: seq<nat>, i: nat)
    requires i <= |s|
    ensures |Places(s[..i])| <= |Places(s)| && Places(s)[..|Places(s[..i])|] == Places(s[..i])
    decreases |s| - i
  {
    if i == |s| {
      assert s[..i] == s;
    } else {
      PlacesBegin(s, i + 1);
      PlacesNext(s, i);
    }
  }

  /** The text built from the first i characters. */
  ghost predicate Building(s: seq<nat>, i: nat, built: text, lastHyphen: bool)
    requires i <= |s|
  {
    Follows(s[..i], built) && Counted(i, |built|, Places(s[..i]), Places(built), lastHyphen)
  }

  ghost predicate Counted(i: nat, n: nat, p: seq<nat>, q: seq<nat>, lastHyphen: bool) {
    && n <= 32 && |q| == |p|
    && (q == [] ==> n == 0 && !lastHyphen)
    && (q != [] ==> q[|q| - 1] == n - if lastHyphen then 2 else 1)
    && (q != [] && lastHyphen ==> p[|p| - 1] + 1 < i)
    && (q != [] && !lastHyphen ==> p[|p| - 1] + 1 == i || n == 32)
  }

  lemma CountedNext(i: nat, n: nat, p: seq<nat>, q: seq<nat>, lastHyphen: bool)
    requires Counted(i, n, p, q, lastHyphen) && n < 32
    ensures Counted(i + 1, n + 1, p + [i], q + [n], false)
    ensures |q| == |p|
    ensures if q == [] then n == 0 else n == q[|q| - 1] + if i == p[|p| - 1] + 1 then 1 else 2
  {
  }

  lemma LetterAdded(s: seq<nat>, i: nat, built: text, lastHyphen: bool)
    requires i < |s| && Building(s, i, built, lastHyphen) && Alnum(s[i]) && |built| < 32
    ensures Building(s, i + 1, built + [s[i]], false)
  {
    var built' := built + [s[i]];
    CountedNext(i, |built|, Places(s[..i]), Places(built), lastHyphen);
    LetterPlace(s, i, built);
    AlignedNext(s[..i], Places(s[..i]), built, Places(built), s[..i + 1], i, built', |built|);
    hide Places, Aligned, Counted, Alnum;
  }

  lemma LetterPlace(s: seq<nat>, i: nat, built: text)
    requires i < |s| && Alnum(s[i])
    ensures var built' := built + [s[i]];
      && s[..i] <= s[..i + 1] && built <= built' && |built'| == |built| + 1 && built'[|built|] == s[i]
      && s[..i + 1][i] == s[i]
      && Places(s[..i + 1]) == Places(s[..i]) + [i] && Places(built') == Places(built) + [|built|]
  {
    BothNext(s, i, built, s[i]);
    hide Places;
  }

  lemma BothNext(s: seq<nat>, i: nat, built: text, c: byte)
    requires i < |s|
    ensures s[..i] <= s[..i + 1] && built <= built + [c]
    ensures Places(s[..i + 1]) == if Alnum(s[i]) then Places(s[..i]) + [i] else Places(s[..i])
    ensures Places(built + [c]) == if Alnum(c) then Places(built) + [|built|] else Places(built)
  {
    PlacesNext(s, i);
    PlacesOfMore(built, c);
    hide Places;
  }

  lemma PlacesOfMore(t: seq<nat>, c: nat)
    ensures Places(t + [c]) == if Alnum(c) then Places(t) + [|t|] else Places(t)
  {
    assert (t + [c])[..|t|] == t;
  }

  /** Something else than a letter: a hyphen is added, or nothing. */
  lemma CountedOn(i: nat, n: nat, p: seq<nat>, q: seq<nat>, lastHyphen: bool)
    requires Counted(i, n, p, q, lastHyphen)
    ensures 0 < n < 32 && !lastHyphen ==> Counted(i + 1, n + 1, p, q, true)
    ensures n == 0 || lastHyphen || n == 32 ==> Counted(i + 1, n, p, q, lastHyphen)
  {
  }

  lemma HyphenNoPlace(s: seq<nat>, i: nat, built: text)
    requires i < |s| && !Alnum(s[i])
    ensures s[..i] <= s[..i + 1] && built <= built + [HYPHEN] && |built + [HYPHEN]| == |built| + 1
    ensures Places(s[..i + 1]) == Places(s[..i]) && Places(built + [HYPHEN]) == Places(built)
  {
    BothNext(s, i, built, HYPHEN);
    hide Places;
  }

  lemma HyphenAdded(s: seq<nat>, i: nat, built: text)
    requires i < |s| && Building(s, i, built, false) && !Alnum(s[i]) && 0 < |built| < 32
    ensures Building(s, i + 1, built + [HYPHEN], true)
  {
    var built' := built + [HYPHEN];
    CountedOn(i, |built|, Places(s[..i]), Places(built), false);
    HyphenNoPlace(s, i, built);
    AlignedStill(s[..i], Places(s[..i]), built, Places(built), s[..i + 1], built');
    hide Places, Aligned, Counted, Alnum;
  }

  lemma OtherPassed(s: seq<nat>, i: nat, built: text, lastHyphen: bool)
    requires i < |s| && Building(s, i, built, lastHyphen) && !Alnum(s[i])
    requires built == [] || lastHyphen || |built| == 32
    ensures Building(s, i + 1, built, lastHyphen)
  {
    CountedOn(i, |built|, Places(s[..i]), Places(built), lastHyphen);
    PlacesNext(s, i);
    AlignedStill(s[..i], Places(s[..i]), built, Places(built), s[..i + 1], built);
    hide Places, Aligned, Counted;
  }

  /** The text built from a whole title, before its last hyphen is trimmed. */
  ghost predicate Built(s: seq<nat>, t: text) {
    var p, n := Places(s), |Places(t)|;
    && Follows(s, t)
    && (n == |p| || (0 < n < |p| && |t| == 32 && (t[|t| - 1] == HYPHEN ==> p[n - 1] + 1 < p[n])))
  }

  lemma BuiltAll(s: seq<nat>, built: text, lastHyphen: bool)
    requires Building(s, |s|, built, lastHyphen)
    ensures Built(s, built)
  {
    assert s[..|s|] == s;
  }

  lemma BuiltFull(s: seq<nat>, i: nat, built: text, lastHyphen: bool)
    requires i < |s| && Building(s, i, built, lastHyphen) && Alnum(s[i]) && |built| >= 32
    ensures Built(s, built)
  {
    PlacesNext(s, i);
    PlacesBegin(s, i + 1);
    PlacesBegin(s, i);
    hide Places;
  }

  lemma {:induction false} SlugIsBuilt(s: seq<nat>, i: nat, built: text, lastHyphen: bool)
    requires i <= |s| && Building(s, i, built, lastHyphen) && |built| <= 32
    ensures Built(s, SlugFrom(s, i, built, lastHyphen))
    decreases |s| - i
  {
    hide Building, Built;
    if i == |s| {
      BuiltAll(s, built, lastHyphen);
    } else if Alnum(s[i]) {
      if |built| >= 32 {
        BuiltFull(s, i, built, lastHyphen);
      } else {
        LetterAdded(s, i, built, lastHyphen);
        SlugIsBuilt(s, i + 1, built + [s[i]], false);
      }
    } else {
      if |built| > 0 && !lastHyphen && |built| < 32 {
        HyphenAdded(s, i, built);
        SlugIsBuilt(s, i + 1, built + [HYPHEN], true);
      } else {
        OtherPassed(s, i, built, lastHyphen);
        SlugIsBuilt(s, i + 1, built, lastHyphen);
      }
    }
  }

  lemma TrimmedOnce(t: text)
    requires SlugShape(t)
    ensures TrimRight(t) == if t != [] && t[|t| - 1] == HYPHEN then t[..|t| - 1] else t
    ensures Places(TrimRight(t)) == Places(t)
  {
    if t != [] && t[|t| - 1] == HYPHEN {
      assert TrimRight(t) == TrimRight(t[..|t| - 1]);
    }
  }

  /** The slug keeps the letters and digits of a title from its beginning on, with one hyphen exactly where
      anything else stood between two of them.  None is left out before 32 characters are reached. */
  lemma SlugKeeps(lowered: seq<nat>)
    ensures var slug := Slug(lowered);
      && Follows(lowered, slug)
      && (|Places(slug)| == |Places(lowered)| || Full(lowered, slug))
      && (forall i :: 0 <= i < |slug| ==> Alnum(slug[i]) || slug[i] == HYPHEN)
      && (slug != [] ==> Alnum(slug[0]) && Alnum(slug[|slug| - 1]) && |slug| <= 32)
  {
    SlugIsId(lowered);
    SlugEnds(Slug(lowered));
    SlugFollows(lowered);
    hide Slug, ValidId, Follows, Full, Places, Alnum;
  }

  lemma SlugFollows(lowered: seq<nat>)
    ensures Follows(lowered, Slug(lowered))
    ensures |Places(Slug(lowered))| == |Places(lowered)| || Full(lowered, Slug(lowered))
  {
    var built := SlugFrom(lowered, 0, [], false);
    BuildingNothing(lowered);
    SlugIsBuilt(lowered, 0, [], false);
    SlugShaped(lowered, 0, [], false);
    TrimmedRight(built);
    TrimmedOnce(built);
    TrimmedKeeps(lowered, built, TrimRight(built));
    hide SlugFrom, Places, TrimLeft, TrimRight, SlugShape, Follows, Full, Building, Built, Alnum;
  }

  lemma BuildingNothing(s: seq<nat>)
    ensures Building(s, 0, [], false) && SlugShape([])
  {
    NoPlaces();
    assert s[..0] == [];
    hide Places;
  }

  lemma NoPlaces()
    ensures Places([]) == []
  {
  }

  lemma TrimmedKeeps(s: seq<nat>, built: text, t: text)
    requires Built(s, built) && Places(t) == Places(built)
    requires t == if built != [] && built[|built| - 1] == HYPHEN then built[..|built| - 1] else built
    ensures Follows(s, t) && (|Places(t)| == |Places(s)| || Full(s, t))
  {
    hide Places;
  }

  lemma SlugEnds(t: text)
    requires t == [] || ValidId(t)
    ensures forall i :: 0 <= i < |t| ==> Alnum(t[i]) || t[i] == HYPHEN
    ensures t != [] ==> Alnum(t[0]) && Alnum(t[|t| - 1])
  {
    if t != [] {
      IdShape(t);
    }
  }

  /** A title of at most 32 letters, digits and single hyphens between them is its own slug. */
  lemma CleanIsSlug(t: text)
    requires ValidId(t) && |t| <= 32
    ensures Slug(t) == t
  {
    IdShape(t);
    CleanFrom(t, 0);
  }

  lemma {:induction false} CleanFrom(t: text, i: nat)
    requires SlugShape(t) && i <= |t| <= 32
    ensures SlugFrom(t, i, t[..i], i > 0 && t[i - 1] == HYPHEN) == t
    decreases |t| - i
  {
    if i < |t| {
      assert t[..i] + [t[i]] == t[..i + 1];
      CleanFrom(t, i + 1);
    }
  }

  /** slugify, from the title in lower case. */
  method Slugify(lowered: seq<nat>) returns (slug: text)
    ensures slug == Slug(lowered)
    ensures Follows(lowered, slug) && (|Places(slug)| == |Places(lowered)| || Full(lowered, slug))
  {
    SlugKeeps(lowered);
    hide Follows, Full, Places, ValidId;
    var builder: text := [];
    var lastHyphen, i := false, 0;
    while i < |lowered|
      invariant i <= |lowered|
      invariant SlugFrom(lowered, i, builder, lastHyphen) == SlugFrom(lowered, 0, [], false)
      decreases |lowered| - i
    {
      var character := lowered[i];
      if Alnum(character) {
        if |builder| >= 32 { break; }
        builder, lastHyphen := builder + [character], false;
      } else if |builder| > 0 && !lastHyphen && |builder| < 32 {
        builder, lastHyphen := builder + [HYPHEN], true;
      }
      i := i + 1;
    }
    slug := TrimLeft(TrimRight(builder));
  }

  /** "upload-" system "-" slug, cut to 48 characters. */
  function Identifier(system: text, slug: text): text {
    var id := Text("upload-") + system + [HYPHEN] + slug;
    if |id| > 48 then TrimRight(id[..48]) else id
  }

  lemma JoinedIds(a: text, b: text)
    requires ValidId(a) && ValidId(b) && |a| + 1 + |b| <= 48
    ensures ValidId(a + [HYPHEN] + b)
  {
    var id := a + [HYPHEN] + b;
    IdShape(a);
    IdShape(b);
    IdShape(id);
    forall i | 0 <= i < |id|
      ensures id[i] == if i < |a| then a[i] else if i == |a| then HYPHEN else b[i - |a| - 1]
    {
    }
  }

  /** For a system of at most five letters the identifier is never cut, and the menu takes it. */
  lemma IdentifierValid(system: text, lowered: seq<nat>)
    requires ValidId(system) && |system| <= 5 && Slug(lowered) != []
    ensures Identifier(system, Slug(lowered)) == Text("upload-") + system + [HYPHEN] + Slug(lowered)
    ensures ValidId(Identifier(system, Slug(lowered)))
  {
    SlugIsId(lowered);
    var upload := Text("upload");
    assert ValidId(upload);
    JoinedIds(upload, system);
    JoinedIds(upload + [HYPHEN] + system, Slug(lowered));
    assert Text("upload-") + system == upload + [HYPHEN] + system;
  }
}
