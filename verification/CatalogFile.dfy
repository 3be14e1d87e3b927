/** The catalog file: one game a line, five fields with tabs between them. What the uploader
    writes it reads back, as long as the file keeps within three limits. */
module CatalogFile {

  import opened Basics
  import opened CatalogEntry
  import opened Utf8

  const MAXIMUM_GAMES := 64
  const MAXIMUM_LINE := 4096
  const MAXIMUM_CATALOG := 65536

  datatype Entry = Entry(id: text, title: text, system: text, rom: text, color: text)

  // ------------------------------------------------------------------ writing

  function Line(e: Entry): text {
    e.id + [TAB] + (e.title + [TAB] + (e.system + [TAB] + (e.rom + [TAB] + e.color)))
  }

  /** Lines from the k-th on, each with its end. */
  function LinesFrom(lines: seq<text>, k: nat): text
    requires k <= |lines|
    decreases |lines| - k
  {
    if k == |lines| then [] else lines[k] + [NEWLINE] + LinesFrom(lines, k + 1)
  }

  function Lines(entries: seq<Entry>): (lines: seq<text>)
    ensures |lines| == |entries|
  {
    seq(|entries|, k requires 0 <= k < |entries| => Line(entries[k]))
  }

  /** encodeCatalog. */
  function EncodeCatalog(entries: seq<Entry>): text { LinesFrom(Lines(entries), 0) }

  // ------------------------------------------------------------------ reading

  /** Index of the next c from i on, or the end. */
  function Find(s: text, i: nat, c: byte): (j: nat)
    requires i <= |s|
    ensures i <= j <= |s| && (j < |s| ==> s[j] == c) && c !in s[i..j]
    decreases |s| - i
  {
    if i == |s| || s[i] == c then i
    else
      var j := Find(s, i + 1, c);
      assert s[i..j] == [s[i]] + s[i + 1..j];
      j
  }

  function DropReturn(line: text): text {
    if line != [] && line[|line| - 1] == RETURN then line[..|line| - 1] else line
  }

  /** strings.Split at tabs. */
  function Fields(line: text): (fields: seq<text>)
    ensures fields != []
    decreases |line|
  {
    var tab := Find(line, 0, TAB);
    if tab == |line| then [line] else [line[..tab]] + Fields(line[tab + 1..])
  }

  datatype Item = Skip | Game(entry: Entry) | Malformed

  /** One line: the scanner drops one carriage return, the parser another. */
  function ReadLine(raw: text): Item {
    var line := DropReturn(DropReturn(raw));
    if |raw| > MAXIMUM_LINE then Malformed
    else if line == [] || line[0] == HASH then Skip
    else
      var fields := Fields(line);
      if |fields| != 5 then Malformed
      else Game(Entry(fields[0], fields[1], fields[2], fields[3], fields[4]))
  }

  function Joined(item: Item, rest: Option<seq<Entry>>): Option<seq<Entry>> {
    if item.Malformed? || rest.None? then None
    else if item.Skip? then rest
    else Some([item.entry] + rest.value)
  }

  /** The lines from i on, by what is made of one line. */
  function ReadFrom(s: text, i: nat, read: text -> Item): Option<seq<Entry>>
    decreases |s| - i
  {
    if i >= |s| then Some([])
    else
      var end := Find(s, i, NEWLINE);
      Joined(read(s[i..end]), ReadFrom(s, end + 1, read))
  }

  /** parseCatalog, once the file is read. */
  function ParseCatalog(s: text): Option<seq<Entry>> {
    var entries := ReadFrom(s, 0, ReadLine);
    if |s| > MAXIMUM_CATALOG || entries.None? || |entries.value| > MAXIMUM_GAMES then None else entries
  }

  // -------------------------------------------------------------- lines of a file

  /** The lines of a file, without their ends; the last may lack one. */
  function Raw(s: text): seq<text>
    decreases |s|
  {
    var end := Find(s, 0, NEWLINE);
    if s == [] then [] else if end == |s| then [s] else [s[..end]] + Raw(s[end + 1..])
  }

  function Items(lines: seq<text>, read: text -> Item): Option<seq<Entry>> {
    if lines == [] then Some([]) else Joined(read(lines[0]), Items(lines[1..], read))
  }

  lemma FindAt(s: text, i: nat, n: nat, c: byte)
    requires i + n <= |s| && c !in s[i..i + n] && (i + n == |s| || s[i + n] == c)
    ensures Find(s, i, c) == i + n
  {
  }

  /** Searching the rest of a text finds the same place. */
  lemma FindInRest(s: text, i: nat, c: byte)
    requires i <= |s|
    ensures var end, rest := Find(s, i, c), s[i..];
      && Find(rest, 0, c) == end - i && rest[..end - i] == s[i..end]
      && (if end < |s| then rest[end - i + 1..] == s[end + 1..] else rest == s[i..end])
  {
    var end, rest := Find(s, i, c), s[i..];
    assert rest[0..end - i] == s[i..end];
    FindAt(rest, 0, end - i, c);
  }

  lemma RawFrom(s: text, i: nat)
    requires i < |s|
    ensures var end := Find(s, i, NEWLINE);
      Raw(s[i..]) == [s[i..end]] + (if end < |s| then Raw(s[end + 1..]) else [])
  {
    FindInRest(s, i, NEWLINE);
    RawUnfolds(s[i..]);
  }

  lemma RawUnfolds(s: text)
    requires s != []
    ensures var end := Find(s, 0, NEWLINE); Raw(s) == if end == |s| then [s] else [s[..end]] + Raw(s[end + 1..])
  {
  }

  lemma RawNext(s: text, i: nat)
    requires i < |s|
    ensures var end := Find(s, i, NEWLINE);
      Raw(s[i..]) == [s[i..end]] + Raw(s[if end < |s| then end + 1 else end..])
  {
    RawFrom(s, i);
    assert s[|s|..] == [] && Raw([]) == [];
  }

  lemma ItemsFirst(line: text, lines: seq<text>, read: text -> Item)
    ensures Items([line] + lines, read) == Joined(read(line), Items(lines, read))
  {
    assert ([line] + lines)[1..] == lines;
  }

  /** Reading from the i-th byte on is reading the lines of the rest. */
  lemma {:induction false} ReadsRaw(s: text, i: nat, read: text -> Item)
    requires i <= |s|
    ensures ReadFrom(s, i, read) == Items(Raw(s[i..]), read)
    decreases |s| - i
  {
    if i < |s| {
      var end := Find(s, i, NEWLINE);
      RawFrom(s, i);
      if end < |s| {
        ReadsRaw(s, end + 1, read);
        ItemsFirst(s[i..end], Raw(s[end + 1..]), read);
      } else {
        ItemsFirst(s[i..end], [], read);
      }
    }
  }

  lemma FirstLine(line: text, rest: text)
    requires NEWLINE !in line
    ensures Raw(line + [NEWLINE] + rest) == [line] + Raw(rest)
  {
    var s := line + [NEWLINE] + rest;
    assert s[0..|line|] == line;
    FindAt(s, 0, |line|, NEWLINE);
    assert s[|line| + 1..] == rest && s[..|line|] == line;
  }

  lemma FirstLineJoined(line: text, rest: text, b: text)
    requires NEWLINE !in line
    ensures Raw(line + [NEWLINE] + rest + b) == [line] + Raw(rest + b)
  {
    FirstLine(line, rest + b);
    assert line + [NEWLINE] + (rest + b) == line + [NEWLINE] + rest + b;
  }

  predicate Unbroken(lines: seq<text>) {
    forall j :: 0 <= j < |lines| ==> NEWLINE !in lines[j]
  }

  lemma LinesFromNext(lines: seq<text>, k: nat)
    requires k <= |lines|
    ensures LinesFrom(lines, k) == if k == |lines| then [] else lines[k] + [NEWLINE] + LinesFrom(lines, k + 1)
  {
  }

  lemma {:induction false} LinesAreRaw(lines: seq<text>, k: nat)
    requires k <= |lines| && Unbroken(lines)
    ensures Raw(LinesFrom(lines, k)) == lines[k..]
    decreases |lines| - k
  {
    LinesFromNext(lines, k);
    if k < |lines| {
      hide LinesFrom, Raw;
      LinesAreRaw(lines, k + 1);
      FirstLine(lines[k], LinesFrom(lines, k + 1));
      assert lines[k..] == [lines[k]] + lines[k + 1..];
    }
  }

  predicate Ended(a: text) { a == [] || a[|a| - 1] == NEWLINE }

  lemma CutFirst(a: text) returns (line: text, rest: text)
    requires a != [] && Ended(a)
    ensures a == line + [NEWLINE] + rest && NEWLINE !in line && Ended(rest)
  {
    var end := Find(a, 0, NEWLINE);
    line, rest := a[..end], a[end + 1..];
    assert a[0..end] == line;
  }

  /** A file that ends its last line can be continued with another. */
  lemma {:induction false} RawJoins(a: text, b: text)
    requires Ended(a)
    ensures Raw(a + b) == Raw(a) + Raw(b)
    decreases |a|
  {
    if a == [] {
      assert a + b == b;
    } else {
      var line, rest := CutFirst(a);
      RawJoins(rest, b);
      FirstLine(line, rest);
      FirstLineJoined(line, rest, b);
      Joins([line], Raw(rest), Raw(b));
    }
  }

  // --------------------------------------------------------------- round trip

  predicate PlainField(f: text) { TAB !in f && NEWLINE !in f }

  /** Entries whose line is one line of five fields. */
  predicate Fielded(e: Entry) {
    && PlainField(e.id) && PlainField(e.title) && PlainField(e.system) && PlainField(e.rom) && PlainField(e.color)
    && (e.id == [] || e.id[0] != HASH)
  }

  /** Entries whose line says what they are. */
  predicate Plain(e: Entry) {
    Fielded(e) && (e.color == [] || e.color[|e.color| - 1] != RETURN)
  }

  predicate AllPlain(entries: seq<Entry>) {
    forall k :: 0 <= k < |entries| ==> Plain(entries[k])
  }

  predicate AllFielded(entries: seq<Entry>) {
    forall k :: 0 <= k < |entries| ==> Fielded(entries[k])
  }

  lemma FirstField(f: text, rest: text)
    requires TAB !in f
    ensures Fields(f + [TAB] + rest) == [f] + Fields(rest)
  {
    var line := f + [TAB] + rest;
    assert line[0..|f|] == f;
    FindAt(line, 0, |f|, TAB);
    assert line[..|f|] == f && line[|f| + 1..] == rest;
  }

  lemma LastField(f: text)
    requires TAB !in f
    ensures Fields(f) == [f]
  {
  }

  lemma LineFields(e: Entry)
    requires PlainField(e.id) && PlainField(e.title) && PlainField(e.system) && PlainField(e.rom) && PlainField(e.color)
    ensures Fields(Line(e)) == [e.id, e.title, e.system, e.rom, e.color]
  {
    var fromRom := e.rom + [TAB] + e.color;
    var fromSystem := e.system + [TAB] + fromRom;
    var fromTitle := e.title + [TAB] + fromSystem;
    LastField(e.color);
    FirstField(e.rom, e.color);
    FirstField(e.system, fromRom);
    FirstField(e.title, fromSystem);
    FirstField(e.id, fromTitle);
    FiveFields(e.id, e.title, e.system, e.rom, e.color);
  }

  lemma FiveFields(a: text, b: text, c: text, d: text, e: text)
    ensures [a] + ([b] + ([c] + ([d] + [e]))) == [a, b, c, d, e]
  {
  }

  lemma LineEnds(e: Entry)
    requires Fielded(e)
    ensures Line(e) != [] && Line(e)[0] != HASH && NEWLINE !in Line(e)
  {
  }

  /** A carriage return at the end of a line is one at the end of the colour. */
  lemma LineReturn(e: Entry)
    ensures DropReturn(Line(e)) == Line(e.(color := DropReturn(e.color)))
  {
    var head := e.id + [TAB] + (e.title + [TAB] + (e.system + [TAB] + (e.rom + [TAB])));
    assert Line(e) == head + e.color;
    assert Line(e.(color := DropReturn(e.color))) == head + DropReturn(e.color);
  }

  function Dropped(e: Entry): Entry { e.(color := DropReturn(DropReturn(e.color))) }

  /** The line of an entry is read as that entry, if it is not too long, without carriage
      returns at its end. */
  lemma LineReads(e: Entry)
    requires Fielded(e)
    ensures ReadLine(Line(e)) == if |Line(e)| <= MAXIMUM_LINE then Game(Dropped(e)) else Malformed
  {
    LineReturn(e);
    LineReturn(e.(color := DropReturn(e.color)));
    LineEnds(Dropped(e));
    LineFields(Dropped(e));
  }

  predicate ShortLines(lines: seq<text>) {
    forall j :: 0 <= j < |lines| ==> |lines[j]| <= 4096
  }

  lemma {:induction false} ItemsAre(lines: seq<text>, entries: seq<Entry>, read: text -> Item)
    requires |lines| == |entries|
    requires forall j :: 0 <= j < |lines| ==>
      read(lines[j]) == if |lines[j]| <= MAXIMUM_LINE then Game(entries[j]) else Malformed
    ensures Items(lines, read) == if ShortLines(lines) then Some(entries) else None
  {
    if lines != [] {
      ItemsAre(lines[1..], entries[1..], read);
      assert entries == [entries[0]] + entries[1..];
      assert ShortLines(lines) <==> |lines[0]| <= MAXIMUM_LINE && ShortLines(lines[1..]) by {
        assert forall j :: 0 < j < |lines| ==> lines[j] == lines[1..][j - 1];
      }
    }
  }

  /** Within all three limits. */
  predicate Storable(entries: seq<Entry>) {
    && |entries| <= 64 && ShortLines(Lines(entries)) && |EncodeCatalog(entries)| <= 65536
  }

  function AllDropped(entries: seq<Entry>): (r: seq<Entry>)
    ensures |r| == |entries|
  {
    seq(|entries|, k requires 0 <= k < |entries| => Dropped(entries[k]))
  }

  lemma FieldedUnbroken(entries: seq<Entry>)
    requires AllFielded(entries)
    ensures Unbroken(Lines(entries)) && Raw(EncodeCatalog(entries)) == Lines(entries)
  {
    var lines := Lines(entries);
    forall j | 0 <= j < |entries| ensures NEWLINE !in lines[j] {
      LineEnds(entries[j]);
    }
    LinesAreRaw(lines, 0);
    assert lines[0..] == lines;
  }

  lemma FieldedRead(entries: seq<Entry>)
    requires AllFielded(entries)
    ensures ParseCatalog(EncodeCatalog(entries)) == if Storable(entries) then Some(AllDropped(entries)) else None
  {
    var s, lines := EncodeCatalog(entries), Lines(entries);
    FieldedUnbroken(entries);
    forall j | 0 <= j < |entries|
      ensures ReadLine(lines[j]) == if |lines[j]| <= MAXIMUM_LINE then Game(AllDropped(entries)[j]) else Malformed
    {
      LineReads(entries[j]);
    }
    assert s[0..] == s;
    ReadsRaw(s, 0, ReadLine);
    ItemsAre(lines, AllDropped(entries), ReadLine);
  }

  /** Fields come without tabs and ends of line. */
  lemma {:induction false} FieldsPlain(line: text)
    requires NEWLINE !in line
    ensures forall f :: f in Fields(line) ==> PlainField(f)
    ensures Fields(line)[0] <= line
    decreases |line|
  {
    var tab := Find(line, 0, TAB);
    assert line[0..tab] == line[..tab];
    if tab < |line| {
      FieldsPlain(line[tab + 1..]);
      forall f | f in Fields(line) ensures PlainField(f) {
        assert f == line[..tab] || f in Fields(line[tab + 1..]);
      }
    }
  }

  lemma ReadFielded(raw: text)
    requires NEWLINE !in raw && ReadLine(raw).Game?
    ensures Fielded(ReadLine(raw).entry)
  {
    var line := DropReturn(DropReturn(raw));
    FieldsPlain(line);
    var fields := Fields(line);
    assert forall k :: 0 <= k < 5 ==> fields[k] in fields;
  }

  lemma {:induction false} RawUnbroken(s: text)
    ensures Unbroken(Raw(s))
    decreases |s|
  {
    var end := Find(s, 0, NEWLINE);
    assert s[0..end] == s[..end];
    if end < |s| {
      RawUnbroken(s[end + 1..]);
      assert Raw(s) == [s[..end]] + Raw(s[end + 1..]);
    } else if s != [] {
      assert Raw(s) == [s];
    }
  }

  lemma {:induction false} ItemsFielded(lines: seq<text>)
    requires Unbroken(lines) && Items(lines, ReadLine).Some?
    ensures AllFielded(Items(lines, ReadLine).value)
  {
    if lines != [] {
      assert forall j :: 0 < j < |lines| ==> lines[1..][j - 1] == lines[j];
      ItemsFielded(lines[1..]);
      if ReadLine(lines[0]).Game? {
        ReadFielded(lines[0]);
      }
    }
  }

  /** Whatever is read consists of fields. */
  lemma ParsedFielded(s: text)
    requires ParseCatalog(s).Some?
    ensures AllFielded(ParseCatalog(s).value)
  {
    assert s[0..] == s;
    ReadsRaw(s, 0, ReadLine);
    RawUnbroken(s);
    ItemsFielded(Raw(s));
  }

  /** What is written is read back exactly if every line says what its entry is and the file is
      within the limits. */
  lemma CatalogRoundTrip(entries: seq<Entry>)
    ensures ParseCatalog(EncodeCatalog(entries)) == Some(entries) <==> AllPlain(entries) && Storable(entries)
    ensures AllPlain(entries) && !Storable(entries) ==> ParseCatalog(EncodeCatalog(entries)) == None
  {
    if ParseCatalog(EncodeCatalog(entries)) == Some(entries) {
      ParsedFielded(EncodeCatalog(entries));
      FieldedRead(entries);
      forall k | 0 <= k < |entries| ensures Plain(entries[k]) {
        assert AllDropped(entries)[k] == entries[k];
      }
    } else if AllPlain(entries) {
      FieldedRead(entries);
      assert AllDropped(entries) == entries;
    }
  }

  // ---------------------------------------------------------------- the loops

  method WriteCatalog(entries: seq<Entry>) returns (contents: text)
    ensures contents == EncodeCatalog(entries)
  {
    contents := [];
    for i := 0 to |entries|
      invariant contents + LinesFrom(Lines(entries), i) == EncodeCatalog(entries)
    {
      JoinsLine(contents, Line(entries[i]), LinesFrom(Lines(entries), i + 1));
      contents := contents + Line(entries[i]) + [NEWLINE];
    }
    assert contents + [] == contents;
  }

  lemma JoinsLine(a: text, b: text, c: text)
    ensures a + (b + [NEWLINE] + c) == a + b + [NEWLINE] + c
  {
  }

  /** The entries of the lines before i. */
  predicate ReadSoFar(s: text, i: nat, read: text -> Item, entries: seq<Entry>) {
    (ReadFrom(s, 0, read) == Prefixed(entries, ReadFrom(s, i, read))) == true
  }

  lemma ReadStep(s: text, i: nat, read: text -> Item, entries: seq<Entry>)
    requires i < |s| && ReadSoFar(s, i, read, entries)
    ensures var end := Find(s, i, NEWLINE);
      match read(s[i..end])
      case Malformed => ReadFrom(s, 0, read).None?
      case Skip => ReadSoFar(s, end + 1, read, entries)
      case Game(e) => ReadSoFar(s, end + 1, read, entries + [e])
  {
    var end := Find(s, i, NEWLINE);
    var rest := ReadFrom(s, end + 1, read);
    if rest.Some? && read(s[i..end]).Game? {
      var e := read(s[i..end]).entry;
      assert entries + ([e] + rest.value) == entries + [e] + rest.value;
    }
  }

  method ReadCatalog(contents: text) returns (result: Option<seq<Entry>>)
    ensures result == ParseCatalog(contents)
  {
    if |contents| > MAXIMUM_CATALOG { return None; }
    result := ReadGames(contents, ReadLine);
  }

  /** The scanner's loop, for any reading of a line. */
  method ReadGames(contents: text, read: text -> Item) returns (result: Option<seq<Entry>>)
    ensures var entries := ReadFrom(contents, 0, read);
      result == if entries.None? || |entries.value| > MAXIMUM_GAMES then None else entries
  {
    var entries: seq<Entry> := [];
    var i := 0;
    FromStart(contents, read);
    while i < |contents|
      invariant ReadSoFar(contents, i, read, entries) && |entries| <= MAXIMUM_GAMES
      decreases |contents| - i
    {
      ReadStep(contents, i, read, entries);
      var end := Find(contents, i, NEWLINE);
      var item := read(contents[i..end]);
      i := end + 1;
      if item.Malformed? { return None; }
      if item.Game? {
        entries := entries + [item.entry];
        if |entries| > MAXIMUM_GAMES { return None; }
      }
    }
    assert entries + [] == entries;
    result := Some(entries);
  }

  lemma FromStart(s: text, read: text -> Item)
    ensures ReadSoFar(s, 0, read, [])
  {
    var all := ReadFrom(s, 0, read);
    assert all.Some? ==> [] + all.value == all.value;
  }
}
