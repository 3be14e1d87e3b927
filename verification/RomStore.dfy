/** The store of uploaded games: a catalog file of its own beside the built-in one, and the
    game data in a tree of files. Every game it adds is one the menu takes. */
module RomStore {

  import opened Basics
  import opened CatalogEntry
  import opened CatalogFile
  import opened CatalogSort
  import opened Manifest
  import opened Utf8
  import Rom
  import Sorting

  datatype SystemSpec = SystemSpec(extension: text, color: text)

  const NES := SystemSpec(Text(".nes"), Text("#FF5F00"))
  const GAME_BOY := SystemSpec(Text(".gb"), Text("#87AF87"))
  const GAME_BOY_COLOR := SystemSpec(Text(".gbc"), Text("#5F87D7"))
  const SPECTRUM := SystemSpec(Text(".tap"), Text("#AF87D7"))
  const CHIP8 := SystemSpec(Text(".ch8"), Text("#5FD7D7"))

  /** supportedSystems. */
  function SpecOf(system: text): Option<SystemSpec> {
    if system == Text("nes") then Some(NES)
    else if system == Text("gb") then Some(GAME_BOY)
    else if system == Text("gbc") then Some(GAME_BOY_COLOR)
    else if system == Text("zx") then Some(SPECTRUM)
    else if system == Text("chip8") then Some(CHIP8)
    else None
  }

  // ------------------------------------------------------------------ a new game

  /** A request to add: what the form says, the title in lower case, the data if the upload
      can be unpacked, and whether the catalog file can be written. */
  datatype Request = Request(system: text, title: text, lowered: seq<nat>, data: Option<seq<byte>>, saved: bool)

  function PathOf(root: text, system: text, slug: text, extension: text): text {
    root + [SLASH] + system + [SLASH] + slug + extension
  }

  function NewEntry(root: text, r: Request): Entry
    requires SpecOf(r.system).Some?
  {
    var spec, slug := SpecOf(r.system).value, Slug(r.lowered);
    Entry(Identifier(r.system, slug), r.title, r.system, PathOf(root, r.system, slug, spec.extension), spec.color)
  }

  /** A game is called after its system and its title's slug, in the catalog and in the tree of files. */
  lemma NewEntryIs(root: text, r: Request)
    requires SpecOf(r.system).Some? && Slug(r.lowered) != []
    ensures var e, slug := NewEntry(root, r), Slug(r.lowered);
      && e.title == r.title && e.system == r.system && e.color == SpecOf(r.system).value.color
      && e.id == Text("upload-") + r.system + [HYPHEN] + slug
      && e.rom == root + [SLASH] + r.system + [SLASH] + slug + SpecOf(r.system).value.extension
  {
    SystemIsId(r.system);
    IdentifierValid(r.system, r.lowered);
  }

  lemma JoinedParts(front: text, a: text, x: text, separator: byte)
    requires separator !in a
    ensures var joined, end := front + a + [separator] + x, |front| + |a|;
      && |joined| == end + 1 + |x|
      && joined[|front|..end] == a && joined[end] == separator && joined[end + 1..] == x
      && forall i :: |front| <= i < end ==> joined[i] != separator
  {
  }

  lemma JoinedOnce(front: text, a: text, x: text, b: text, y: text, separator: byte)
    requires separator !in a && separator !in b
    requires front + a + [separator] + x == front + b + [separator] + y
    ensures a == b && x == y
  {
    JoinedParts(front, a, x, separator);
    JoinedParts(front, b, y, separator);
  }

  lemma SystemIsName(system: text)
    requires SpecOf(system).Some?
    ensures HYPHEN !in system && SLASH !in system
  {
  }

  /** Two games clash exactly if they are for one system and their titles have one slug. */
  lemma SameNames(root: text, a: Request, b: Request)
    requires SpecOf(a.system).Some? && SpecOf(b.system).Some? && Slug(a.lowered) != [] && Slug(b.lowered) != []
    ensures NewEntry(root, a).id == NewEntry(root, b).id
       <==> a.system == b.system && Slug(a.lowered) == Slug(b.lowered)
    ensures NewEntry(root, a).rom == NewEntry(root, b).rom
       <==> a.system == b.system && Slug(a.lowered) == Slug(b.lowered)
  {
    NewEntryIs(root, a);
    NewEntryIs(root, b);
    SystemIsName(a.system);
    SystemIsName(b.system);
    hide NewEntry, SpecOf, Slug;
    if NewEntry(root, a).id == NewEntry(root, b).id {
      JoinedOnce(Text("upload-"), a.system, Slug(a.lowered), b.system, Slug(b.lowered), HYPHEN);
    }
    if NewEntry(root, a).rom == NewEntry(root, b).rom {
      SameFile(root + [SLASH], a.system, Slug(a.lowered), SpecOf(a.system).value.extension,
               b.system, Slug(b.lowered), SpecOf(b.system).value.extension);
    }
  }

  lemma SameFile(front: text, a: text, x: text, e: text, b: text, y: text, e': text)
    requires SLASH !in a && SLASH !in b && (a == b ==> e == e')
    requires front + a + [SLASH] + x + e == front + b + [SLASH] + y + e'
    ensures a == b && x == y
  {
    Joins(front + a + [SLASH], x, e);
    Joins(front + b + [SLASH], y, e');
    JoinedOnce(front, a, x + e, b, y + e', SLASH);
    assert (x + e)[..|x|] == x && (y + e)[..|y|] == y;
  }

  /** The form is acceptable. */
  predicate FormFine(r: Request) {
    && ValidTitle(r.title) && SpecOf(r.system).Some? && Slug(r.lowered) != []
    && r.data.Some? && Rom.Playable(r.system, r.data.value) && |r.data.value| <= Rom.Maximum(r.system)
  }

  predicate Clashes(entries: seq<Entry>, e: Entry) {
    exists i :: 0 <= i < |entries| && (entries[i].id == e.id || entries[i].rom == e.rom)
  }

  /** A directory for games that leaves room for the names of the games in it. */
  predicate RootFine(root: text) {
    (&& Accepted(root, PATH_MAX, false) && |root| < PATH_MAX - 64
     && root[0] == SLASH && TAB !in root && NEWLINE !in root) == true
  }

  // ----------------------------------------- every game added is one the menu takes

  lemma OrangeIsXterm()
    ensures MenuColor(Text("#FF5F00"))
  {
    assert Text("#FF5F00") == [35, 70, 70, 53, 70, 48, 48];
    assert XtermColor(202) == Rgb(255, 95, 0);
  }

  lemma GreenIsXterm()
    ensures MenuColor(Text("#87AF87"))
  {
    assert Text("#87AF87") == [35, 56, 55, 65, 70, 56, 55];
    assert XtermColor(108) == Rgb(135, 175, 135);
  }

  lemma BlueIsXterm()
    ensures MenuColor(Text("#5F87D7"))
  {
    assert Text("#5F87D7") == [35, 53, 70, 56, 55, 68, 55];
    assert XtermColor(68) == Rgb(95, 135, 215);
  }

  lemma VioletIsXterm()
    ensures MenuColor(Text("#AF87D7"))
  {
    assert Text("#AF87D7") == [35, 65, 70, 56, 55, 68, 55];
    assert XtermColor(140) == Rgb(175, 135, 215);
  }

  lemma CyanIsXterm()
    ensures MenuColor(Text("#5FD7D7"))
  {
    assert Text("#5FD7D7") == [35, 53, 70, 68, 55, 68, 55];
    assert XtermColor(80) == Rgb(95, 215, 215);
  }

  lemma ColorTaken(system: text)
    requires SpecOf(system).Some?
    ensures MenuColor(SpecOf(system).value.color)
  {
    OrangeIsXterm();
    GreenIsXterm();
    BlueIsXterm();
    VioletIsXterm();
    CyanIsXterm();
  }

  lemma SystemIsId(system: text)
    requires SpecOf(system).Some?
    ensures ValidId(system) && |system| <= 5 && PrintableAscii(system)
  {
  }

  lemma ExtensionIsShort(system: text)
    requires SpecOf(system).Some?
    ensures PrintableAscii(SpecOf(system).value.extension) && 0 < |SpecOf(system).value.extension| <= 4
    ensures |SpecOf(system).value.color| == 7
  {
  }

  predicate PrintableAscii(t: text) {
    forall i :: 0 <= i < |t| ==> 0x20 < t[i] < 0x7f
  }

  lemma {:induction false} AsciiEncodes(t: text)
    requires PrintableAscii(t)
    ensures Encodable(t) && EncodeAll(t) == t
  {
    if t != [] {
      assert forall i :: 0 <= i < |t[1..]| ==> t[1..][i] == t[i + 1];
      AsciiEncodes(t[1..]);
      assert t == [t[0]] + t[1..];
    }
  }

  lemma {:induction false} NoMoreCodes(codes: seq<nat>)
    requires Encodable(codes)
    ensures |codes| <= |EncodeAll(codes)|
  {
    if codes != [] {
      NoMoreCodes(codes[1..]);
    }
  }

  /** A text goes on being one when printable characters follow. */
  lemma AsciiFollows(t: text, tail: text, n: nat)
    requires Accepted(t, n, false) && PrintableAscii(tail)
    ensures Accepted(t + tail, |t| + |tail|, false)
  {
    var codes := CodesFrom(t, 0).value;
    assert t[0..] == t;
    ReadIsEncoded(t, 0);
    AsciiEncodes(tail);
    EncodeJoins(codes, tail);
    NoMoreCodes(codes);
    var all := codes + tail;
    assert (t + tail)[0..] == EncodeAll(all);
    forall i | 0 <= i < |all| ensures Scalar(all[i]) && all[i] >= 0x20 && all[i] != 0x7f {
      if i < |codes| {
        assert all[i] == codes[i];
      }
    }
    EncodedIsRead(t + tail, 0, all);
  }

  lemma PathTaken(root: text, system: text, slug: text, extension: text)
    requires RootFine(root) && |system| <= 5 && |slug| <= 32 && 0 < |extension| <= 4
    requires PrintableAscii(system) && PrintableAscii(slug) && PrintableAscii(extension)
    ensures var path := PathOf(root, system, slug, extension);
      MenuPath(path) && PlainField(path)
  {
    var tail := [SLASH] + system + [SLASH] + slug + extension;
    var path := PathOf(root, system, slug, extension);
    assert path == root + tail;
    AsciiFollows(root, tail, PATH_MAX);
    assert path[0] == root[0] && path[|path| - 1] == extension[|extension| - 1];
    FewerAccepted(path, |path|, PATH_MAX - 1);
  }

  lemma FewerAccepted(t: text, m: nat, n: nat)
    requires Accepted(t, m, false) && m <= n
    ensures Accepted(t, n, false)
  {
  }

  lemma IdIsPrintable(id: text)
    requires ValidId(id)
    ensures PrintableAscii(id)
  {
    forall i | 0 <= i < |id| ensures 0x20 < id[i] < 0x7f {
      assert Fits(id, i);
    }
  }

  /** Every game the store adds passes the menu's checks, and its line says what it is. */
  lemma NewEntryTaken(root: text, r: Request)
    requires RootFine(root) && FormFine(r)
    ensures MenuTakes(NewEntry(root, r)) && Plain(NewEntry(root, r))
  {
    var slug := Slug(r.lowered);
    TitleAccepted(r.title);
    SystemIsId(r.system);
    ExtensionIsShort(r.system);
    ColorTaken(r.system);
    SlugIsId(r.lowered);
    IdentifierValid(r.system, r.lowered);
    IdIsPrintable(slug);
    IdIsPrintable(NewEntry(root, r).id);
    PathTaken(root, r.system, slug, SpecOf(r.system).value.extension);
    ColorIsPlain(r.system);
    assert Fits(NewEntry(root, r).id, 0);
  }

  const LINE_ROOM := 400

  lemma {:induction false} FourEach(codes: seq<nat>)
    requires Encodable(codes)
    ensures |EncodeAll(codes)| <= 4 * |codes|
  {
    if codes != [] {
      FourEach(codes[1..]);
    }
  }

  lemma TitleIsShort(title: text)
    requires ValidTitle(title)
    ensures |title| <= 256
  {
    assert title[0..] == title;
    ReadIsEncoded(title, 0);
    FourEach(CodesFrom(title, 0).value);
  }

  lemma NewEntrySize(root: text, r: Request)
    requires FormFine(r)
    ensures |Line(NewEntry(root, r))| <= |root| + LINE_ROOM
  {
    hide ValidTitle, SpecOf, PrintableAscii, ValidId, Identifier, Slug;
    TitleIsShort(r.title);
    SystemIsId(r.system);
    ExtensionIsShort(r.system);
    SlugIsId(r.lowered);
    IdentifierValid(r.system, r.lowered);
  }

  lemma ColorIsPlain(system: text)
    requires SpecOf(system).Some?
    ensures PrintableAscii(SpecOf(system).value.color)
  {
  }

  // ------------------------------------------------------------ both catalogs

  /** What the menu demands of the games of both catalogs together. */
  ghost predicate Catalogued(base: seq<Entry>, uploads: seq<Entry>) {
    (|base| + |uploads| <= MAXIMUM_GAMES && Apart(base + uploads)) == true
  }

  lemma ApartParts(a: seq<Entry>, b: seq<Entry>)
    ensures Apart(a + b) <==>
      Apart(a) && Apart(b) && forall x, y :: x in a && y in b ==> x.id != y.id && x.rom != y.rom
  {
    var all := a + b;
    if Apart(all) {
      forall x, y | x in a && y in b ensures x.id != y.id && x.rom != y.rom {
        var i :| 0 <= i < |a| && a[i] == x;
        var j :| 0 <= j < |b| && b[j] == y;
        assert all[i] == x && all[|a| + j] == y;
      }
      assert forall i :: 0 <= i < |b| ==> all[|a| + i] == b[i];
      assert forall i :: 0 <= i < |a| ==> all[i] == a[i];
    }
  }

  lemma ClashesMeans(entries: seq<Entry>, e: Entry)
    requires !Clashes(entries, e)
    ensures forall x :: x in entries ==> x.id != e.id && x.rom != e.rom
  {
  }

  /** Adding a game that clashes with none, and sorting, keeps both catalogs free of repeats. */
  lemma StaysCatalogued(base: seq<Entry>, uploads: seq<Entry>, e: Entry)
    requires |base| + |uploads| < MAXIMUM_GAMES && !Clashes(base + uploads, e)
    ensures Catalogued(base, uploads) ==> Catalogued(base, Arranged(uploads + [e]))
  {
    if Catalogued(base, uploads) {
      ApartParts(base, uploads);
      ApartParts(uploads, [e]);
      ClashesMeans(base + uploads, e);
      ArrangedApart(uploads + [e]);
      forall x, y | x in base && y in Arranged(uploads + [e]) ensures x.id != y.id && x.rom != y.rom {
        ArrangedHolds(uploads + [e], y);
      }
      ApartParts(base, Arranged(uploads + [e]));
    }
  }

  /** Games that the menu takes and whose lines say what they are. */
  ghost predicate AllFine(root: text, entries: seq<Entry>) {
    (forall k :: 0 <= k < |entries| ==> Fine(root, entries[k])) == true
  }

  ghost predicate Fine(root: text, e: Entry) {
    Plain(e) && MenuTakes(e) && |Line(e)| <= |root| + LINE_ROOM
  }

  lemma StaysFine(root: text, uploads: seq<Entry>, e: Entry)
    requires AllFine(root, uploads) && Fine(root, e)
    ensures AllFine(root, Arranged(uploads + [e]))
  {
    var s := Arranged(uploads + [e]);
    forall k | 0 <= k < |s|
      ensures Fine(root, s[k])
    {
      ArrangedHolds(uploads + [e], s[k]);
    }
  }

  lemma {:induction false} LinesSize(lines: seq<text>, k: nat, most: nat)
    requires k <= |lines| && forall j :: 0 <= j < |lines| ==> |lines[j]| < most
    ensures |LinesFrom(lines, k)| <= (|lines| - k) * most
    decreases |lines| - k
  {
    if k < |lines| {
      LinesSize(lines, k + 1, most);
      assert (|lines| - k) * most == (|lines| - (k + 1)) * most + most;
    }
  }

  lemma FineSize(root: text, uploads: seq<Entry>)
    requires AllFine(root, uploads)
    ensures |EncodeCatalog(uploads)| <= |uploads| * (|root| + LINE_ROOM + 1)
    ensures |root| + LINE_ROOM <= MAXIMUM_LINE ==> ShortLines(Lines(uploads))
  {
    forall j | 0 <= j < |uploads| ensures |Lines(uploads)[j]| <= |root| + LINE_ROOM {
      assert Fine(root, uploads[j]);
    }
    LinesSize(Lines(uploads), 0, |root| + LINE_ROOM + 1);
  }

  /** Below a short enough directory the catalog of up to 64 games is always read back. */
  lemma ShortRootStorable(root: text, uploads: seq<Entry>)
    requires AllFine(root, uploads) && |root| <= 600 && |uploads| <= MAXIMUM_GAMES
    ensures Storable(uploads)
  {
    FineSize(root, uploads);
    MulUp(|root| + LINE_ROOM + 1, |uploads|, MAXIMUM_GAMES);
  }

  // ---------------------------------------------------- one more game, exactly

  function LineRoom(e: Entry): nat { |Line(e)| + 1 }

  lemma {:induction false} SizeIsSum(s: seq<Entry>, k: nat)
    requires k <= |s|
    ensures |LinesFrom(Lines(s), k)| + Sorting.Sum(s[..k], LineRoom) == Sorting.Sum(s, LineRoom)
    decreases |s| - k
  {
    if k == |s| {
      assert s[..k] == s;
    } else {
      SizeIsSum(s, k + 1);
      assert s[..k + 1] == s[..k] + [s[k]];
      Sorting.SumNext(s[..k], s[k], LineRoom);
    }
  }

  lemma NextSize(uploads: seq<Entry>, e: Entry)
    ensures |EncodeCatalog(Arranged(uploads + [e]))| == |EncodeCatalog(uploads)| + |Line(e)| + 1
  {
    SizeIsSum(uploads, 0);
    SizeIsSum(Arranged(uploads + [e]), 0);
    Sorting.SortSum(uploads + [e], ORDER, LineRoom);
    Sorting.SumNext(uploads, e, LineRoom);
  }

  lemma ShortMeans(entries: seq<Entry>)
    ensures ShortLines(Lines(entries)) <==> forall x :: x in entries ==> |Line(x)| <= MAXIMUM_LINE
  {
    assert forall k :: 0 <= k < |entries| ==> entries[k] in entries && Lines(entries)[k] == Line(entries[k]);
  }

  /** A readable catalog stays so with one more game exactly if its line is not too long and
      fits in the file. */
  lemma NextReadable(uploads: seq<Entry>, e: Entry)
    requires Storable(uploads) && |uploads| < MAXIMUM_GAMES
    ensures Storable(Arranged(uploads + [e])) <==>
      |Line(e)| <= MAXIMUM_LINE && |EncodeCatalog(uploads)| + |Line(e)| + 1 <= MAXIMUM_CATALOG
  {
    NextSize(uploads, e);
    ShortMeans(uploads);
    ShortMeans(Arranged(uploads + [e]));
    forall x ensures x in Arranged(uploads + [e]) <==> x in uploads || x == e {
      ArrangedHolds(uploads + [e], x);
    }
  }

  /** The upload catalog, if there is one, is the file of these games. */
  ghost predicate Lists(root: text, catalog: Option<text>, uploads: seq<Entry>) {
    (&& AllFine(root, uploads)
     && (if catalog.None? then uploads == [] else catalog.value == EncodeCatalog(uploads))) == true
  }

  lemma StaysListed(root: text, catalog: Option<text>, uploads: seq<Entry>, e: Entry)
    requires Lists(root, catalog, uploads) && Fine(root, e)
    ensures Lists(root, Some(EncodeCatalog(Arranged(uploads + [e]))), Arranged(uploads + [e]))
    ensures Sorted(Arranged(uploads + [e]))
  {
    StaysFine(root, uploads, e);
    SortSorts(uploads + [e]);
  }

  /** All the data there was is there still. */
  ghost predicate Kept(was: map<text, seq<byte>>, now: map<text, seq<byte>>) {
    (forall path :: path in was ==> path in now && now[path] == was[path]) == true
  }

  lemma StaysKept(a: map<text, seq<byte>>, b: map<text, seq<byte>>, c: map<text, seq<byte>>)
    requires Kept(a, b) && Kept(b, c)
    ensures Kept(a, c)
  {
  }

  // ------------------------------------------------------------ series of requests

  /** The uploads there are: their entries and the files of game data. */
  datatype Shelf = Shelf(uploads: seq<Entry>, files: map<text, seq<byte>>)

  /** What lets a request through. */
  ghost predicate Admitted(root: text, base: text, s: Shelf, r: Request) {
    (&& FormFine(r) && ParseCatalog(base).Some? && Storable(s.uploads)
     && |ParseCatalog(base).value| + |s.uploads| < MAXIMUM_GAMES
     && !Clashes(ParseCatalog(base).value + s.uploads, NewEntry(root, r))
     && NewEntry(root, r).rom !in s.files && r.saved) == true
  }

  /** The shelf with a game more. */
  function Placed(s: Shelf, e: Entry, data: seq<byte>): Shelf {
    Shelf(Arranged(s.uploads + [e]), s.files[e.rom := data])
  }

  ghost function AddedTo(root: text, base: text, s: Shelf, r: Request): Shelf {
    if Admitted(root, base, s, r) then Placed(s, NewEntry(root, r), r.data.value) else s
  }

  ghost function AddedAll(root: text, base: text, s: Shelf, requests: seq<Request>): Shelf {
    if requests == [] then s
    else AddedTo(root, base, AddedAll(root, base, s, requests[..|requests| - 1]), requests[|requests| - 1])
  }

  /** The data of every upload is there, and the menu can play it. */
  ghost predicate Stored(files: map<text, seq<byte>>, uploads: seq<Entry>) {
    (forall k :: 0 <= k < |uploads| ==> RomThere(files, uploads[k])) == true
  }

  /** The uploads and the games the menu was built with meet its demands together, and the
      data of the uploads is there. */
  ghost predicate Orderly(root: text, games: seq<Entry>, s: Shelf) {
    (&& RootFine(root) && AllFine(root, s.uploads) && Stored(s.files, s.uploads)
     && Catalogued(games, s.uploads)) == true
  }

  /** If the uploader can read the built-in file at all, it reads those games at its end. */
  ghost predicate EndsIn(base: text, games: seq<Entry>) {
    (var read := ParseCatalog(base);
     read.Some? ==> |games| <= |read.value| && read.value[|read.value| - |games|..] == games) == true
  }

  lemma FewerClash(read: seq<Entry>, games: seq<Entry>, uploads: seq<Entry>, e: Entry)
    requires |games| <= |read| && read[|read| - |games|..] == games && !Clashes(read + uploads, e)
    ensures !Clashes(games + uploads, e)
  {
    var all, part, shift := read + uploads, games + uploads, |read| - |games|;
    assert forall k :: 0 <= k < |part| ==> part[k] == all[shift + k];
  }

  lemma NewEntryFine(root: text, r: Request)
    requires RootFine(root) && FormFine(r)
    ensures Fine(root, NewEntry(root, r))
  {
    NewEntryTaken(root, r);
    NewEntrySize(root, r);
  }

  lemma StaysStored(files: map<text, seq<byte>>, uploads: seq<Entry>, e: Entry, data: seq<byte>)
    requires Stored(files, uploads) && e.rom !in files && Rom.Playable(e.system, data)
    ensures Stored(files[e.rom := data], Arranged(uploads + [e]))
  {
    var s := Arranged(uploads + [e]);
    forall k | 0 <= k < |s| ensures RomThere(files[e.rom := data], s[k]) {
      ArrangedHolds(uploads + [e], s[k]);
    }
  }

  lemma PlacedKeeps(root: text, games: seq<Entry>, s: Shelf, e: Entry, data: seq<byte>)
    requires Orderly(root, games, s) && Fine(root, e) && e.rom !in s.files && Rom.Playable(e.system, data)
    requires |games| + |s.uploads| < MAXIMUM_GAMES && !Clashes(games + s.uploads, e)
    ensures Orderly(root, games, Placed(s, e, data)) && Kept(s.files, Placed(s, e, data).files)
  {
    hide Apart, Arranged, Stored, AllFine, Fine, RomThere, Clashes;
    StaysFine(root, s.uploads, e);
    StaysStored(s.files, s.uploads, e, data);
    StaysCatalogued(games, s.uploads, e);
  }

  lemma AdmittedKeeps(root: text, base: text, games: seq<Entry>, s: Shelf, r: Request)
    requires Orderly(root, games, s) && EndsIn(base, games) && Admitted(root, base, s, r)
    requires Fine(root, NewEntry(root, r))
    ensures Orderly(root, games, AddedTo(root, base, s, r)) && Kept(s.files, AddedTo(root, base, s, r).files)
    ensures Sorted(AddedTo(root, base, s, r).uploads)
  {
    assert NewEntry(root, r).system == r.system;
    hide NewEntry, SpecOf, Clashes, ParseCatalog, Sorted, Arranged, Apart, Stored, AllFine, Fine;
    FewerClash(ParseCatalog(base).value, games, s.uploads, NewEntry(root, r));
    PlacedKeeps(root, games, s, NewEntry(root, r), r.data.value);
    SortSorts(s.uploads + [NewEntry(root, r)]);
  }

  /** One addition. */
  lemma AddedKeeps(root: text, base: text, games: seq<Entry>, s: Shelf, r: Request)
    requires Orderly(root, games, s) && EndsIn(base, games)
    ensures Orderly(root, games, AddedTo(root, base, s, r)) && Kept(s.files, AddedTo(root, base, s, r).files)
    ensures Sorted(s.uploads) ==> Sorted(AddedTo(root, base, s, r).uploads)
  {
    if Admitted(root, base, s, r) {
      NewEntryFine(root, r);
      AdmittedKeeps(root, base, games, s, r);
    }
  }

  /** After any series of requests: no game repeats another, there are 64 at most, every line is
      one the menu takes and every upload's data is there and can be played; the uploads are in
      order, and all the data there was is there still. */
  lemma {:induction false} AddedAllKeeps(root: text, base: text, games: seq<Entry>, s: Shelf, requests: seq<Request>)
    requires Orderly(root, games, s) && EndsIn(base, games)
    ensures var now := AddedAll(root, base, s, requests);
      Orderly(root, games, now) && Kept(s.files, now.files) && (Sorted(s.uploads) ==> Sorted(now.uploads))
  {
    if requests != [] {
      var n := |requests| - 1;
      var before := AddedAll(root, base, s, requests[..n]);
      AddedAllKeeps(root, base, games, s, requests[..n]);
      AddedKeeps(root, base, games, before, requests[n]);
      StaysKept(s.files, before.files, AddedAll(root, base, s, requests).files);
    }
  }

  /** The games of a series that are let in, as they come. */
  ghost function Taken(root: text, base: text, s: Shelf, requests: seq<Request>): seq<Entry> {
    if requests == [] then []
    else
      var n := |requests| - 1;
      Taken(root, base, s, requests[..n])
      + (if Admitted(root, base, AddedAll(root, base, s, requests[..n]), requests[n])
         then [NewEntry(root, requests[n])] else [])
  }

  /** Sorting after every addition is sorting once: games that sort alike stay as they came. */
  lemma {:induction false} SortedOnce(root: text, base: text, s: Shelf, requests: seq<Request>)
    requires Sorted(s.uploads)
    ensures AddedAll(root, base, s, requests).uploads == Arranged(s.uploads + Taken(root, base, s, requests))
  {
    if requests == [] {
      SortedStays(s.uploads);
      assert s.uploads + [] == s.uploads;
    } else {
      var n := |requests| - 1;
      var before, all := AddedAll(root, base, s, requests[..n]), s.uploads + Taken(root, base, s, requests[..n]);
      SortedOnce(root, base, s, requests[..n]);
      if Admitted(root, base, before, requests[n]) {
        ArrangedAgain(all, NewEntry(root, requests[n]));
        Joins(s.uploads, Taken(root, base, s, requests[..n]), [NewEntry(root, requests[n])]);
      } else {
        Joins(s.uploads, Taken(root, base, s, requests[..n]), []);
        assert all + [] == all;
      }
    }
  }

  // ------------------------------------------------------------- what the menu sees

  /** A new shelf is orderly with any games the menu loads. */
  lemma NewIsOrderly(root: text, base: text, games: seq<Entry>, files: map<text, seq<byte>>)
    requires RootFine(root) && Loaded(files, base) == Some(games)
    ensures Orderly(root, games, Shelf([], files))
  {
    assert Apart(games) && |games| <= MAXIMUM_GAMES;
    assert games + [] == games;
  }

  lemma FineOffered(root: text, s: Shelf)
    requires AllFine(root, s.uploads) && Stored(s.files, s.uploads)
    ensures Offered(s.files, s.uploads)
  {
    forall k | 0 <= k < |s.uploads|
      ensures Plain(s.uploads[k]) && MenuTakes(s.uploads[k]) && RomThere(s.files, s.uploads[k])
    {
      assert Fine(root, s.uploads[k]);
    }
  }

  /** Behind a built-in file that the menu takes and that ends its last line, an orderly catalog
      of uploads is taken too, exactly if it fits. */
  lemma OrderlyLoads(root: text, base: text, games: seq<Entry>, s: Shelf)
    requires Orderly(root, games, s) && Ended(base) && Loaded(s.files, base) == Some(games)
    ensures Loaded(s.files, base + EncodeCatalog(s.uploads)) ==
      if |base| + |EncodeCatalog(s.uploads)| <= MAXIMUM_CATALOG && ShortLines(Lines(s.uploads))
      then Some(games + s.uploads) else None
  {
    FineOffered(root, s);
    CombinedLoads(s.files, base, games, s.uploads);
  }

  /** The most room the uploads of a directory can need beside the built-in file. */
  predicate RoomEnough(root: text, base: text, games: seq<Entry>) {
    && |root| + LINE_ROOM <= MAXIMUM_LINE && |games| <= MAXIMUM_GAMES
    && |base| + (MAXIMUM_GAMES - |games|) * (|root| + LINE_ROOM + 1) <= MAXIMUM_CATALOG
  }

  lemma RoomFits(root: text, base: text, games: seq<Entry>, s: Shelf)
    requires Orderly(root, games, s) && RoomEnough(root, base, games)
    ensures |base| + |EncodeCatalog(s.uploads)| <= MAXIMUM_CATALOG && ShortLines(Lines(s.uploads))
  {
    FineSize(root, s.uploads);
    MulUp(|root| + LINE_ROOM + 1, |s.uploads|, MAXIMUM_GAMES - |games|);
  }

  lemma LoadedEndsIn(files: map<text, seq<byte>>, base: text, games: seq<Entry>)
    requires Loaded(files, base) == Some(games)
    ensures EndsIn(base, games)
  {
    if ParseCatalog(base).Some? {
      BaseRead(files, base, games);
    }
  }

  /** Below a short enough directory the menu loads, after any series of requests, the games it
      was built with and behind them every upload. */
  lemma MenuLoads(root: text, base: text, games: seq<Entry>, s: Shelf, requests: seq<Request>)
    requires Orderly(root, games, s) && Ended(base) && Loaded(s.files, base) == Some(games)
    requires RoomEnough(root, base, games)
    ensures var now := AddedAll(root, base, s, requests);
      Loaded(now.files, base + EncodeCatalog(now.uploads)) == Some(games + now.uploads)
  {
    var now := AddedAll(root, base, s, requests);
    LoadedEndsIn(s.files, base, games);
    AddedAllKeeps(root, base, games, s, requests);
    StillLoaded(s.files, now.files, base);
    OrderlyLoads(root, base, games, now);
    RoomFits(root, base, games, now);
  }

  // --------------------------------------------------- such menus and directories exist

  /** A program of the Deck itself. */
  function TerminalGame(): Entry {
    Entry(Text("terminal"), Text("TERMINAL"), Text("deck"), Text("/bin/sh"), Text("#5F87AF"))
  }

  lemma SteelIsXterm()
    ensures MenuColor(Text("#5F87AF")) && PlainField(Text("#5F87AF")) && Text("#5F87AF")[6] == 70
  {
    assert Text("#5F87AF") == [35, 53, 70, 56, 55, 65, 70];
    assert XtermColor(67) == Rgb(95, 135, 175);
  }

  lemma AsciiAccepted(t: text, n: nat)
    requires PrintableAscii(t) && 0 < |t| <= n
    ensures Accepted(t, n, false) && AsciiTrimmed(t) && PlainField(t)
  {
    AsciiCodes(t);
  }

  lemma LettersAreId(id: text)
    requires 0 < |id| <= 48 && forall i :: 0 <= i < |id| ==> 97 <= id[i] <= 122
    ensures ValidId(id) && id[0] != HASH && PlainField(id)
  {
  }

  lemma AsciiIsPath(path: text)
    requires PrintableAscii(path) && 0 < |path| < PATH_MAX && path[0] == SLASH
    ensures MenuPath(path) && PlainField(path)
  {
    AsciiAccepted(path, PATH_MAX - 1);
  }

  lemma TerminalNames()
    ensures var id := Text("terminal"); ValidId(id) && id[0] != HASH && PlainField(id)
    ensures MenuTitle(Text("TERMINAL")) && PlainField(Text("TERMINAL"))
  {
    LettersAreId(Text("terminal"));
    AsciiAccepted(Text("TERMINAL"), 64);
  }

  lemma TerminalPlace()
    ensures PlainField(Text("deck")) && MenuPath(Text("/bin/sh")) && PlainField(Text("/bin/sh"))
  {
    AsciiAccepted(Text("deck"), 64);
    AsciiIsPath(Text("/bin/sh"));
  }

  lemma FieldsTakenAs(e: Entry)
    requires ValidId(e.id) && e.id[0] != HASH && MenuTitle(e.title) && MenuPath(e.rom) && MenuColor(e.color)
    requires e.system == Text("deck") && e.color != [] && e.color[|e.color| - 1] != RETURN
    requires PlainField(e.id) && PlainField(e.title) && PlainField(e.system) && PlainField(e.rom) && PlainField(e.color)
    ensures MenuTakes(e) && Plain(e)
  {
  }

  lemma TerminalTaken()
    ensures MenuTakes(TerminalGame()) && Plain(TerminalGame())
  {
    SteelIsXterm();
    TerminalNames();
    TerminalPlace();
    FieldsTakenAs(TerminalGame());
  }

  /** A list with one program of the Deck is loaded, and below any directory of at most 600 bytes
      it still is, with every upload behind it, after any series of requests to a new store. */
  lemma ProgramAndUploads(e: Entry, root: text, requests: seq<Request>)
    requires Plain(e) && MenuTakes(e) && e.system == Text("deck") && |Line(e)| <= 1000
    requires RootFine(root) && |root| <= 600
    ensures var base := EncodeCatalog([e]); var now := AddedAll(root, base, Shelf([], map[]), requests);
      && Loaded(map[], base) == Some([e])
      && Loaded(now.files, base + EncodeCatalog(now.uploads)) == Some([e] + now.uploads)
  {
    ProgramLoads(e);
    MulUp(MAXIMUM_GAMES - 1, |root| + LINE_ROOM + 1, 1001);
    NewIsOrderly(root, EncodeCatalog([e]), [e], map[]);
    MenuLoads(root, EncodeCatalog([e]), [e], Shelf([], map[]), requests);
  }

  lemma ProgramLoads(e: Entry)
    requires Plain(e) && MenuTakes(e) && e.system == Text("deck") && |Line(e)| <= 1000
    ensures Loaded(map[], EncodeCatalog([e])) == Some([e])
    ensures |EncodeCatalog([e])| <= 1001 && Ended(EncodeCatalog([e]))
  {
    hide Line, Lines, LinesFrom, Plain, MenuTakes;
    OneLine(e);
    assert Offered(map[], [e]);
    assert Apart([e]);
    UploadsLoad(map[], [e]);
  }

  lemma OneLine(e: Entry)
    ensures EncodeCatalog([e]) == Line(e) + [NEWLINE] && Ended(EncodeCatalog([e]))
    ensures Storable([e]) <==> |Line(e)| <= MAXIMUM_LINE
  {
    assert Lines([e]) == [Line(e)] && LinesFrom(Lines([e]), 1) == [];
  }

  class Store {
    const romRoot: text
    const baseCatalog: text
    var uploadCatalog: Option<text>
    var files: map<text, seq<byte>>
    /** The games the upload catalog lists. */
    ghost var uploads: seq<Entry>

    ghost predicate Valid()
      reads this
    {
      RootFine(romRoot) && Lists(romRoot, uploadCatalog, uploads)
    }

    ghost function OnShelf(): Shelf
      reads this
    {
      Shelf(uploads, files)
    }

    constructor (romRoot: text, baseCatalog: text, files: map<text, seq<byte>>)
      requires RootFine(romRoot)
      ensures Valid() && uploads == [] && this.files == files
      ensures this.romRoot == romRoot && this.baseCatalog == baseCatalog
    {
      this.romRoot, this.baseCatalog, this.files := romRoot, baseCatalog, files;
      uploadCatalog, uploads := None, [];
    }

    /** parseCatalog of the upload catalog, which may be missing. */
    method Entries() returns (entries: Option<seq<Entry>>)
      requires Valid()
      ensures entries == if Storable(uploads) then Some(uploads) else None
    {
      if uploadCatalog.None? { return Some([]); }
      CatalogRoundTrip(uploads);
      entries := ReadCatalog(uploadCatalog.value);
    }

    /** add: a request that is let in puts its game in the catalog, in its place, and its data
        in the tree; any other changes nothing. */
    method Add(r: Request) returns (added: Option<Entry>)
      requires Valid()
      modifies this
      ensures Valid() && OnShelf() == AddedTo(romRoot, baseCatalog, old(OnShelf()), r)
      ensures added == if Admitted(romRoot, baseCatalog, old(OnShelf()), r) then Some(NewEntry(romRoot, r)) else None
      ensures added.None? ==> uploadCatalog == old(uploadCatalog)
    {
      hide Storable, Rom.Playable, ParseCatalog, Plain, RootFine, Fine, PrintableAscii;
      added := None;
      if !ValidTitle(r.title) || SpecOf(r.system).None? { return; }
      var slug := Slugify(r.lowered);
      if |slug| == 0 || r.data.None? { return; }
      var playable := Rom.ValidateRom(r.system, r.data.value);
      if !playable { return; }
      var base := ReadCatalog(baseCatalog);
      var own := Entries();
      if base.None? || own.None? || |base.value| + |own.value| >= MAXIMUM_GAMES { return; }
      var entry := NewEntry(romRoot, r);
      if Clashes(base.value + own.value, entry) || entry.rom in files || !r.saved { return; }
      NewEntryFine(romRoot, r);
      Install(entry, r.data.value, own.value);
      added := Some(entry);
    }

    method Install(entry: Entry, data: seq<byte>, own: seq<Entry>)
      requires Valid() && own == uploads && Fine(romRoot, entry)
      modifies this
      ensures Valid() && OnShelf() == Placed(old(OnShelf()), entry, data)
    {
      StaysListed(romRoot, uploadCatalog, own, entry);
      files := files[entry.rom := data];
      var contents := WriteCatalog(Arranged(own + [entry]));
      uploadCatalog, uploads := Some(contents), Arranged(own + [entry]);
    }

    /** Any series of requests. */
    method AddAll(requests: seq<Request>)
      requires Valid()
      modifies this
      ensures Valid() && OnShelf() == AddedAll(romRoot, baseCatalog, old(OnShelf()), requests)
    {
      ghost var s := OnShelf();
      for i := 0 to |requests|
        invariant Valid() && OnShelf() == AddedAll(romRoot, baseCatalog, s, requests[..i])
      {
        assert requests[..i + 1][..i] == requests[..i];
        var _ := Add(requests[i]);
      }
      assert requests[..|requests|] == requests;
    }
  }

  // ---------------------------------------------------------------- a long directory

  /** A directory of 2010 nested ones. */
  function LongRoot(): text { seq(4020, i => if i % 2 == 0 then SLASH else 97) }

  /** A title of 64 letters. */
  function LongTitle(): Request {
    Request(Text("chip8"), seq(64, _ => 65), seq(64, _ => 97), Some([0]), true)
  }

  lemma {:induction false} BuiltStays(s: seq<nat>, i: nat, built: text, lastHyphen: bool)
    ensures built <= SlugFrom(s, i, built, lastHyphen)
    decreases |s| - i
  {
    if i < |s| {
      BuiltStays(s, i + 1, built, lastHyphen);
      if Alnum(s[i]) {
        BuiltStays(s, i + 1, built + [s[i]], false);
      } else {
        BuiltStays(s, i + 1, built + [HYPHEN], true);
      }
    }
  }

  lemma {:induction false} TrimKeeps(t: text)
    requires t != [] && t[0] != HYPHEN
    ensures TrimRight(t) != [] && TrimRight(t)[0] == t[0]
  {
    if t[|t| - 1] == HYPHEN {
      TrimKeeps(t[..|t| - 1]);
    }
  }

  /** A title that starts with a letter has a slug. */
  lemma LetterHasSlug(lowered: seq<nat>)
    requires lowered != [] && Alnum(lowered[0])
    ensures Slug(lowered) != []
  {
    BuiltStays(lowered, 1, [lowered[0]], false);
    assert [] + [lowered[0]] == [lowered[0]];
    TrimKeeps(SlugFrom(lowered, 0, [], false));
  }

  lemma AsciiCodes(t: text)
    requires PrintableAscii(t)
    ensures CodesFrom(t, 0) == Some(t)
  {
    AsciiEncodes(t);
    assert t[0..] == t;
    EncodedIsRead(t, 0, t);
  }

  lemma AnyByteIsChip8()
    ensures SpecOf(Text("chip8")).Some? && Rom.Playable(Text("chip8"), [0]) && Rom.Maximum(Text("chip8")) > 1
  {
    Rom.Different();
  }

  lemma LettersAreTitle(title: text)
    requires PrintableAscii(title) && 0 < |title| <= 64
    ensures ValidTitle(title)
  {
    AsciiCodes(title);
  }

  lemma LongTitleFine()
    ensures FormFine(LongTitle())
  {
    LettersAreTitle(LongTitle().title);
    LetterHasSlug(LongTitle().lowered);
    AnyByteIsChip8();
  }

  lemma LongRootFine()
    ensures RootFine(LongRoot())
  {
    AsciiCodes(LongRoot());
  }

  lemma LongLine()
    requires FormFine(LongTitle())
    ensures |Line(NewEntry(LongRoot(), LongTitle()))| > MAXIMUM_LINE
  {
  }

  lemma NothingStored(e: Entry)
    ensures ParseCatalog([]) == Some([]) && Storable([]) && Arranged([] + [e]) == [e]
  {
  }

  /** A first game whose line is too long is added, and loses the catalog. */
  lemma LongLineLosesAll(root: text, r: Request)
    requires RootFine(root) && FormFine(r) && r.saved && |Line(NewEntry(root, r))| > MAXIMUM_LINE
    ensures var now := AddedTo(root, [], Shelf([], map[]), r);
      && Admitted(root, [], Shelf([], map[]), r) && now.uploads == [NewEntry(root, r)]
      && ParseCatalog(EncodeCatalog(now.uploads)) == None
      && forall r' :: !Admitted(root, [], now, r')
  {
    var e := NewEntry(root, r);
    NewEntryTaken(root, r);
    NothingStored(e);
    hide ValidTitle, SpecOf, ParseCatalog, Storable, NewEntry, Arranged, Plain;
    assert Admitted(root, [], Shelf([], map[]), r);
    OneLine(e);
    CatalogRoundTrip([e]);
  }

  /** Below a directory of 4020 bytes that is what a game with a long title does: its own line
      is too long to be read back, so that no game is listed any more and none can be added. */
  lemma LongRootLosesAll()
    ensures var root, r := LongRoot(), LongTitle(); var now := AddedTo(root, [], Shelf([], map[]), r);
      && RootFine(root) && Admitted(root, [], Shelf([], map[]), r) && now.uploads == [NewEntry(root, r)]
      && ParseCatalog(EncodeCatalog(now.uploads)) == None
      && forall r' :: !Admitted(root, [], now, r')
  {
    LongRootFine();
    LongTitleFine();
    LongLine();
    LongLineLosesAll(LongRoot(), LongTitle());
  }
}
