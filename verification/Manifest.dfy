/** How the menu loads its list of games, and what happens to the file it is given when the
    catalog of uploads is put behind the built-in one. */
module Manifest {

  import opened Basics
  import opened CatalogEntry
  import opened CatalogFile
  import opened CatalogSort
  import opened Utf8
  import Rom

  // ------------------------------------------------------------- checks on one game

  /** valid_system. */
  predicate MenuSystem(system: text) {
    system == Text("nes") || system == Text("gb") || system == Text("gbc") || system == Text("zx")
    || system == Text("chip8") || system == Text("deck")
  }

  const PATH_MAX := 4096

  predicate MenuPath(path: text) {
    && Accepted(path, PATH_MAX - 1, false) && AsciiTrimmed(path)
    && path != [] && path[0] == SLASH && |path| < PATH_MAX
  }

  function Nibble(c: byte): Option<nat> {
    if 48 <= c <= 57 then Some(c - 48)
    else if 97 <= c <= 102 then Some(c - 87)
    else if 65 <= c <= 70 then Some(c - 55)
    else None
  }

  datatype Rgb = Rgb(red: nat, green: nat, blue: nat)

  function Channel(high: byte, low: byte): Option<nat> {
    if Nibble(high).None? || Nibble(low).None? then None else Some(Nibble(high).value * 16 + Nibble(low).value)
  }

  /** parse_color. */
  function ColorOf(t: text): Option<Rgb> {
    if |t| != 7 || t[0] != HASH then None
    else
      var red, green, blue := Channel(t[1], t[2]), Channel(t[3], t[4]), Channel(t[5], t[6]);
      if red.None? || green.None? || blue.None? then None else Some(Rgb(red.value, green.value, blue.value))
  }

  const ANSI_COLORS: seq<Rgb> :=
    [Rgb(0, 0, 0), Rgb(128, 0, 0), Rgb(0, 128, 0), Rgb(128, 128, 0),
     Rgb(0, 0, 128), Rgb(128, 0, 128), Rgb(0, 128, 128), Rgb(192, 192, 192),
     Rgb(128, 128, 128), Rgb(255, 0, 0), Rgb(0, 255, 0), Rgb(255, 255, 0),
     Rgb(0, 0, 255), Rgb(255, 0, 255), Rgb(0, 255, 255), Rgb(255, 255, 255)]

  function CubeLevel(i: nat): nat
    requires i < 6
  {
    if i == 0 then 0 else 55 + 40 * i
  }

  function XtermColor(index: nat): Rgb
    requires index < 256
  {
    if index < 16 then ANSI_COLORS[index]
    else if index < 232 then
      var cube := index - 16;
      Rgb(CubeLevel(cube / 36), CubeLevel(cube / 6 % 6), CubeLevel(cube % 6))
    else
      var level := 8 + (index - 232) * 10;
      Rgb(level, level, level)
  }

  predicate MenuColor(t: text) {
    ColorOf(t).Some? && exists index :: 0 <= index < 256 && XtermColor(index) == ColorOf(t).value
  }

  /** The number of a hexadecimal digit in either case. */
  function HexDigit(c: byte): int {
    if '0' as int <= c <= '9' as int then c - '0' as int
    else if 'A' as int <= c <= 'F' as int then c - 'A' as int + 10
    else if 'a' as int <= c <= 'f' as int then c - 'a' as int + 10
    else -1
  }

  predicate AllIn(r: int, g: int, b: int, levels: set<int>) { r in levels && g in levels && b in levels }

  /** The colours of a terminal of 256 colours: the cube of six levels, the dark basic ones, light grey, and the
      greys from 8 on in steps of ten. */
  predicate TerminalColor(r: int, g: int, b: int) {
    || AllIn(r, g, b, {0, 95, 135, 175, 215, 255})
    || AllIn(r, g, b, {0, 128})
    || r == g == b == 192
    || (r == g == b && 8 <= r <= 238 && r % 10 == 8)
  }

  /** The menu takes exactly these, written with six hexadecimal digits in either case. */
  lemma ColorsAre(t: text)
    ensures MenuColor(t) <==>
      && |t| == 7 && t[0] == '#' as int && (forall i :: 1 <= i < 7 ==> HexDigit(t[i]) >= 0)
      && TerminalColor(HexDigit(t[1]) * 16 + HexDigit(t[2]), HexDigit(t[3]) * 16 + HexDigit(t[4]),
                       HexDigit(t[5]) * 16 + HexDigit(t[6]))
  {
    ColorIsDigits(t);
    if ColorOf(t).Some? {
      IndexedColors(ColorOf(t).value);
    }
    hide XtermColor, TerminalColor, ColorOf, HexDigit;
  }

  lemma ColorIsDigits(t: text)
    ensures ColorOf(t).Some? <==> |t| == 7 && t[0] == '#' as int && forall i :: 1 <= i < 7 ==> HexDigit(t[i]) >= 0
    ensures ColorOf(t).Some? ==>
      ColorOf(t).value == Rgb(HexDigit(t[1]) * 16 + HexDigit(t[2]), HexDigit(t[3]) * 16 + HexDigit(t[4]),
                              HexDigit(t[5]) * 16 + HexDigit(t[6]))
  {
    forall c: byte
      ensures if HexDigit(c) < 0 then Nibble(c) == None else Nibble(c) == Some(HexDigit(c))
    {
      DigitIsNibble(c);
    }
    hide HexDigit, Nibble;
  }

  lemma DigitIsNibble(c: byte)
    ensures if HexDigit(c) < 0 then Nibble(c) == None else Nibble(c) == Some(HexDigit(c))
  {
  }

  lemma IndexedColors(c: Rgb)
    ensures TerminalColor(c.red, c.green, c.blue) <==> exists index :: 0 <= index < 256 && XtermColor(index) == c
  {
    if TerminalColor(c.red, c.green, c.blue) {
      var index := IndexOf(c);
      assert XtermColor(index) == c;
    }
    forall index | 0 <= index < 256 && XtermColor(index) == c
      ensures TerminalColor(c.red, c.green, c.blue)
    {
      IndexIsColor(index);
    }
    hide TerminalColor, XtermColor;
  }

  lemma IndexIsColor(index: nat)
    requires index < 256
    ensures var c := XtermColor(index); TerminalColor(c.red, c.green, c.blue)
  {
    if 16 <= index < 232 {
      var cube := index - 16;
      LevelIs(cube / 36);
      LevelIs(cube / 6 % 6);
      LevelIs(cube % 6);
      hide CubeLevel;
    }
  }

  lemma LevelIs(i: nat)
    requires i < 6
    ensures CubeLevel(i) == [0, 95, 135, 175, 215, 255][i]
  {
  }

  lemma IndexOf(c: Rgb) returns (index: nat)
    requires TerminalColor(c.red, c.green, c.blue)
    ensures index < 256 && XtermColor(index) == c
  {
    var r, g, b := c.red, c.green, c.blue;
    if AllIn(r, g, b, {0, 95, 135, 175, 215, 255}) {
      index := CubeIndex(LevelOf(r), LevelOf(g), LevelOf(b));
    } else if AllIn(r, g, b, {0, 128}) {
      index := if r == g == b == 128 then 8
               else (if r == 0 then 0 else 1) + (if g == 0 then 0 else 2) + (if b == 0 then 0 else 4);
    } else if r == g == b == 192 {
      index := 7;
    } else {
      index := 232 + (r - 8) / 10;
      assert 8 + (index - 232) * 10 == r;
    }
    hide CubeLevel;
  }

  function LevelOf(level: nat): (i: nat)
    requires level in {0, 95, 135, 175, 215, 255}
    ensures i < 6 && CubeLevel(i) == level
  {
    if level == 0 then 0 else (level - 55) / 40
  }

  lemma CubeIndex(i: nat, j: nat, k: nat) returns (index: nat)
    requires i < 6 && j < 6 && k < 6
    ensures index < 256 && XtermColor(index) == Rgb(CubeLevel(i), CubeLevel(j), CubeLevel(k))
  {
    index := 16 + (36 * i + (6 * j + k));
    SixOf(6 * i + j, k);
    SixOf(i, j);
    assert (index - 16) / 36 == i;
    hide CubeLevel;
  }

  lemma SixOf(high: nat, low: nat)
    requires low < 6
    ensures (6 * high + low) / 6 == high && (6 * high + low) % 6 == low
  {
  }

  /** The checks of load_manifest on one game's fields. */
  predicate MenuTakes(e: Entry) {
    ValidId(e.id) && MenuTitle(e.title) && MenuSystem(e.system) && MenuPath(e.rom) && MenuColor(e.color)
  }

  /** validate_rom: a game of the Deck itself owns its data; that of any other must be there. */
  predicate RomThere(files: map<text, seq<byte>>, e: Entry) {
    e.system == Text("deck") || (e.rom in files && Rom.Playable(e.system, files[e.rom]))
  }

  // ------------------------------------------------------------- the whole file

  predicate Blank(line: text) { line == [] || line[0] == HASH }

  /** The lines that are neither empty nor comments, without a carriage return at the end. */
  function Shown(raws: seq<text>): seq<text> {
    if raws == [] then []
    else
      var line := DropReturn(raws[0]);
      (if Blank(line) then [] else [line]) + Shown(raws[1..])
  }

  /** What the menu makes of one line. */
  datatype Reading = Reading(header: text -> bool, taken: text -> bool, game: text -> Entry)

  /** The lines that stand for games. */
  function Rows(shown: seq<text>, m: Reading): seq<text> {
    if shown != [] && m.header(shown[0]) then shown[1..] else shown
  }

  function Games(rows: seq<text>, m: Reading): (r: seq<Entry>)
    ensures |r| == |rows|
  {
    seq(|rows|, k requires 0 <= k < |rows| => m.game(rows[k]))
  }

  predicate AllTaken(rows: seq<text>, m: Reading) {
    forall k :: 0 <= k < |rows| ==> m.taken(rows[k])
  }

  predicate Listable(raws: seq<text>, m: Reading) {
    (var rows := Rows(Shown(raws), m);
     ShortLines(raws) && AllTaken(rows, m) && Apart(Games(rows, m)) && |rows| <= MAXIMUM_GAMES) == true
  }

  function Listed(s: text, m: Reading): Option<seq<Entry>> {
    var rows := Rows(Shown(Raw(s)), m);
    if |s| <= MAXIMUM_CATALOG && Listable(Raw(s), m) && rows != [] then Some(Games(rows, m)) else None
  }

  /** is_optional_header. */
  predicate HeaderFields(f: seq<text>) {
    && |f| == 5 && f[0] == Text("id") && f[1] == Text("title") && f[2] == Text("system") && f[3] == Text("rom")
    && (f[4] == Text("color") || f[4] == Text("#RRGGBB"))
  }

  function GameOf(f: seq<text>): Entry {
    if |f| == 5 then Entry(f[0], f[1], f[2], f[3], f[4]) else Entry([], [], [], [], [])
  }

  predicate FieldsTaken(files: map<text, seq<byte>>, f: seq<text>) {
    |f| == 5 && MenuTakes(GameOf(f)) && RomThere(files, GameOf(f))
  }

  function MenuReading(files: map<text, seq<byte>>): Reading {
    Reading(line => HeaderFields(Fields(line)), line => FieldsTaken(files, Fields(line)), line => GameOf(Fields(line)))
  }

  /** load_manifest: the games of a file, if the menu takes it. */
  function Loaded(files: map<text, seq<byte>>, s: text): Option<seq<Entry>> { Listed(s, MenuReading(files)) }

  // -------------------------------------------------------------------- the loop

  lemma {:induction false} ShownJoins(a: seq<text>, b: seq<text>)
    ensures Shown(a + b) == Shown(a) + Shown(b)
  {
    if a == [] {
      assert a + b == b;
    } else {
      assert (a + b)[0] == a[0] && (a + b)[1..] == a[1..] + b;
      ShownJoins(a[1..], b);
    }
  }

  lemma ShownNext(done: seq<text>, raw: text)
    ensures var line := DropReturn(raw);
      Shown(done + [raw]) == if Blank(line) then Shown(done) else Shown(done) + [line]
  {
    ShownJoins(done, [raw]);
    assert Shown([raw][1..]) == [];
  }

  lemma RowsNext(shown: seq<text>, line: text, m: Reading)
    ensures Rows(shown + [line], m) == if shown == [] && m.header(line) then [] else Rows(shown, m) + [line]
  {
    if shown != [] {
      assert (shown + [line])[1..] == shown[1..] + [line];
    }
  }

  /** A file is refused as soon as its first lines are. */
  lemma PrefixListable(done: seq<text>, rest: seq<text>, m: Reading)
    requires Listable(done + rest, m)
    ensures Listable(done, m)
  {
    ShownJoins(done, rest);
    ShortJoin(done, rest);
    RowsPrefix(Shown(done), Shown(rest), m);
  }

  lemma RowsPrefix(shown: seq<text>, more: seq<text>, m: Reading)
    ensures var rows, all := Rows(shown, m), Rows(shown + more, m);
      && |rows| <= |all| && (AllTaken(all, m) ==> AllTaken(rows, m))
      && (Apart(Games(all, m)) ==> Apart(Games(rows, m)))
  {
    var rows, all := Rows(shown, m), Rows(shown + more, m);
    forall k | 0 <= k < |rows| ensures rows[k] == all[k] && Games(rows, m)[k] == Games(all, m)[k] {
    }
  }

  function Ids(games: seq<Entry>): set<text> { set k | 0 <= k < |games| :: games[k].id }

  function Roms(games: seq<Entry>): set<text> { set k | 0 <= k < |games| :: games[k].rom }

  /** Where the loop stands after the lines `done`. */
  ghost predicate Standing(done: seq<text>, saw: bool, games: seq<Entry>, m: Reading) {
    (Listable(done, m) && saw == (Shown(done) != []) && games == Games(Rows(Shown(done), m), m)) == true
  }

  lemma Skipped(done: seq<text>, saw: bool, games: seq<Entry>, raw: text, m: Reading)
    requires Standing(done, saw, games, m) && |raw| <= MAXIMUM_LINE
    requires var line := DropReturn(raw); Blank(line) || (!saw && m.header(line))
    ensures Standing(done + [raw], saw || !Blank(DropReturn(raw)), games, m)
  {
    ShownNext(done, raw);
    RowsNext(Shown(done), DropReturn(raw), m);
    ShortNext(done, raw);
  }

  /** One more line for a game: taken exactly if its fields are and it repeats nothing. */
  lemma Pushed(done: seq<text>, saw: bool, games: seq<Entry>, raw: text, m: Reading)
    requires Standing(done, saw, games, m) && |raw| <= MAXIMUM_LINE
    requires var line := DropReturn(raw); !Blank(line) && !(!saw && m.header(line))
    ensures var line := DropReturn(raw); var game := m.game(line);
      if m.taken(line) && game.id !in Ids(games) && game.rom !in Roms(games) && |games| < MAXIMUM_GAMES
      then Standing(done + [raw], true, games + [game], m)
      else !Listable(done + [raw], m)
  {
    var line, rows := DropReturn(raw), Rows(Shown(done), m);
    ShownNext(done, raw);
    RowsNext(Shown(done), line, m);
    ShortNext(done, raw);
    assert Games(rows + [line], m) == games + [m.game(line)];
    ApartNext(games, m.game(line));
    TakenNext(rows, line, m);
  }

  lemma ShortNext(done: seq<text>, raw: text)
    ensures ShortLines(done + [raw]) <==> ShortLines(done) && |raw| <= MAXIMUM_LINE
  {
    assert (done + [raw])[|done|] == raw;
    assert forall k :: 0 <= k < |done| ==> (done + [raw])[k] == done[k];
  }

  lemma TakenNext(rows: seq<text>, line: text, m: Reading)
    ensures AllTaken(rows + [line], m) <==> AllTaken(rows, m) && m.taken(line)
  {
    assert (rows + [line])[|rows|] == line;
    assert forall k :: 0 <= k < |rows| ==> (rows + [line])[k] == rows[k];
  }

  lemma ApartNext(games: seq<Entry>, game: Entry)
    ensures Apart(games + [game]) <==> Apart(games) && game.id !in Ids(games) && game.rom !in Roms(games)
  {
    assert (games + [game])[|games|] == game;
    assert forall k :: 0 <= k < |games| ==> (games + [game])[k] == games[k];
  }

  lemma SetsNext(games: seq<Entry>, game: Entry)
    ensures Ids(games + [game]) == Ids(games) + {game.id} && Roms(games + [game]) == Roms(games) + {game.rom}
  {
    var more := games + [game];
    assert more[|games|] == game && forall k :: 0 <= k < |games| ==> more[k] == games[k];
    forall x | x in Ids(games) + {game.id} ensures x in Ids(more) {
      if x != game.id {
        var k :| 0 <= k < |games| && games[k].id == x;
        assert more[k].id == x;
      }
    }
    forall x | x in Roms(games) + {game.rom} ensures x in Roms(more) {
      if x != game.rom {
        var k :| 0 <= k < |games| && games[k].rom == x;
        assert more[k].rom == x;
      }
    }
  }

  /** Once the first lines are refused, so is the file. */
  lemma Refused(s: text, done: seq<text>, raw: text, rest: seq<text>, m: Reading)
    requires Raw(s) == done + [raw] + rest
    ensures !Listable(done + [raw], m) ==> Listed(s, m) == None
    ensures |raw| > MAXIMUM_LINE ==> Listed(s, m) == None
  {
    ShortNext(done, raw);
    if Listable(Raw(s), m) {
      PrefixListable(done + [raw], rest, m);
    }
  }

  /** split_tabs. */
  method SplitTabs(line: text) returns (fields: seq<text>)
    ensures fields == Fields(line)
  {
    hide Fields, Find;
    fields := [];
    var start := 0;
    assert line[0..] == line;
    EmptyJoins(Fields(line));
    while true
      invariant start <= |line| && fields + Fields(line[start..]) == Fields(line)
      decreases |line| - start
    {
      var tab := Find(line, start, TAB);
      FieldAt(line, start, tab);
      if tab == |line| {
        return fields + [line[start..]];
      }
      Joins(fields, [line[start..tab]], Fields(line[tab + 1..]));
      fields := fields + [line[start..tab]];
      start := tab + 1;
    }
  }

  lemma FieldAt(line: text, start: nat, tab: nat)
    requires start <= |line| && tab == Find(line, start, TAB)
    ensures Fields(line[start..]) ==
      if tab == |line| then [line[start..]] else [line[start..tab]] + Fields(line[tab + 1..])
  {
    hide *;
    FieldsUnfold(line[start..]);
    FindInRest(line, start, TAB);
  }

  lemma FieldsUnfold(line: text)
    ensures var tab := Find(line, 0, TAB);
      Fields(line) == if tab == |line| then [line] else [line[..tab]] + Fields(line[tab + 1..])
  {
    hide Find;
  }

  /** The checks on the fields of one line, in their order. */
  method CheckGame(files: map<text, seq<byte>>, fields: seq<text>) returns (ok: bool)
    ensures ok <==> FieldsTaken(files, fields)
  {
    if |fields| != 5 { return false; }
    var game := GameOf(fields);
    if !MenuTakes(game) { return false; }
    if game.system == Text("deck") { return true; }
    if game.rom !in files { return false; }
    ok := Rom.MenuValidates(game.system, files[game.rom]);
  }

  /** What the loop does with a line that is neither empty nor a comment. */
  method TakeLine(files: map<text, seq<byte>>, line: text, saw: bool, games: seq<Entry>,
                  ids: set<text>, roms: set<text>, ghost done: seq<text>, ghost raw: text, ghost m: Reading)
    returns (games': Option<seq<Entry>>)
    requires Standing(done, saw, games, m) && |raw| <= MAXIMUM_LINE && line == DropReturn(raw) && !Blank(line)
    requires ids == Ids(games) && roms == Roms(games) && m == MenuReading(files)
    ensures games'.None? ==> !Listable(done + [raw], m)
    ensures games'.Some? ==> Standing(done + [raw], true, games'.value, m)
    ensures games'.Some? ==> games'.value == games || games'.value == games + [m.game(line)]
  {
    var fields := SplitTabs(line);
    if !saw && HeaderFields(fields) {
      Skipped(done, saw, games, raw, m);
      return Some(games);
    }
    Pushed(done, saw, games, raw, m);
    var ok := CheckGame(files, fields);
    if !ok { return None; }
    var game := GameOf(fields);
    if game.id in ids || game.rom in roms || |games| == MAXIMUM_GAMES { return None; }
    games' := Some(games + [game]);
  }

  /** getline: the last line may lack its end. */
  method NextLine(contents: text, i: nat) returns (raw: text, next: nat)
    requires i < |contents|
    ensures i < next <= |contents| && Raw(contents[i..]) == [raw] + Raw(contents[next..])
  {
    hide Raw, Find;
    var end := Find(contents, i, NEWLINE);
    RawNext(contents, i);
    raw := contents[i..end];
    next := if end < |contents| then end + 1 else end;
  }

  /** load_manifest, on the contents of the file and of the files of games there are. */
  method LoadManifest(files: map<text, seq<byte>>, contents: text) returns (result: Option<seq<Entry>>)
    ensures result == Loaded(files, contents)
  {
    result := LoadLines(files, contents, MenuReading(files));
  }

  method LoadLines(files: map<text, seq<byte>>, contents: text, ghost m: Reading) returns (result: Option<seq<Entry>>)
    requires m == MenuReading(files)
    ensures result == Listed(contents, m)
  {
    hide Raw, DropReturn, MenuReading;
    if |contents| > MAXIMUM_CATALOG { return None; }
    var games: seq<Entry> := [];
    var ids: set<text>, roms: set<text> := {}, {};
    var sawData, i := false, 0;
    ghost var done: seq<text> := [];
    assert contents[0..] == contents;
    EmptyJoins(Raw(contents));
    while i < |contents|
      invariant i <= |contents| && Raw(contents) == done + Raw(contents[i..])
      invariant Standing(done, sawData, games, m) && ids == Ids(games) && roms == Roms(games)
      decreases |contents| - i
    {
      var raw, next := NextLine(contents, i);
      Joins(done, [raw], Raw(contents[next..]));
      Refused(contents, done, raw, Raw(contents[next..]), m);
      i := next;
      if |raw| > MAXIMUM_LINE { return None; }
      var line := DropReturn(raw);
      if Blank(line) {
        Skipped(done, sawData, games, raw, m);
      } else {
        var taken := TakeLine(files, line, sawData, games, ids, roms, done, raw, m);
        if taken.None? { return None; }
        sawData := true;
        if |taken.value| > |games| {
          SetsNext(games, taken.value[|games|]);
          ids, roms := ids + {taken.value[|games|].id}, roms + {taken.value[|games|].rom};
          games := taken.value;
        }
      }
      done := done + [raw];
    }
    RawEnds(contents, done);
    result := if games == [] then None else Some(games);
  }

  lemma RawEnds(contents: text, done: seq<text>)
    ensures contents[|contents|..] == [] && done + Raw([]) == done
    ensures Shown([]) == []
  {
  }

  // ------------------------------------------------------- a catalog put behind

  /** The line of e is one for the game e. */
  predicate LineIsGame(e: Entry, m: Reading) {
    && DropReturn(Line(e)) == Line(e) && !Blank(Line(e))
    && !m.header(Line(e)) && m.taken(Line(e)) && m.game(Line(e)) == e
  }

  predicate LinesAreGames(entries: seq<Entry>, m: Reading) {
    forall k :: 0 <= k < |entries| ==> LineIsGame(entries[k], m)
  }

  lemma NoSystem(system: text)
    requires MenuSystem(system)
    ensures system != Text("system")
  {
    assert Text("system")[1] == 121 && Text("deck")[1] == 101 && Text("nes")[1] == 101 && Text("gb")[1] == 98;
    assert Text("gbc")[1] == 98 && Text("zx")[1] == 120 && Text("chip8")[1] == 104;
  }

  lemma MenuFields(files: map<text, seq<byte>>, e: Entry, f: seq<text>)
    requires MenuTakes(e) && RomThere(files, e) && f == [e.id, e.title, e.system, e.rom, e.color]
    ensures FieldsTaken(files, f) && GameOf(f) == e && !HeaderFields(f)
  {
    NoSystem(e.system);
    assert GameOf(f) == e;
  }

  lemma MenuLine(files: map<text, seq<byte>>, e: Entry)
    requires Plain(e) && MenuTakes(e) && RomThere(files, e)
    ensures LineIsGame(e, MenuReading(files))
  {
    PlainLine(e);
    MenuFields(files, e, Fields(Line(e)));
  }

  lemma PlainLine(e: Entry)
    requires Plain(e)
    ensures DropReturn(Line(e)) == Line(e) && !Blank(Line(e))
    ensures Fields(Line(e)) == [e.id, e.title, e.system, e.rom, e.color]
  {
    LineReturn(e);
    LineEnds(e);
    LineFields(e);
  }

  lemma {:induction false} ShownLines(entries: seq<Entry>, m: Reading)
    requires LinesAreGames(entries, m)
    ensures Shown(Lines(entries)) == Lines(entries)
  {
    if entries == [] {
      assert Lines(entries) == [];
    } else {
      assert LineIsGame(entries[0], m);
      hide Line, Lines, Shown, DropReturn, Blank;
      LinesFirst(entries);
      ShownLines(entries[1..], m);
      ShownFirst(Line(entries[0]), Lines(entries[1..]));
    }
  }

  lemma LinesFirst(entries: seq<Entry>)
    requires entries != []
    ensures Lines(entries) == [Line(entries[0])] + Lines(entries[1..])
  {
    hide Line;
  }

  lemma ShownFirst(line: text, lines: seq<text>)
    requires DropReturn(line) == line && !Blank(line)
    ensures Shown([line] + lines) == [line] + Shown(lines)
  {
    assert ([line] + lines)[1..] == lines;
  }

  lemma LinesStand(entries: seq<Entry>, m: Reading)
    requires LinesAreGames(entries, m)
    ensures forall k :: 0 <= k < |entries| ==> m.taken(Lines(entries)[k]) && !m.header(Lines(entries)[k])
    ensures Games(Lines(entries), m) == entries
  {
    hide Line;
    forall k | 0 <= k < |entries|
      ensures m.taken(Lines(entries)[k]) && !m.header(Lines(entries)[k]) && m.game(Lines(entries)[k]) == entries[k]
    {
      assert LineIsGame(entries[k], m);
    }
  }

  lemma RowsJoin(shown: seq<text>, lines: seq<text>, m: Reading)
    requires forall k :: 0 <= k < |lines| ==> !m.header(lines[k])
    ensures Rows(shown + lines, m) == Rows(shown, m) + lines
  {
    if shown == [] {
      assert shown + lines == lines;
    } else {
      assert (shown + lines)[1..] == shown[1..] + lines;
    }
  }

  /** The lines of a file and of a catalog behind it. */
  lemma Continued(base: text, uploads: seq<Entry>, m: Reading)
    requires Ended(base) && AllFielded(uploads) && LinesAreGames(uploads, m)
    ensures var rows := Rows(Shown(Raw(base)), m);
      && Raw(base + EncodeCatalog(uploads)) == Raw(base) + Lines(uploads)
      && Rows(Shown(Raw(base) + Lines(uploads)), m) == rows + Lines(uploads)
      && Games(rows + Lines(uploads), m) == Games(rows, m) + uploads
      && (AllTaken(rows + Lines(uploads), m) <==> AllTaken(rows, m))
      && (ShortLines(Raw(base) + Lines(uploads)) <==> ShortLines(Raw(base)) && ShortLines(Lines(uploads)))
  {
    var rows, lines := Rows(Shown(Raw(base)), m), Lines(uploads);
    FieldedUnbroken(uploads);
    RawJoins(base, EncodeCatalog(uploads));
    ShownLines(uploads, m);
    LinesStand(uploads, m);
    ShownJoins(Raw(base), lines);
    RowsJoin(Shown(Raw(base)), lines, m);
    TakenJoin(rows, lines, m);
    ShortJoin(Raw(base), lines);
    GamesJoin(rows, lines, m);
  }

  lemma GamesJoin(a: seq<text>, b: seq<text>, m: Reading)
    ensures Games(a + b, m) == Games(a, m) + Games(b, m)
  {
  }

  lemma TakenJoin(a: seq<text>, b: seq<text>, m: Reading)
    requires forall k :: 0 <= k < |b| ==> m.taken(b[k])
    ensures AllTaken(a + b, m) <==> AllTaken(a, m)
  {
    assert forall k :: 0 <= k < |a| ==> (a + b)[k] == a[k];
  }

  lemma ShortJoin(a: seq<text>, b: seq<text>)
    ensures ShortLines(a + b) <==> ShortLines(a) && ShortLines(b)
  {
    assert forall k :: 0 <= k < |a| ==> (a + b)[k] == a[k];
    assert forall k :: 0 <= k < |b| ==> (a + b)[|a| + k] == b[k];
  }

  /** Games the menu takes, with lines that say what they are, whose data is there. */
  ghost predicate Offered(files: map<text, seq<byte>>, entries: seq<Entry>) {
    (forall k :: 0 <= k < |entries| ==>
      Plain(entries[k]) && MenuTakes(entries[k]) && RomThere(files, entries[k])) == true
  }

  lemma OfferedLines(files: map<text, seq<byte>>, entries: seq<Entry>)
    requires Offered(files, entries)
    ensures AllFielded(entries) && LinesAreGames(entries, MenuReading(files))
  {
    forall k | 0 <= k < |entries| ensures LineIsGame(entries[k], MenuReading(files)) {
      MenuLine(files, entries[k]);
    }
  }

  lemma ContinuedListed(base: text, games: seq<Entry>, uploads: seq<Entry>, m: Reading)
    requires Ended(base) && AllFielded(uploads) && LinesAreGames(uploads, m) && Listed(base, m) == Some(games)
    ensures Listed(base + EncodeCatalog(uploads), m) ==
      if |base| + |EncodeCatalog(uploads)| <= MAXIMUM_CATALOG && ShortLines(Lines(uploads))
         && Apart(games + uploads) && |games| + |uploads| <= MAXIMUM_GAMES
      then Some(games + uploads) else None
  {
    Continued(base, uploads, m);
  }

  /** The menu takes the built-in file with the uploads behind it, as the games of both, exactly
      if the whole is within the limits and no game of one repeats one of the other. */
  lemma CombinedLoads(files: map<text, seq<byte>>, base: text, games: seq<Entry>, uploads: seq<Entry>)
    requires Ended(base) && Loaded(files, base) == Some(games) && Offered(files, uploads)
    ensures Loaded(files, base + EncodeCatalog(uploads)) ==
      if |base| + |EncodeCatalog(uploads)| <= 65536 && ShortLines(Lines(uploads))
         && Apart(games + uploads) && |games| + |uploads| <= 64
      then Some(games + uploads) else None
  {
    OfferedLines(files, uploads);
    ContinuedListed(base, games, uploads, MenuReading(files));
  }

  // ------------------------------------------------- a file that does not end its last line

  /** The unended last line of a file. */
  lemma CutLast(a: text) returns (front: text, last: text)
    requires !Ended(a)
    ensures a == front + last && Ended(front) && last != [] && NEWLINE !in last
    ensures Raw(a) == Raw(front) + [last]
  {
    var k := |a|;
    while k > 0 && a[k - 1] != NEWLINE
      invariant 0 <= k <= |a| && NEWLINE !in a[k..]
    {
      assert a[k - 1..] == [a[k - 1]] + a[k..];
      k := k - 1;
    }
    front, last := a[..k], a[k..];
    hide Raw;
    RawJoins(front, last);
    LineAlone(last);
    CutAgain(a, 0, k);
    assert a[0..] == a;
  }

  lemma LineAlone(last: text)
    requires NEWLINE !in last && last != []
    ensures Raw(last) == [last]
  {
    assert last[0..|last|] == last;
    FindAt(last, 0, |last|, NEWLINE);
  }

  lemma JoinedRaw(front: text, last: text, uploads: seq<Entry>)
    requires Ended(front) && NEWLINE !in last && uploads != [] && AllFielded(uploads)
    ensures Raw(front + last + EncodeCatalog(uploads))
         == Raw(front) + ([last + Line(uploads[0])] + Lines(uploads[1..]))
  {
    var line, rest := Line(uploads[0]), EncodeCatalog(uploads[1..]);
    LinesTail(uploads, 1);
    assert EncodeCatalog(uploads) == line + [NEWLINE] + rest;
    hide *;
    BehindLast(front, last, line, rest);
    LineEnds(uploads[0]);
    RunOnLine(front, last + line, rest);
    FieldedUnbroken(uploads[1..]);
  }

  lemma BehindLast(front: text, last: text, line: text, rest: text)
    ensures front + last + (line + [NEWLINE] + rest) == front + (last + line + [NEWLINE] + rest)
  {
  }

  lemma RunOnLine(front: text, line: text, rest: text)
    requires Ended(front) && NEWLINE !in line
    ensures Raw(front + (line + [NEWLINE] + rest)) == Raw(front) + ([line] + Raw(rest))
  {
    RawJoins(front, line + [NEWLINE] + rest);
    FirstLine(line, rest);
  }

  lemma {:induction false} LinesTail(uploads: seq<Entry>, k: nat)
    requires 1 <= k <= |uploads|
    ensures LinesFrom(Lines(uploads), k) == LinesFrom(Lines(uploads[1..]), k - 1)
    decreases |uploads| - k
  {
    if k < |uploads| {
      LinesTail(uploads, k + 1);
      assert Lines(uploads)[k] == Lines(uploads[1..])[k - 1];
    }
  }

  lemma RunOnShown(front: seq<text>, last: text, line: text, lines: seq<text>)
    requires DropReturn(last + line) == last + line
    ensures var f, x, y := Shown(front), DropReturn(last), last + line;
      && Shown(front + [last]) == (if Blank(x) then f else f + [x])
      && Shown(front + ([y] + lines)) == f + ((if Blank(y) then [] else [y]) + Shown(lines))
  {
    ShownNext(front, last);
    ShownJoins(front, [last + line] + lines);
    assert ([last + line] + lines)[1..] == lines;
  }

  /** Counting the rows: a run-on line y can stand for a game more than the line x it runs on
      only if x is empty. */
  lemma RunOnRows(f: seq<text>, x: text, y: text, lines: seq<text>, m: Reading)
    requires Blank(x) && x != [] ==> Blank(y)
    requires Rows(if Blank(x) then f else f + [x], m) != []
    requires |Rows(f + ((if Blank(y) then [] else [y]) + lines), m)|
          == |Rows(if Blank(x) then f else f + [x], m)| + 1 + |lines|
    ensures x == [] && f != [] && !Blank(y)
    ensures AllTaken(Rows(f + ([y] + lines), m), m) ==> m.taken(y)
  {
    var more := (if Blank(y) then [] else [y]) + lines;
    if f != [] {
      assert (f + more)[1..] == f[1..] + more && (f + [x])[1..] == f[1..] + [x];
      assert (Rows(f, m) + ([y] + lines))[|Rows(f, m)|] == y;
    }
  }

  /** A menu that lists the games of both took a line that starts with a carriage return. */
  lemma RunOnTaken(front: seq<text>, last: text, line: text, lines: seq<text>, m: Reading)
    requires last != [] && DropReturn(last + line) == last + line && |Shown(lines)| == |lines|
    requires Rows(Shown(front + [last]), m) != []
    requires |Rows(Shown(front + ([last + line] + lines)), m)| == |Rows(Shown(front + [last]), m)| + 1 + |lines|
    requires AllTaken(Rows(Shown(front + ([last + line] + lines)), m), m)
    ensures m.taken([RETURN] + line)
  {
    RunOnShown(front, last, line, lines);
    RunOnRows(Shown(front), DropReturn(last), last + line, Shown(lines), m);
    OnlyReturn(last);
  }

  lemma OnlyReturn(last: text)
    requires last != [] && DropReturn(last) == []
    ensures last == [RETURN]
  {
  }

  lemma UnendedListed(base: text, games: seq<Entry>, uploads: seq<Entry>, m: Reading)
    requires !Ended(base) && Listed(base, m) == Some(games) && uploads != []
    requires AllFielded(uploads) && LinesAreGames(uploads, m) && Plain(uploads[0])
    requires !m.taken([RETURN] + Line(uploads[0]))
    ensures Listed(base + EncodeCatalog(uploads), m) != Some(games + uploads)
  {
    hide Raw, Line, LinesFrom, AllTaken, Apart, DropReturn;
    var line, tail := Line(uploads[0]), uploads[1..];
    var front, last := CutLast(base);
    JoinedRaw(front, last, uploads);
    assert base + EncodeCatalog(uploads) == front + last + EncodeCatalog(uploads);
    if Listed(base + EncodeCatalog(uploads), m) == Some(games + uploads) {
      ShownLines(tail, m);
      LinesStand(tail, m);
      RunOnReturn(last, uploads[0]);
      RunOnTaken(Raw(front), last, line, Lines(tail), m);
    }
  }

  /** Behind a file that does not end its last line the first upload runs on that line, and the
      menu never sees the games of both. */
  lemma UnendedSpoils(files: map<text, seq<byte>>, base: text, games: seq<Entry>, uploads: seq<Entry>)
    requires !Ended(base) && Loaded(files, base) == Some(games) && Offered(files, uploads) && uploads != []
    ensures Loaded(files, base + EncodeCatalog(uploads)) != Some(games + uploads)
  {
    OfferedLines(files, uploads);
    ReturnRefused(files, uploads[0]);
    UnendedListed(base, games, uploads, MenuReading(files));
  }

  lemma RunOnReturn(last: text, e: Entry)
    requires Plain(e)
    ensures DropReturn(last + Line(e)) == last + Line(e)
  {
    PlainLine(e);
    assert (last + Line(e))[|last| + |Line(e)| - 1] == Line(e)[|Line(e)| - 1];
  }

  lemma ReturnRefused(files: map<text, seq<byte>>, e: Entry)
    requires Fielded(e)
    ensures !FieldsTaken(files, Fields([RETURN] + Line(e)))
  {
    var e' := e.(id := [RETURN] + e.id);
    assert [RETURN] + Line(e) == Line(e');
    LineFields(e');
    assert !Fits(e'.id, 0);
  }

  /** The catalog of uploads by itself. */
  lemma UploadsLoad(files: map<text, seq<byte>>, uploads: seq<Entry>)
    requires Offered(files, uploads)
    ensures Loaded(files, EncodeCatalog(uploads)) ==
      if uploads != [] && Storable(uploads) && Apart(uploads) then Some(uploads) else None
  {
    OfferedLines(files, uploads);
    AloneListed(uploads, MenuReading(files));
  }

  lemma AloneListed(uploads: seq<Entry>, m: Reading)
    requires AllFielded(uploads) && LinesAreGames(uploads, m)
    ensures Listed(EncodeCatalog(uploads), m) ==
      if uploads != [] && Storable(uploads) && Apart(uploads) then Some(uploads) else None
  {
    FieldedUnbroken(uploads);
    ShownLines(uploads, m);
    LinesStand(uploads, m);
    hide Shown, Raw, Lines, LinesFrom, Apart;
    assert AllTaken(Lines(uploads), m);
  }

  // ----------------------------------------------- what the uploader reads of it

  lemma {:induction false} LastFieldEnds(line: text)
    ensures var last := Fields(line)[|Fields(line)| - 1];
      |last| <= |line| && line[|line| - |last|..] == last
    decreases |line|
  {
    hide *;
    var tab := Find(line, 0, TAB);
    FieldsUnfold(line);
    if tab < |line| {
      var rest := line[tab + 1..];
      LastFieldEnds(rest);
      var last := Fields(rest)[|Fields(rest)| - 1];
      PartOfRest(line, tab + 1, |rest| - |last|, |rest| - |last|);
    }
  }

  /** A line of five fields with no carriage return left. */
  predicate Uncut(line: text) { |Fields(line)| == 5 && DropReturn(line) == line }

  predicate EndsInColor(f: text) { f != [] && f[|f| - 1] != RETURN }

  lemma ColorUncut(line: text)
    requires |Fields(line)| == 5 && EndsInColor(Fields(line)[4])
    ensures Uncut(line)
  {
    LastFieldEnds(line);
    var last := Fields(line)[4];
    assert line[|line| - 1] == line[|line| - |last|..][|last| - 1];
  }

  lemma ColorsEnd(color: text)
    ensures MenuColor(color) || color == Text("color") || color == Text("#RRGGBB") ==> EndsInColor(color)
  {
  }

  lemma MenuUncut(files: map<text, seq<byte>>, line: text)
    requires HeaderFields(Fields(line)) || FieldsTaken(files, Fields(line))
    ensures Uncut(line)
  {
    ColorsEnd(Fields(line)[4]);
    ColorUncut(line);
  }

  lemma UploaderReads(raw: text)
    requires |raw| <= MAXIMUM_LINE && (Blank(DropReturn(raw)) || Uncut(DropReturn(raw)))
    ensures ReadLine(raw) == if Blank(DropReturn(raw)) then Skip else Game(GameOf(Fields(DropReturn(raw))))
  {
  }

  /** Both programs make the same of a line. */
  predicate Agreed(raw: text, read: text -> Item, m: Reading) {
    read(raw) == if Blank(DropReturn(raw)) then Skip else Game(m.game(DropReturn(raw)))
  }

  lemma {:induction false} ReadShown(raws: seq<text>, read: text -> Item, m: Reading)
    requires forall k :: 0 <= k < |raws| ==> Agreed(raws[k], read, m)
    ensures Items(raws, read) == Some(Games(Shown(raws), m))
  {
    if raws != [] {
      var line, rest := DropReturn(raws[0]), Shown(raws[1..]);
      assert Agreed(raws[0], read, m);
      assert forall k :: 0 <= k < |raws[1..]| ==> raws[1..][k] == raws[k + 1];
      ReadShown(raws[1..], read, m);
      GamesFirst(line, rest, m);
      if Blank(line) {
        assert Shown(raws) == rest;
      }
    }
  }

  lemma GamesFirst(line: text, rest: seq<text>, m: Reading)
    ensures Games([line] + rest, m) == [m.game(line)] + Games(rest, m)
  {
  }

  lemma {:induction false} ShownHolds(raws: seq<text>, k: nat)
    requires k < |raws| && !Blank(DropReturn(raws[k]))
    ensures DropReturn(raws[k]) in Shown(raws)
  {
    if k > 0 {
      assert raws[1..][k - 1] == raws[k];
      ShownHolds(raws[1..], k - 1);
    }
  }

  lemma ListedLine(raws: seq<text>, k: nat, m: Reading)
    requires Listable(raws, m) && k < |raws| && !Blank(DropReturn(raws[k]))
    ensures m.header(DropReturn(raws[k])) || m.taken(DropReturn(raws[k]))
  {
    ShownHolds(raws, k);
    var shown, rows := Shown(raws), Rows(Shown(raws), m);
    var j :| 0 <= j < |shown| && shown[j] == DropReturn(raws[k]);
    if rows != shown && j > 0 {
      assert rows[j - 1] == shown[j] && m.taken(rows[j - 1]);
    } else if rows == shown {
      assert m.taken(rows[j]);
    }
  }

  lemma GamesOfRows(shown: seq<text>, m: Reading)
    ensures var games, all := Games(Rows(shown, m), m), Games(shown, m);
      |games| <= |all| <= |games| + 1 && all[|all| - |games|..] == games
  {
  }

  lemma ListedRead(base: text, games: seq<Entry>, read: text -> Item, m: Reading)
    requires Listed(base, m) == Some(games)
    requires forall k :: 0 <= k < |Raw(base)| ==> Agreed(Raw(base)[k], read, m)
    ensures Items(Raw(base), read).Some?
    ensures var read := Items(Raw(base), read).value;
      |games| <= |read| <= |games| + 1 && read[|read| - |games|..] == games
  {
    ReadShown(Raw(base), read, m);
    GamesOfRows(Shown(Raw(base)), m);
  }

  lemma MenuAgreed(files: map<text, seq<byte>>, raw: text)
    requires |raw| <= MAXIMUM_LINE
    requires var line, m := DropReturn(raw), MenuReading(files); Blank(line) || m.header(line) || m.taken(line)
    ensures Agreed(raw, ReadLine, MenuReading(files))
  {
    if !Blank(DropReturn(raw)) {
      MenuUncut(files, DropReturn(raw));
    }
    UploaderReads(raw);
  }

  /** A file the menu takes the uploader reads as the same games, after the header if it has one. */
  lemma BaseRead(files: map<text, seq<byte>>, base: text, games: seq<Entry>)
    requires Loaded(files, base) == Some(games) && ParseCatalog(base).Some?
    ensures var read := ParseCatalog(base).value;
      |games| <= |read| <= |games| + 1 && read[|read| - |games|..] == games
  {
    var m := MenuReading(files);
    forall k | 0 <= k < |Raw(base)| ensures Agreed(Raw(base)[k], ReadLine, m) {
      if !Blank(DropReturn(Raw(base)[k])) {
        ListedLine(Raw(base), k, m);
      }
      MenuAgreed(files, Raw(base)[k]);
    }
    ListedRead(base, games, ReadLine, m);
    assert base[0..] == base;
    ReadsRaw(base, 0, ReadLine);
  }

  /** More files do not make the menu refuse. */
  lemma StillLoaded(was: map<text, seq<byte>>, now: map<text, seq<byte>>, s: text)
    requires Loaded(was, s).Some? && forall path :: path in was ==> path in now && now[path] == was[path]
    ensures Loaded(now, s) == Loaded(was, s)
  {
    var rows := Rows(Shown(Raw(s)), MenuReading(was));
    assert rows == Rows(Shown(Raw(s)), MenuReading(now));
    assert Games(rows, MenuReading(was)) == Games(rows, MenuReading(now));
    forall k | 0 <= k < |rows| ensures MenuReading(now).taken(rows[k]) {
      assert MenuReading(was).taken(rows[k]);
    }
  }
}
