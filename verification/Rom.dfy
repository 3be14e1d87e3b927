/** Game data, checked twice: by the uploader before it is stored, and by the menu before it
    lists the game. Both take the same data, but for the size of NES games. */
module Rom {

  import opened Basics
  import opened CatalogEntry
  import Tap

  const NES_MAGIC: seq<byte> := [78, 69, 83, 0x1a]

  const LOGO: seq<byte> :=
    [0xce, 0xed, 0x66, 0x66, 0xcc, 0x0d, 0x00, 0x0b, 0x03, 0x73, 0x00, 0x83,
     0x00, 0x0c, 0x00, 0x0d, 0x00, 0x08, 0x11, 0x1f, 0x88, 0x89, 0x00, 0x0e,
     0xdc, 0xcc, 0x6e, 0xe6, 0xdd, 0xdd, 0xd9, 0x99, 0xbb, 0xbb, 0x67, 0x63,
     0x6e, 0x0e, 0xec, 0xcc, 0xdd, 0xdc, 0x99, 0x9f, 0xbb, 0xb9, 0x33, 0x3e]

  const MAXIMUM := 8 * 1024 * 1024
  const CHIP8_MAXIMUM := 65024

  function Sum(data: seq<byte>): nat {
    if data == [] then 0 else Sum(data[..|data| - 1]) + data[|data| - 1]
  }

  /** The header's bytes, one more for each, and its checksum add up to a multiple of 256. */
  predicate Balanced(header: seq<byte>, checksum: byte) {
    (Sum(header) + |header| + checksum) % 0x100 == 0
  }

  predicate GameBoy(data: seq<byte>) {
    && 0x150 <= |data| <= MAXIMUM && data[0x104..0x134] == LOGO
    && Balanced(data[0x134..0x14d], data[0x14d])
  }

  predicate Colored(data: seq<byte>)
    requires 0x150 <= |data|
  {
    data[0x143] == 0x80 || data[0x143] == 0xc0
  }

  /** What the emulator of a system can start from. */
  predicate Playable(system: text, data: seq<byte>) {
    if system == Text("nes") then 16 <= |data| && data[..4] == NES_MAGIC
    else if system == Text("gb") then GameBoy(data)
    else if system == Text("gbc") then GameBoy(data) && Colored(data)
    else if system == Text("zx") then Tap.IsTape(data)
    else 1 <= |data| <= CHIP8_MAXIMUM
  }

  /** Counting down from zero, a byte and one more at a time, in eight bits, balances. */
  lemma OneMoreByte(header: seq<byte>, b: byte, checksum: byte)
    requires Balanced(header, checksum)
    ensures Balanced(header + [b], (checksum - b - 1) % 0x100)
  {
    assert (header + [b])[..|header|] == header;
  }

  lemma OneChecksum(header: seq<byte>, a: byte, b: byte)
    requires Balanced(header, a) && Balanced(header, b)
    ensures a == b
  {
  }

  method Checksum(data: seq<byte>, from: nat, to: nat) returns (checksum: byte)
    requires from <= to <= |data|
    ensures Balanced(data[from..to], checksum)
  {
    checksum := 0;
    for index := from to to
      invariant Balanced(data[from..index], checksum)
    {
      OneMoreByte(data[from..index], data[index], checksum);
      assert data[from..index + 1] == data[from..index] + [data[index]];
      checksum := (checksum - data[index] - 1) % 0x100;
    }
  }

  // --------------------------------------------------------------- the uploader

  /** validateGameBoy. */
  method ValidateGameBoy(data: seq<byte>, colorOnly: bool) returns (ok: bool)
    requires |data| <= MAXIMUM
    ensures ok <==> GameBoy(data) && (colorOnly ==> Colored(data))
  {
    if |data| < 0x150 || data[0x104..0x134] != LOGO { return false; }
    var checksum := Checksum(data, 0x134, 0x14d);
    if checksum != data[0x14d] {
      if GameBoy(data) {
        OneChecksum(data[0x134..0x14d], checksum, data[0x14d]);
      }
      return false;
    }
    ok := !(colorOnly && data[0x143] != 0x80 && data[0x143] != 0xc0);
  }

  /** The uploader's limit. */
  function Maximum(system: text): nat { if system == Text("chip8") then CHIP8_MAXIMUM else MAXIMUM }

  /** validateROM, for a supported system: the playable data up to the system's limit. */
  method ValidateRom(system: text, data: seq<byte>) returns (ok: bool)
    requires system in [Text("nes"), Text("gb"), Text("gbc"), Text("zx"), Text("chip8")]
    ensures ok <==> Playable(system, data) && |data| <= if system == Text("chip8") then 65024 else 8388608
  {
    Different();
    if |data| == 0 || |data| > Maximum(system) { return false; }
    if system == Text("nes") {
      ok := !(|data| < 16 || data[..4] != NES_MAGIC);
    } else if system == Text("gb") {
      ok := ValidateGameBoy(data, false);
    } else if system == Text("gbc") {
      ok := ValidateGameBoy(data, true);
    } else if system == Text("zx") {
      ok := Tap.ValidateZX(data);
    } else {
      ok := true;
    }
  }

  lemma Different()
    ensures Text("nes")[0] == 110 && Text("gb")[0] == 103 && Text("gbc")[0] == 103
    ensures Text("zx")[0] == 122 && Text("chip8")[0] == 99
  {
  }

  // ------------------------------------------------------------------- the menu

  /** validate_rom, once the file is open: exactly the playable data. The header of a Game Boy
      game is read into a buffer of its own. */
  method MenuValidates(system: text, file: seq<byte>) returns (ok: bool)
    ensures ok <==> Playable(system, file)
  {
    if system == Text("nes") {
      ok := !(|file| < 16 || file[..4] != NES_MAGIC);
    } else if system == Text("gb") || system == Text("gbc") {
      ok := MenuGameBoy(file, system == Text("gbc"));
    } else if system == Text("zx") {
      ok := Tap.ValidateTape(file);
    } else {
      ok := !(|file| < 1 || |file| > CHIP8_MAXIMUM);
    }
  }

  method MenuGameBoy(file: seq<byte>, color: bool) returns (ok: bool)
    ensures ok <==> GameBoy(file) && (color ==> Colored(file))
  {
    if |file| < 0x150 || |file| > MAXIMUM { return false; }
    var header := file[0x100..0x150];
    PartOfPart(file, 0x100, 0x150, 4, 0x34);
    PartOfPart(file, 0x100, 0x150, 0x34, 0x4d);
    if header[4..0x34] != LOGO { return false; }
    var checksum := Checksum(header, 0x34, 0x4d);
    if checksum != header[0x4d] {
      if GameBoy(file) {
        OneChecksum(file[0x134..0x14d], checksum, file[0x14d]);
      }
      return false;
    }
    ok := !(color && header[0x43] != 0x80 && header[0x43] != 0xc0);
  }
}
