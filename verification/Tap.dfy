/** ZX Spectrum tape images, checked twice: by the uploader and by the menu. A tape is a
    series of blocks, each with its length in two bytes in front and a zero checksum. */
module Tap {

  import opened Basics

  const MAXIMUM := 8 * 1024 * 1024

  // ------------------------------------------------------------ the language

  function Xor(a: byte, b: byte): byte {
    ((a as bv8) ^ (b as bv8)) as int
  }

  function Checksum(s: seq<byte>): byte {
    if s == [] then 0 else Xor(Checksum(s[..|s| - 1]), s[|s| - 1])
  }

  /** Bit k of a number. */
  function Bit(n: nat, k: nat): (bit: nat)
    ensures bit < 2
  {
    if k == 0 then n % 2 else Bit(n / 2, k - 1)
  }

  /** How many bytes have bit k. */
  function Ones(s: seq<byte>, k: nat): nat {
    if s == [] then 0 else Ones(s[..|s| - 1], k) + Bit(s[|s| - 1], k)
  }

  function Bits(a: byte): bv8 { a as bv8 }

  function Value(x: bv8): byte { x as int }

  lemma BitsOfValue(x: bv8)
    ensures Bits(Value(x)) == x
  {
  }

  lemma HalfOf(x: bv8)
    ensures Value(x) / 2 == Value(x >> 1)
    ensures Value(x) % 2 == if x & 1 == 1 then 1 else 0
  {
  }

  /** Every byte has its eight bits. */
  lemma {:induction false} Represented(a: byte) returns (x: bv8)
    ensures Value(x) == a
  {
    hide *;
    if a == 0 {
      x := 0;
      NothingIsZero();
    } else {
      var half := Represented(a / 2);
      x := Double(half, a % 2 == 1);
      Doubled(half, a % 2 == 1);
      HalfOf(x);
    }
  }

  lemma NothingIsZero()
    ensures Value(0) == 0
  {
  }

  function Double(half: bv8, one: bool): bv8 {
    if one then (half << 1) | 1 else half << 1
  }

  lemma Doubled(half: bv8, one: bool)
    requires Value(half) < 0x80
    ensures Double(half, one) >> 1 == half && (Double(half, one) & 1 == 1 <==> one)
  {
    HalfFits(half);
    hide Value;
  }

  lemma HalfFits(half: bv8)
    requires Value(half) < 0x80
    ensures half < 0x80
  {
  }

  lemma ValueOfBits(a: byte)
    ensures Value(Bits(a)) == a
  {
    hide *;
    var x := Represented(a);
    BitsOfValue(x);
  }

  lemma XorParts(x: bv8, y: bv8)
    ensures (x ^ y) >> 1 == (x >> 1) ^ (y >> 1)
    ensures (x ^ y) & 1 == 1 <==> !(x & 1 == 1 <==> y & 1 == 1)
  {
  }

  lemma XorIs(a: byte, b: byte)
    ensures Xor(a, b) == Value(Bits(a) ^ Bits(b))
  {
  }

  lemma XorLowest(a: byte, b: byte)
    ensures Xor(a, b) % 2 == (a % 2 + b % 2) % 2
  {
    hide *;
    var x, y := Bits(a), Bits(b);
    XorIs(a, b);
    ValueOfBits(a);
    ValueOfBits(b);
    HalfOf(x);
    HalfOf(y);
    HalfOf(x ^ y);
    XorParts(x, y);
  }

  lemma XorHalf(a: byte, b: byte)
    ensures Xor(a, b) / 2 == Xor(a / 2, b / 2)
  {
    hide *;
    var x, y := Bits(a), Bits(b);
    HalfBits(a);
    HalfBits(b);
    XorIs(a, b);
    XorIs(a / 2, b / 2);
    HalfOf(x ^ y);
    XorParts(x, y);
  }

  lemma HalfBits(a: byte)
    ensures Bits(a / 2) == Bits(a) >> 1
  {
    hide *;
    ValueOfBits(a);
    HalfOf(Bits(a));
    BitsOfValue(Bits(a) >> 1);
  }

  lemma {:induction false} XorBit(a: byte, b: byte, k: nat)
    ensures Bit(Xor(a, b), k) == (Bit(a, k) + Bit(b, k)) % 2
  {
    XorLowest(a, b);
    XorHalf(a, b);
    hide Xor;
    if k > 0 {
      XorBit(a / 2, b / 2, k - 1);
    }
  }

  /** Bit k of the checksum says whether an odd number of bytes have it. */
  lemma {:induction false} ChecksumIsParity(s: seq<byte>, k: nat)
    ensures Bit(Checksum(s), k) == Ones(s, k) % 2
  {
    hide Xor, Bit;
    if s == [] {
      ZeroHasNone(k);
    } else {
      ChecksumIsParity(s[..|s| - 1], k);
      XorBit(Checksum(s[..|s| - 1]), s[|s| - 1], k);
    }
  }

  lemma {:induction false} ZeroHasNone(k: nat)
    ensures Bit(0, k) == 0
  {
    if k > 0 {
      ZeroHasNone(k - 1);
    }
  }

  lemma {:induction false} NoneIsZero(n: nat)
    requires forall k :: 0 <= k ==> Bit(n, k) == 0
    ensures n == 0
  {
    if n > 0 {
      assert Bit(n, 0) == 0;
      forall k | 0 <= k
        ensures Bit(n / 2, k) == 0
      {
        assert Bit(n, k + 1) == Bit(n / 2, k);
      }
      NoneIsZero(n / 2);
    }
  }

  ghost predicate EvenBits(s: seq<byte>) {
    forall k :: 0 <= k ==> Ones(s, k) % 2 == 0
  }

  lemma ZeroMeansEven(s: seq<byte>)
    ensures Checksum(s) == 0 <==> EvenBits(s)
  {
    hide Bit, Ones, Checksum;
    if Checksum(s) == 0 {
      forall k | 0 <= k
        ensures Ones(s, k) % 2 == 0
      {
        ChecksumIsParity(s, k);
        ZeroHasNone(k);
      }
    }
    if EvenBits(s) {
      forall k | 0 <= k
        ensures Bit(Checksum(s), k) == 0
      {
        ChecksumIsParity(s, k);
      }
      NoneIsZero(Checksum(s));
    }
  }

  /** In a good block every bit is in an even number of bytes. */
  lemma GoodIsEven(block: seq<byte>)
    ensures GoodBlock(block) <==> 2 <= |block| <= 65535 && EvenBits(block)
  {
    ZeroMeansEven(block);
    hide EvenBits, Checksum;
  }

  predicate GoodBlock(block: seq<byte>) {
    2 <= |block| < 0x1_0000 && Checksum(block) == 0
  }

  function SizeOf(low: byte, high: byte): (r: nat)
    ensures r < 0x1_0000
  {
    low + 256 * high
  }

  function Framed(block: seq<byte>): seq<byte>
    requires |block| < 0x1_0000
  {
    [|block| % 256, |block| / 256] + block
  }

  predicate GoodBlocks(blocks: seq<seq<byte>>) {
    forall k :: 0 <= k < |blocks| ==> GoodBlock(blocks[k])
  }

  function Tape(blocks: seq<seq<byte>>): seq<byte>
    requires GoodBlocks(blocks)
  {
    if blocks == [] then [] else Framed(blocks[0]) + Tape(blocks[1..])
  }

  // --------------------------------------------------------------- splitting

  /** Size of the block at i; 0 if there is no good one. */
  function GoodSize(data: seq<byte>, i: nat): (size: nat)
    ensures size > 0 ==> 2 <= size && i + 2 + size <= |data|
  {
    if |data| < i + 2 then 0
    else
      var size := SizeOf(data[i], data[i + 1]);
      if size < 2 || size > |data| - (i + 2) || Checksum(data[i + 2..i + 2 + size]) != 0 then 0 else size
  }

  predicate Splits(data: seq<byte>, i: nat)
    decreases |data| - i
  {
    i >= |data| || (GoodSize(data, i) > 0 && Splits(data, i + 2 + GoodSize(data, i)))
  }

  function Split(data: seq<byte>, i: nat): seq<seq<byte>>
    requires Splits(data, i)
    decreases |data| - i
  {
    if i >= |data| then []
    else
      var size := GoodSize(data, i);
      [data[i + 2..i + 2 + size]] + Split(data, i + 2 + size)
  }

  /** Only a good block, framed, is read as that block. */
  lemma BlockIsFramed(data: seq<byte>, i: nat, size: nat)
    requires size == GoodSize(data, i) > 0
    ensures GoodBlock(data[i + 2..i + 2 + size]) && data[i..i + 2 + size] == Framed(data[i + 2..i + 2 + size])
  {
  }

  lemma FramedParts(block: seq<byte>, rest: seq<byte>)
    requires |block| < 0x1_0000
    ensures var all := Framed(block) + rest;
      && SizeOf(all[0], all[1]) == |block|
      && all[2..2 + |block|] == block && all[2 + |block|..] == rest
  {
  }

  lemma FramedIsRead(data: seq<byte>, i: nat, block: seq<byte>, rest: seq<byte>)
    requires GoodBlock(block) && i <= |data| && data[i..] == Framed(block) + rest
    ensures i < |data| && GoodSize(data, i) == |block|
    ensures data[i + 2..i + 2 + |block|] == block && data[i + 2 + |block|..] == rest
  {
    var n := |block|;
    assert |data[i..]| == 2 + n + |rest|;
    PartOfRest(data, i, 2, 2 + n);
    FramedParts(block, rest);
    assert data[i] == data[i..][0] && data[i + 1] == data[i..][1];
  }

  /** A framed block in front is split off. */
  lemma FramedSplits(data: seq<byte>, i: nat, block: seq<byte>, rest: seq<byte>) returns (next: nat)
    requires GoodBlock(block) && i <= |data| && data[i..] == Framed(block) + rest
    ensures i < next <= |data| && data[next..] == rest && next == i + |Framed(block)|
    ensures Splits(data, i) == Splits(data, next)
    ensures Splits(data, next) ==> Split(data, i) == [block] + Split(data, next)
  {
    FramedIsRead(data, i, block, rest);
    next := i + 2 + |block|;
  }

  lemma {:induction false} TapeSplits(data: seq<byte>, i: nat, blocks: seq<seq<byte>>)
    requires GoodBlocks(blocks) && i <= |data| && data[i..] == Tape(blocks)
    ensures Splits(data, i) && Split(data, i) == blocks
    decreases blocks
  {
    if blocks != [] {
      var next := FramedSplits(data, i, blocks[0], Tape(blocks[1..]));
      TapeSplits(data, next, blocks[1..]);
      assert [blocks[0]] + blocks[1..] == blocks;
    }
  }

  lemma {:induction false} SplitIsTape(data: seq<byte>, i: nat)
    requires i <= |data| && Splits(data, i)
    ensures GoodBlocks(Split(data, i)) && data[i..] == Tape(Split(data, i))
    decreases |data| - i
  {
    hide *;
    if i == |data| {
      NothingToSplit(data);
    } else {
      SplitNext(data, i);
      var next := i + 2 + GoodSize(data, i);
      BlockIsFramed(data, i, GoodSize(data, i));
      SplitIsTape(data, next);
      OneMoreBlock(data[i + 2..next], Split(data, next));
      CutAgain(data, i, next);
    }
  }

  lemma NothingToSplit(data: seq<byte>)
    ensures data[|data|..] == [] && Splits(data, |data|) && Split(data, |data|) == []
    ensures GoodBlocks([]) && Tape([]) == []
  {
  }

  lemma SplitsNext(data: seq<byte>, i: nat)
    ensures Splits(data, i) ==
      (i >= |data| || (GoodSize(data, i) > 0 && Splits(data, i + 2 + GoodSize(data, i))))
  {
    hide GoodSize;
  }

  lemma SplitNext(data: seq<byte>, i: nat)
    requires i < |data| && Splits(data, i)
    ensures var next := i + 2 + GoodSize(data, i);
      GoodSize(data, i) > 0 && Splits(data, next) && Split(data, i) == [data[i + 2..next]] + Split(data, next)
  {
    hide GoodSize;
  }

  lemma OneMoreBlock(block: seq<byte>, rest: seq<seq<byte>>)
    requires GoodBlock(block) && GoodBlocks(rest)
    ensures GoodBlocks([block] + rest) && Tape([block] + rest) == Framed(block) + Tape(rest)
  {
  }

  /** The byte strings both programs accept. */
  predicate IsTape(data: seq<byte>) {
    0 < |data| <= MAXIMUM && Splits(data, 0)
  }

  /** Tapes are exactly the series of at least one good block that fit in 8 MiB. */
  lemma TapesAreBlocks(data: seq<byte>)
    ensures IsTape(data) <==>
      |data| <= 8388608 && exists blocks :: blocks != [] && GoodBlocks(blocks) && data == Tape(blocks)
  {
    assert data[0..] == data;
    forall blocks | GoodBlocks(blocks) && data == Tape(blocks)
      ensures Splits(data, 0)
    {
      TapeSplits(data, 0, blocks);
    }
    if Splits(data, 0) {
      SplitIsTape(data, 0);
    }
  }

  /** There is only one way to split a tape. */
  lemma OneSplit(a: seq<seq<byte>>, b: seq<seq<byte>>)
    requires GoodBlocks(a) && GoodBlocks(b) && Tape(a) == Tape(b)
    ensures a == b
  {
    assert Tape(a)[0..] == Tape(a);
    TapeSplits(Tape(a), 0, a);
    TapeSplits(Tape(a), 0, b);
  }

  lemma {:induction false} TapeJoins(a: seq<seq<byte>>, b: seq<seq<byte>>)
    requires GoodBlocks(a) && GoodBlocks(b)
    ensures GoodBlocks(a + b) && Tape(a + b) == Tape(a) + Tape(b)
  {
    hide Checksum, Framed;
    if a == [] {
      EmptyJoins(b);
      EmptyJoins(Tape(b));
    } else {
      HeadJoins(a, b);
      TapeJoins(a[1..], b);
      Joins(Framed(a[0]), Tape(a[1..]), Tape(b));
    }
  }

  /** Splitting looks only ahead. */
  lemma {:induction false} SplitsShifted(all: seq<byte>, b: seq<byte>, shift: nat, i: nat)
    requires |all| == shift + |b| && all[shift..] == b
    ensures Splits(all, shift + i) == Splits(b, i)
    decreases |b| - i
  {
    hide *;
    SizeShifted(all, b, shift, i);
    SplitsNext(all, shift + i);
    SplitsNext(b, i);
    if i < |b| && GoodSize(b, i) > 0 {
      SplitsShifted(all, b, shift, i + 2 + GoodSize(b, i));
    }
  }

  lemma SizeShifted(all: seq<byte>, b: seq<byte>, shift: nat, i: nat)
    requires |all| == shift + |b| && all[shift..] == b
    ensures GoodSize(all, shift + i) == GoodSize(b, i)
  {
    if i + 2 <= |b| {
      assert all[shift + i] == b[i] && all[shift + i + 1] == b[i + 1];
      var size := SizeOf(b[i], b[i + 1]);
      if size <= |b| - (i + 2) {
        PartOfRest(all, shift, i + 2, i + 2 + size);
      }
    }
  }

  lemma SizeAhead(a: seq<byte>, all: seq<byte>, i: nat)
    requires a <= all && GoodSize(a, i) > 0
    ensures GoodSize(all, i) == GoodSize(a, i)
  {
    var size := GoodSize(a, i);
    assert all[i + 2..i + 2 + size] == a[i + 2..i + 2 + size];
  }

  /** Blocks in front make no difference to what follows them. */
  lemma {:induction false} SplitsOn(a: seq<byte>, all: seq<byte>, i: nat)
    requires a <= all && i <= |a| && Splits(a, i)
    ensures Splits(all, i) == Splits(all, |a|)
    decreases |a| - i
  {
    hide *;
    if i < |a| {
      SplitsNext(a, i);
      SplitsNext(all, i);
      SizeAhead(a, all, i);
      SplitsOn(a, all, i + 2 + GoodSize(a, i));
    }
  }

  /** After a tape, just the tapes make the whole a tape, as long as it fits. */
  lemma TapesJoin(a: seq<byte>, b: seq<byte>)
    requires IsTape(a) && b != []
    ensures IsTape(a + b) <==> IsTape(b) && |a| + |b| <= 8388608
  {
    hide Splits;
    SplitsOn(a, a + b, 0);
    SplitsShifted(a + b, b, |a|, 0);
  }

  // ------------------------------------------------------------ the validators

  method ChecksumOf(data: seq<byte>, offset: nat, size: nat) returns (checksum: byte)
    requires offset + size <= |data|
    ensures checksum == Checksum(data[offset..offset + size])
  {
    checksum := 0;
    for index := 0 to size
      invariant checksum == Checksum(data[offset..offset + index])
    {
      assert data[offset..offset + index + 1][..index] == data[offset..offset + index];
      checksum := Xor(checksum, data[offset + index]);
    }
  }

  /** The checks on one block, the same in both programs. */
  method CheckBlock(data: seq<byte>, offset: nat) returns (size: nat)
    requires offset < |data|
    ensures size == GoodSize(data, offset)
  {
    if |data| - offset < 2 { return 0; }
    size := SizeOf(data[offset], data[offset + 1]);
    if size < 2 || size > |data| - (offset + 2) { return 0; }
    var checksum := ChecksumOf(data, offset + 2, size);
    if checksum != 0 { return 0; }
  }

  lemma TooShort(data: seq<byte>)
    requires 0 < |data| < 4
    ensures !IsTape(data)
  {
  }

  /** The uploader: validateROM for a tape, then validateZX. */
  method ValidateZX(data: seq<byte>) returns (ok: bool)
    ensures ok <==> IsTape(data)
  {
    if |data| == 0 || |data| > MAXIMUM { return false; }
    if |data| < 4 {
      TooShort(data);
      return false;
    }
    var blocks, offset := 0, 0;
    while offset < |data|
      invariant offset <= |data| && (blocks == 0 <==> offset == 0)
      invariant Splits(data, offset) <==> IsTape(data)
      decreases |data| - offset
    {
      var blockSize := CheckBlock(data, offset);
      if blockSize == 0 { return false; }
      offset := offset + 2 + blockSize;
      blocks := blocks + 1;
    }
    ok := blocks != 0;
  }

  /** The menu: the tape branch of validate_rom. */
  method ValidateTape(tape: seq<byte>) returns (ok: bool)
    ensures ok <==> IsTape(tape)
  {
    if |tape| < 4 || |tape| > MAXIMUM {
      if 0 < |tape| < 4 {
        TooShort(tape);
      }
      return false;
    }
    ok := true;
    var offset := 0;
    while ok && offset < |tape|
      invariant offset <= |tape|
      invariant ok ==> (Splits(tape, offset) <==> IsTape(tape))
      invariant !ok ==> !IsTape(tape)
      decreases ok, |tape| - offset
    {
      var blockSize := CheckBlock(tape, offset);
      if blockSize == 0 {
        ok := false;
        break;
      }
      offset := offset + 2 + blockSize;
    }
  }
}
