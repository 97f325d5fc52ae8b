/** The checksum at the end of a boot image: a table-driven CRC-32 and the polynomial
    division it stands for. The divisor is that of the frame check sequence in section
    3.2.9 of IEEE 802.3-2018; bits are taken most significant first. */
module Crc {

  /* ----- division of bit strings ----- */

  type Bits = seq<bool>

  /** The divisor without its leading coefficient. */
  const POLY: bv32 := 0x04c1_1db7

  function Top(x: bv32): bool {
    x & 0x8000_0000 != 0
  }

  function Left(x: bv32): bv32 {
    x << 1
  }

  /** Addition of polynomials. */
  function Add(x: bv32, y: bv32): bv32 {
    x ^ y
  }

  /** The n most significant bits. */
  function BitsOf(x: bv32, n: nat): (b: Bits)
    ensures |b| == n
    decreases n
  {
    if n == 0 then [] else [Top(x)] + BitsOf(Left(x), n - 1)
  }

  function Zeros(n: nat): Bits {
    seq(n, i => false)
  }

  /** Bitwise difference, aligned at the front. */
  function Xor(a: Bits, b: Bits): (c: Bits)
    requires |b| <= |a|
    ensures |c| == |a|
  {
    seq(|a|, i requires 0 <= i < |a| => if i < |b| then a[i] != b[i] else a[i])
  }

  /** Long division, one bit of the quotient at a time: the remainder. */
  function Divide(m: Bits): (r: Bits)
    requires |m| >= 32
    ensures |r| == 32
    decreases |m|
  {
    if |m| == 32 then m
    else Divide(if m[0] then Xor(m[1..], BitsOf(POLY, 32)) else m[1..])
  }

  function ByteBits(b: bv8): Bits {
    BitsOf(Feed(b), 8)
  }

  function MessageBits(bytes: seq<bv8>): Bits {
    if bytes == [] then [] else MessageBits(bytes[..|bytes| - 1]) + ByteBits(bytes[|bytes| - 1])
  }

  /** What is divided: the message followed by 32 zeros, with the initial register
      added at the front. */
  function Dividend(crc: bv32, message: Bits): (m: Bits)
    ensures |m| == |message| + 32
  {
    Xor(message + Zeros(32), BitsOf(crc, 32))
  }

  /* ----- division in a register ----- */

  function DivStep(x: bv32): bv32 {
    if x & 0x8000_0000 != 0 then (x << 1) ^ 0x04c1_1db7 else x << 1
  }

  lemma DivStepParts(x: bv32)
    ensures DivStep(x) == if Top(x) then Add(Left(x), POLY) else Left(x)
  {
  }

  function DivSteps(x: bv32, n: nat): bv32
    decreases n
  {
    if n == 0 then x else DivSteps(DivStep(x), n - 1)
  }

  function TopBit(bit: bool): bv32 {
    if bit then 0x8000_0000 else 0
  }

  /** Takes in one bit of the message. */
  function BitStep(crc: bv32, bit: bool): bv32 {
    DivStep(Add(crc, TopBit(bit)))
  }

  function Register(crc: bv32, message: Bits): bv32
    decreases message
  {
    if message == [] then crc else Register(BitStep(crc, message[0]), message[1..])
  }

  /** The register composes over concatenation. */
  lemma {:induction false} RegisterAppend(crc: bv32, a: Bits, b: Bits)
    ensures Register(crc, a + b) == Register(Register(crc, a), b)
    decreases a
  {
    hide BitStep;
    if a == [] {
      assert a + b == b;
    } else {
      assert (a + b)[1..] == a[1..] + b;
      RegisterAppend(BitStep(crc, a[0]), a[1..], b);
    }
  }

  lemma {:induction false} MessageAppend(a: seq<bv8>, b: seq<bv8>)
    ensures MessageBits(a + b) == MessageBits(a) + MessageBits(b)
    decreases b
  {
    hide ByteBits;
    if b == [] {
      assert a + b == a;
    } else {
      assert (a + b)[..|a + b| - 1] == a + b[..|b| - 1];
      MessageAppend(a, b[..|b| - 1]);
    }
  }

  /** So does the checksum. */
  lemma Composes(crc: bv32, a: seq<bv8>, b: seq<bv8>)
    ensures Register(crc, MessageBits(a + b)) == Register(Register(crc, MessageBits(a)), MessageBits(b))
  {
    hide *;
    MessageAppend(a, b);
    RegisterAppend(crc, MessageBits(a), MessageBits(b));
  }

  /* ----- a register as bits ----- */

  function Shl(x: bv32, n: nat): bv32
    decreases n
  {
    if n == 0 then x else Shl(Left(x), n - 1)
  }

  lemma {:induction false} ShlPlus(x: bv32, m: nat, n: nat)
    ensures Shl(x, m + n) == Shl(Shl(x, m), n)
    decreases m
  {
    hide Left;
    if m > 0 {
      ShlPlus(Left(x), m - 1, n);
    }
  }

  lemma LeftTwice(x: bv32)
    ensures Left(x) == x << 1 && Left(x << 1) == x << 2 && Left(x << 2) == x << 3 && Left(x << 3) == x << 4
    ensures Left(x << 4) == x << 5 && Left(x << 5) == x << 6 && Left(x << 6) == x << 7 && Left(x << 7) == x << 8
  {
  }

  lemma ShlByte(x: bv32)
    ensures Shl(x, 8) == x << 8
  {
    LeftTwice(x);
    hide Left;
    assert Shl(x, 8) == Shl(x << 1, 7) == Shl(x << 2, 6) == Shl(x << 3, 5) == Shl(x << 4, 4);
    assert Shl(x << 4, 4) == Shl(x << 5, 3) == Shl(x << 6, 2) == Shl(x << 7, 1) == Shl(x << 8, 0);
  }

  lemma ShlAll(x: bv32)
    ensures Shl(x, 32) == 0
  {
    hide Shl;
    ShlPlus(x, 8, 24);
    ShlPlus(x << 8, 8, 16);
    ShlPlus(x << 16, 8, 8);
    ShlByte(x);
    ShlByte(x << 8);
    ShlByte(x << 16);
    ShlByte(x << 24);
  }

  lemma {:induction false} BitsSplit(x: bv32, m: nat, n: nat)
    ensures BitsOf(x, m + n) == BitsOf(x, m) + BitsOf(Shl(x, m), n)
    decreases m
  {
    hide Left, Top;
    if m > 0 {
      BitsSplit(Left(x), m - 1, n);
    }
  }

  lemma BitsHead(x: bv32, n: nat)
    ensures BitsOf(x, n + 1) == [Top(x)] + BitsOf(Left(x), n)
  {
  }

  lemma OneZero()
    ensures BitsOf(0, 1) == [false]
  {
  }

  /** Shifting drops the first bit and brings in a zero. */
  lemma BitsShift(x: bv32)
    ensures BitsOf(Left(x), 32) == BitsOf(x, 32)[1..] + [false]
  {
    hide *;
    BitsSplit(x, 32, 1);
    ShlAll(x);
    BitsHead(x, 32);
    OneZero();
    assert BitsOf(x, 33)[1..] == BitsOf(Left(x), 32);
  }

  /** Addition is bit by bit. */
  lemma AddBits(x: bv32, y: bv32)
    ensures Top(Add(x, y)) <==> Top(x) != Top(y)
    ensures Left(Add(x, y)) == Add(Left(x), Left(y))
  {
    hide *;
    TopAdds(x, y);
    LeftAdds(x, y);
  }

  lemma TopAdds(x: bv32, y: bv32)
    ensures Top(Add(x, y)) <==> Top(x) != Top(y)
  {
  }

  lemma LeftAdds(x: bv32, y: bv32)
    ensures Left(Add(x, y)) == Add(Left(x), Left(y))
  {
  }

  lemma AddLaws(x: bv32, y: bv32, z: bv32)
    ensures Add(Add(x, y), z) == Add(x, Add(y, z)) && Add(x, y) == Add(y, x)
    ensures Add(x, x) == 0 && Add(x, 0) == x
  {
    hide *;
    AddAssociative(x, y, z);
    AddCommutative(x, y);
    AddSelf(x);
    AddZero(x);
  }

  lemma AddAssociative(x: bv32, y: bv32, z: bv32)
    ensures Add(Add(x, y), z) == Add(x, Add(y, z))
  {
  }

  lemma AddCommutative(x: bv32, y: bv32)
    ensures Add(x, y) == Add(y, x)
  {
  }

  lemma AddSelf(x: bv32)
    ensures Add(x, x) == 0
  {
  }

  lemma AddZero(x: bv32)
    ensures Add(x, 0) == x
  {
  }

  lemma {:induction false} BitsXor(x: bv32, y: bv32, n: nat)
    ensures BitsOf(Add(x, y), n) == Xor(BitsOf(x, n), BitsOf(y, n))
    decreases n
  {
    hide Left, Top, Add;
    if n > 0 {
      AddBits(x, y);
      BitsXor(Left(x), Left(y), n - 1);
    }
  }

  lemma FourBits(x: bv32)
    ensures BitsOf(x, 4) == [Top(x), Top(Left(x)), Top(Left(Left(x))), Top(Left(Left(Left(x))))]
    ensures Shl(x, 4) == Left(Left(Left(Left(x))))
  {
    hide Left, Top;
  }

  lemma EightBits(x: bv32)
    ensures var x2, x4, x6 := Left(Left(x)), Left(Left(Left(Left(x)))), Left(Left(Left(Left(Left(Left(x))))));
      BitsOf(x, 8) == [Top(x), Top(Left(x)), Top(x2), Top(Left(x2)), Top(x4), Top(Left(x4)), Top(x6), Top(Left(x6))]
  {
    hide *;
    FourBits(x);
    FourBits(Left(Left(Left(Left(x)))));
    BitsSplit(x, 4, 4);
  }

  lemma EightTops(x: bv32, y: bv32)
    requires Top(x) == Top(y) && Top(x << 1) == Top(y << 1) && Top(x << 2) == Top(y << 2) && Top(x << 3) == Top(y << 3)
    requires Top(x << 4) == Top(y << 4) && Top(x << 5) == Top(y << 5) && Top(x << 6) == Top(y << 6) && Top(x << 7) == Top(y << 7)
    ensures x & 0xff00_0000 == y & 0xff00_0000
  {
  }

  lemma ByteDetermined(x: bv32, y: bv32)
    requires BitsOf(x, 8) == BitsOf(y, 8)
    ensures x & 0xff00_0000 == y & 0xff00_0000
  {
    EightBits(x);
    EightBits(y);
    LeftTwice(x);
    LeftTwice(y);
    hide BitsOf, Top, Left;
    var a, b := BitsOf(x, 8), BitsOf(y, 8);
    assert a[0] == b[0] && a[1] == b[1] && a[2] == b[2] && a[3] == b[3];
    assert a[4] == b[4] && a[5] == b[5] && a[6] == b[6] && a[7] == b[7];
    EightTops(x, y);
  }

  lemma BitsByte(x: bv32)
    ensures BitsOf(x, 32) == BitsOf(x, 8) + (BitsOf(x << 8, 8) + (BitsOf(x << 16, 8) + BitsOf(x << 24, 8)))
  {
    hide BitsOf, Shl;
    BitsSplit(x, 8, 24);
    BitsSplit(x << 8, 8, 16);
    BitsSplit(x << 16, 8, 8);
    ShlByte(x);
    ShlByte(x << 8);
    ShlByte(x << 16);
  }

  lemma FourBytes(x: bv32, y: bv32)
    requires x & 0xff00_0000 == y & 0xff00_0000 && (x << 8) & 0xff00_0000 == (y << 8) & 0xff00_0000
    requires (x << 16) & 0xff00_0000 == (y << 16) & 0xff00_0000 && (x << 24) & 0xff00_0000 == (y << 24) & 0xff00_0000
    ensures x == y
  {
  }

  lemma Quarters(a: Bits, b: Bits, c: Bits, d: Bits)
    requires |a| == 8 && |b| == 8 && |c| == 8 && |d| == 8
    ensures var m := a + (b + (c + d)); m[..8] == a && m[8..16] == b && m[16..24] == c && m[24..] == d
  {
  }

  /** The bits determine the register. */
  lemma BitsDetermine(x: bv32, y: bv32)
    requires BitsOf(x, 32) == BitsOf(y, 32)
    ensures x == y
  {
    hide BitsOf;
    BitsByte(x);
    BitsByte(y);
    Quarters(BitsOf(x, 8), BitsOf(x << 8, 8), BitsOf(x << 16, 8), BitsOf(x << 24, 8));
    Quarters(BitsOf(y, 8), BitsOf(y << 8, 8), BitsOf(y << 16, 8), BitsOf(y << 24, 8));
    ByteDetermined(x, y);
    ByteDetermined(x << 8, y << 8);
    ByteDetermined(x << 16, y << 16);
    ByteDetermined(x << 24, y << 24);
    FourBytes(x, y);
  }

  /* ----- the register holds the remainder ----- */

  lemma XorXor(a: Bits, x: bv32, y: bv32)
    requires |a| >= 32
    ensures Xor(Xor(a, BitsOf(x, 32)), BitsOf(y, 32)) == Xor(a, BitsOf(Add(x, y), 32))
  {
    hide BitsOf, Add;
    BitsXor(x, y, 32);
  }

  /** A bit added at the top disappears with the shift. */
  lemma FedBit(crc: bv32, bit: bool)
    ensures Top(Add(crc, TopBit(bit))) == (bit != Top(crc))
    ensures Left(Add(crc, TopBit(bit))) == Left(crc)
  {
    hide *;
    FedTop(crc, bit);
    FedLeft(crc, bit);
  }

  lemma FedTop(crc: bv32, bit: bool)
    ensures Top(Add(crc, TopBit(bit))) == (bit != Top(crc))
  {
  }

  lemma FedLeft(crc: bv32, bit: bool)
    ensures Left(Add(crc, TopBit(bit))) == Left(crc)
  {
  }

  lemma DividendHead(crc: bv32, bit: bool, rest: Bits)
    ensures var m := Dividend(crc, [bit] + rest);
      m[0] == (bit != Top(crc)) && m[1..] == Xor(rest + Zeros(32), BitsOf(Left(crc), 32))
  {
    hide Top, Left, BitsOf;
    BitsShift(crc);
    BitsHead(crc, 31);
    assert BitsOf(crc, 32)[0] == Top(crc);
    assert ([bit] + rest) + Zeros(32) == [bit] + (rest + Zeros(32));
  }

  /** One step of the division is one step of the register. */
  lemma DivideStep(crc: bv32, bit: bool, rest: Bits)
    ensures Divide(Dividend(crc, [bit] + rest)) == Divide(Dividend(BitStep(crc, bit), rest))
  {
    hide Top, Left, Add, BitsOf, Zeros, Xor, TopBit, DivStep;
    DivStepParts(Add(crc, TopBit(bit)));
    var m, tail := Dividend(crc, [bit] + rest), rest + Zeros(32);
    DividendHead(crc, bit, rest);
    FedBit(crc, bit);
    assert |m| > 32;
    if m[0] {
      XorXor(tail, Left(crc), POLY);
    }
  }

  /** The register after a message is the remainder of the division. */
  lemma {:induction false} RegisterIsRemainder(crc: bv32, message: Bits)
    ensures BitsOf(Register(crc, message), 32) == Divide(Dividend(crc, message))
    decreases message
  {
    if message == [] {
      hide BitsOf;
      assert Dividend(crc, []) == BitsOf(crc, 32);
    } else {
      hide BitsOf, Dividend, Divide, BitStep;
      assert message == [message[0]] + message[1..];
      DivideStep(crc, message[0], message[1..]);
      RegisterIsRemainder(BitStep(crc, message[0]), message[1..]);
    }
  }

  /* ----- eight bits at a time ----- */

  lemma DivStepLinear(x: bv32, y: bv32)
    ensures DivStep(Add(x, y)) == Add(DivStep(x), DivStep(y))
  {
    hide Top, Left, Add, DivStep;
    AddBits(x, y);
    DivStepParts(x);
    DivStepParts(y);
    DivStepParts(Add(x, y));
    var a, b := Left(x), Left(y);
    AddLaws(a, b, POLY);
    AddLaws(a, POLY, b);
    AddLaws(a, POLY, Add(b, POLY));
    AddLaws(b, POLY, POLY);
    AddLaws(POLY, b, POLY);
  }

  lemma FeedOne(crc: bv32, y: bv32)
    ensures Add(BitStep(crc, Top(y)), Left(y)) == DivStep(Add(crc, y))
  {
    hide Top, Left, Add, TopBit, DivStep;
    AddBits(crc, y);
    DivStepParts(Add(crc, y));
    DivStepParts(Add(crc, TopBit(Top(y))));
    FedBit(crc, Top(y));
    AddLaws(Left(crc), POLY, Left(y));
    AddLaws(Left(crc), Left(y), POLY);
    AddLaws(POLY, Left(y), 0);
  }

  /** Feeding bits one by one is feeding them all at once and then dividing. */
  lemma {:induction false} FeedAtOnce(crc: bv32, y: bv32, n: nat)
    requires Shl(y, n) == 0
    ensures Register(crc, BitsOf(y, n)) == DivSteps(Add(crc, y), n)
    decreases n
  {
    hide Top, Left, Add, DivStep, BitStep;
    if n == 0 {
      AddLaws(crc, 0, 0);
    } else {
      FeedOne(crc, y);
      assert BitsOf(y, n)[1..] == BitsOf(Left(y), n - 1);
      FeedAtOnce(BitStep(crc, Top(y)), Left(y), n - 1);
    }
  }

  function DivByte(x: bv32): bv32 {
    DivStep(DivStep(DivStep(DivStep(DivStep(DivStep(DivStep(DivStep(x))))))))
  }

  lemma DivEight(x: bv32)
    ensures DivSteps(x, 8) == DivByte(x)
  {
    hide DivStep;
    var y := DivStep(DivStep(DivStep(DivStep(x))));
    assert DivSteps(x, 8) == DivSteps(y, 4);
    assert DivSteps(y, 4) == DivStep(DivStep(DivStep(DivStep(y))));
  }

  lemma DivByteLinear(x: bv32, y: bv32)
    ensures DivByte(Add(x, y)) == Add(DivByte(x), DivByte(y))
  {
    hide DivStep, Add;
    DivStepLinear(x, y);
    var x1, y1 := DivStep(x), DivStep(y);
    DivStepLinear(x1, y1);
    var x2, y2 := DivStep(x1), DivStep(y1);
    DivStepLinear(x2, y2);
    var x3, y3 := DivStep(x2), DivStep(y2);
    DivStepLinear(x3, y3);
    var x4, y4 := DivStep(x3), DivStep(y3);
    DivStepLinear(x4, y4);
    var x5, y5 := DivStep(x4), DivStep(y4);
    DivStepLinear(x5, y5);
    var x6, y6 := DivStep(x5), DivStep(y5);
    DivStepLinear(x6, y6);
    DivStepLinear(DivStep(x6), DivStep(y6));
  }

  /** A byte of the message above the register. */
  function Feed(b: bv8): bv32 {
    (b as bv32) << 24
  }

  /** The index into the table. */
  function Index(crc: bv32, b: bv8): bv32 {
    ((crc >> 24) ^ (b as bv32)) & 0xff
  }

  function High(x: bv32): bv32 {
    (x >> 24) << 24
  }

  function Low(x: bv32): bv32 {
    x & 0x00ff_ffff
  }

  lemma DivByteLow(x: bv32)
    ensures DivByte(Low(x)) == x << 8
  {
  }

  lemma HighLow(x: bv32)
    ensures Add(High(x), Low(x)) == x
  {
  }

  lemma IndexAbove(crc: bv32, b: bv8)
    ensures Index(crc, b) << 24 == Add(High(crc), Feed(b))
  {
  }

  lemma Halves(crc: bv32, b: bv8)
    ensures Add(crc, Feed(b)) == Add(Index(crc, b) << 24, Low(crc))
  {
    hide *;
    HighLow(crc);
    IndexAbove(crc, b);
    AddLaws(High(crc), Low(crc), Feed(b));
    AddLaws(Low(crc), Feed(b), 0);
    AddLaws(High(crc), Feed(b), Low(crc));
  }

  /** Dividing by a whole byte splits into the table entry of the top byte and a shift
      of the others. */
  lemma DivByteSplit(crc: bv32, b: bv8)
    ensures DivByte(Add(crc, Feed(b))) == Add(crc << 8, DivByte(Index(crc, b) << 24))
  {
    hide *;
    Halves(crc, b);
    AddLaws(DivByte(Index(crc, b) << 24), crc << 8, 0);
    DivByteLinear(Index(crc, b) << 24, Low(crc));
    DivByteLow(crc);
  }

  lemma ByteOut(b: bv8)
    ensures Feed(b) << 8 == 0
  {
  }

  /** Eight steps of the register for one byte. */
  lemma ByteStep(crc: bv32, b: bv8)
    ensures Register(crc, ByteBits(b)) == DivByte(Add(crc, Feed(b)))
  {
    hide Register, BitsOf, DivByte, DivSteps, Shl, Add, Feed;
    var y := Feed(b);
    ShlByte(y);
    ByteOut(b);
    FeedAtOnce(crc, y, 8);
    DivEight(Add(crc, y));
  }

  /* ----- the table ----- */

  const ROW_0: seq<bv32> := [
    0x00000000, 0x04c11db7, 0x09823b6e, 0x0d4326d9, 0x130476dc, 0x17c56b6b, 0x1a864db2, 0x1e475005,
    0x2608edb8, 0x22c9f00f, 0x2f8ad6d6, 0x2b4bcb61, 0x350c9b64, 0x31cd86d3, 0x3c8ea00a, 0x384fbdbd]
  const ROW_1: seq<bv32> := [
    0x4c11db70, 0x48d0c6c7, 0x4593e01e, 0x4152fda9, 0x5f15adac, 0x5bd4b01b, 0x569796c2, 0x52568b75,
    0x6a1936c8, 0x6ed82b7f, 0x639b0da6, 0x675a1011, 0x791d4014, 0x7ddc5da3, 0x709f7b7a, 0x745e66cd]
  const ROW_2: seq<bv32> := [
    0x9823b6e0, 0x9ce2ab57, 0x91a18d8e, 0x95609039, 0x8b27c03c, 0x8fe6dd8b, 0x82a5fb52, 0x8664e6e5,
    0xbe2b5b58, 0xbaea46ef, 0xb7a96036, 0xb3687d81, 0xad2f2d84, 0xa9ee3033, 0xa4ad16ea, 0xa06c0b5d]
  const ROW_3: seq<bv32> := [
    0xd4326d90, 0xd0f37027, 0xddb056fe, 0xd9714b49, 0xc7361b4c, 0xc3f706fb, 0xceb42022, 0xca753d95,
    0xf23a8028, 0xf6fb9d9f, 0xfbb8bb46, 0xff79a6f1, 0xe13ef6f4, 0xe5ffeb43, 0xe8bccd9a, 0xec7dd02d]
  const ROW_4: seq<bv32> := [
    0x34867077, 0x30476dc0, 0x3d044b19, 0x39c556ae, 0x278206ab, 0x23431b1c, 0x2e003dc5, 0x2ac12072,
    0x128e9dcf, 0x164f8078, 0x1b0ca6a1, 0x1fcdbb16, 0x018aeb13, 0x054bf6a4, 0x0808d07d, 0x0cc9cdca]
  const ROW_5: seq<bv32> := [
    0x7897ab07, 0x7c56b6b0, 0x71159069, 0x75d48dde, 0x6b93dddb, 0x6f52c06c, 0x6211e6b5, 0x66d0fb02,
    0x5e9f46bf, 0x5a5e5b08, 0x571d7dd1, 0x53dc6066, 0x4d9b3063, 0x495a2dd4, 0x44190b0d, 0x40d816ba]
  const ROW_6: seq<bv32> := [
    0xaca5c697, 0xa864db20, 0xa527fdf9, 0xa1e6e04e, 0xbfa1b04b, 0xbb60adfc, 0xb6238b25, 0xb2e29692,
    0x8aad2b2f, 0x8e6c3698, 0x832f1041, 0x87ee0df6, 0x99a95df3, 0x9d684044, 0x902b669d, 0x94ea7b2a]
  const ROW_7: seq<bv32> := [
    0xe0b41de7, 0xe4750050, 0xe9362689, 0xedf73b3e, 0xf3b06b3b, 0xf771768c, 0xfa325055, 0xfef34de2,
    0xc6bcf05f, 0xc27dede8, 0xcf3ecb31, 0xcbffd686, 0xd5b88683, 0xd1799b34, 0xdc3abded, 0xd8fba05a]
  const ROW_8: seq<bv32> := [
    0x690ce0ee, 0x6dcdfd59, 0x608edb80, 0x644fc637, 0x7a089632, 0x7ec98b85, 0x738aad5c, 0x774bb0eb,
    0x4f040d56, 0x4bc510e1, 0x46863638, 0x42472b8f, 0x5c007b8a, 0x58c1663d, 0x558240e4, 0x51435d53]
  const ROW_9: seq<bv32> := [
    0x251d3b9e, 0x21dc2629, 0x2c9f00f0, 0x285e1d47, 0x36194d42, 0x32d850f5, 0x3f9b762c, 0x3b5a6b9b,
    0x0315d626, 0x07d4cb91, 0x0a97ed48, 0x0e56f0ff, 0x1011a0fa, 0x14d0bd4d, 0x19939b94, 0x1d528623]
  const ROW_A: seq<bv32> := [
    0xf12f560e, 0xf5ee4bb9, 0xf8ad6d60, 0xfc6c70d7, 0xe22b20d2, 0xe6ea3d65, 0xeba91bbc, 0xef68060b,
    0xd727bbb6, 0xd3e6a601, 0xdea580d8, 0xda649d6f, 0xc423cd6a, 0xc0e2d0dd, 0xcda1f604, 0xc960ebb3]
  const ROW_B: seq<bv32> := [
    0xbd3e8d7e, 0xb9ff90c9, 0xb4bcb610, 0xb07daba7, 0xae3afba2, 0xaafbe615, 0xa7b8c0cc, 0xa379dd7b,
    0x9b3660c6, 0x9ff77d71, 0x92b45ba8, 0x9675461f, 0x8832161a, 0x8cf30bad, 0x81b02d74, 0x857130c3]
  const ROW_C: seq<bv32> := [
    0x5d8a9099, 0x594b8d2e, 0x5408abf7, 0x50c9b640, 0x4e8ee645, 0x4a4ffbf2, 0x470cdd2b, 0x43cdc09c,
    0x7b827d21, 0x7f436096, 0x7200464f, 0x76c15bf8, 0x68860bfd, 0x6c47164a, 0x61043093, 0x65c52d24]
  const ROW_D: seq<bv32> := [
    0x119b4be9, 0x155a565e, 0x18197087, 0x1cd86d30, 0x029f3d35, 0x065e2082, 0x0b1d065b, 0x0fdc1bec,
    0x3793a651, 0x3352bbe6, 0x3e119d3f, 0x3ad08088, 0x2497d08d, 0x2056cd3a, 0x2d15ebe3, 0x29d4f654]
  const ROW_E: seq<bv32> := [
    0xc5a92679, 0xc1683bce, 0xcc2b1d17, 0xc8ea00a0, 0xd6ad50a5, 0xd26c4d12, 0xdf2f6bcb, 0xdbee767c,
    0xe3a1cbc1, 0xe760d676, 0xea23f0af, 0xeee2ed18, 0xf0a5bd1d, 0xf464a0aa, 0xf9278673, 0xfde69bc4]
  const ROW_F: seq<bv32> := [
    0x89b8fd09, 0x8d79e0be, 0x803ac667, 0x84fbdbd0, 0x9abc8bd5, 0x9e7d9662, 0x933eb0bb, 0x97ffad0c,
    0xafb010b1, 0xab710d06, 0xa6322bdf, 0xa2f33668, 0xbcb4666d, 0xb8757bda, 0xb5365d03, 0xb1f740b4]

  const CRC_TABLE: seq<bv32> :=
    ROW_0 + ROW_1 + ROW_2 + ROW_3 + ROW_4 + ROW_5 + ROW_6 + ROW_7
    + ROW_8 + ROW_9 + ROW_A + ROW_B + ROW_C + ROW_D + ROW_E + ROW_F

  /** Sixteen entries from a multiple of sixteen on. */
  ghost predicate RowRight(row: seq<bv32>, base: bv32) {
    |row| == 16 && forall j: bv32 :: EntryRight(row, base, j)
  }

  ghost predicate EntryRight(row: seq<bv32>, base: bv32, j: bv32) {
    j < 16 ==> j as nat < |row| && row[j as nat] == DivByte((base | j) << 24)
  }

  predicate Sixteen(j: bv32) {
    j >= 16 || j == 0 || j == 1 || j == 2 || j == 3 || j == 4 || j == 5 || j == 6 || j == 7
    || j == 8 || j == 9 || j == 10 || j == 11 || j == 12 || j == 13 || j == 14 || j == 15
  }

  lemma Row0Right()
    ensures RowRight(ROW_0, 0x00)
  {
    forall j: bv32
      ensures EntryRight(ROW_0, 0x00, j)
    {
      assert Sixteen(j);
    }
  }

  lemma Row1Right()
    ensures RowRight(ROW_1, 0x10)
  {
    forall j: bv32
      ensures EntryRight(ROW_1, 0x10, j)
    {
      assert Sixteen(j);
    }
  }

  lemma Row2Right()
    ensures RowRight(ROW_2, 0x20)
  {
    forall j: bv32
      ensures EntryRight(ROW_2, 0x20, j)
    {
      assert Sixteen(j);
    }
  }

  lemma Row3Right()
    ensures RowRight(ROW_3, 0x30)
  {
    forall j: bv32
      ensures EntryRight(ROW_3, 0x30, j)
    {
      assert Sixteen(j);
    }
  }

  lemma Row4Right()
    ensures RowRight(ROW_4, 0x40)
  {
    forall j: bv32
      ensures EntryRight(ROW_4, 0x40, j)
    {
      assert Sixteen(j);
    }
  }

  lemma Row5Right()
    ensures RowRight(ROW_5, 0x50)
  {
    forall j: bv32
      ensures EntryRight(ROW_5, 0x50, j)
    {
      assert Sixteen(j);
    }
  }

  lemma Row6Right()
    ensures RowRight(ROW_6, 0x60)
  {
    forall j: bv32
      ensures EntryRight(ROW_6, 0x60, j)
    {
      assert Sixteen(j);
    }
  }

  lemma Row7Right()
    ensures RowRight(ROW_7, 0x70)
  {
    forall j: bv32
      ensures EntryRight(ROW_7, 0x70, j)
    {
      assert Sixteen(j);
    }
  }

  lemma Row8Right()
    ensures RowRight(ROW_8, 0x80)
  {
    forall j: bv32
      ensures EntryRight(ROW_8, 0x80, j)
    {
      assert Sixteen(j);
    }
  }

  lemma Row9Right()
    ensures RowRight(ROW_9, 0x90)
  {
    forall j: bv32
      ensures EntryRight(ROW_9, 0x90, j)
    {
      assert Sixteen(j);
    }
  }

  lemma RowARight()
    ensures RowRight(ROW_A, 0xA0)
  {
    forall j: bv32
      ensures EntryRight(ROW_A, 0xA0, j)
    {
      assert Sixteen(j);
    }
  }

  lemma RowBRight()
    ensures RowRight(ROW_B, 0xB0)
  {
    forall j: bv32
      ensures EntryRight(ROW_B, 0xB0, j)
    {
      assert Sixteen(j);
    }
  }

  lemma RowCRight()
    ensures RowRight(ROW_C, 0xC0)
  {
    forall j: bv32
      ensures EntryRight(ROW_C, 0xC0, j)
    {
      assert Sixteen(j);
    }
  }

  lemma RowDRight()
    ensures RowRight(ROW_D, 0xD0)
  {
    forall j: bv32
      ensures EntryRight(ROW_D, 0xD0, j)
    {
      assert Sixteen(j);
    }
  }

  lemma RowERight()
    ensures RowRight(ROW_E, 0xE0)
  {
    forall j: bv32
      ensures EntryRight(ROW_E, 0xE0, j)
    {
      assert Sixteen(j);
    }
  }

  lemma RowFRight()
    ensures RowRight(ROW_F, 0xF0)
  {
    forall j: bv32
      ensures EntryRight(ROW_F, 0xF0, j)
    {
      assert Sixteen(j);
    }
  }

  /** A table whose entries so far are right. */
  ghost predicate TableRight(t: seq<bv32>) {
    |t| <= 256 && forall i: bv32 :: Looked(t, i)
  }

  ghost predicate Looked(t: seq<bv32>, i: bv32) {
    i as nat < |t| ==> t[i as nat] == DivByte(i << 24)
  }

  lemma InRow(i: bv32, base: bv32)
    requires base & 0xf == 0 && base < 256 && base as nat <= i as nat < base as nat + 16
    ensures (i & 0xf) < 16 && base | (i & 0xf) == i && i as nat == base as nat + (i & 0xf) as nat
  {
  }

  lemma MoreRight(t: seq<bv32>, row: seq<bv32>, base: bv32)
    requires TableRight(t) && RowRight(row, base) && |t| == base as nat
    requires base & 0xf == 0 && base < 256 && |t| <= 240
    ensures TableRight(t + row) && |t + row| == |t| + 16
  {
    hide DivByte, Looked, EntryRight;
    forall i: bv32
      ensures Looked(t + row, i)
    {
      OneRight(t, row, base, i);
    }
  }

  lemma OneRight(t: seq<bv32>, row: seq<bv32>, base: bv32, i: bv32)
    requires TableRight(t) && RowRight(row, base) && |t| == base as nat
    requires base & 0xf == 0 && base < 256
    ensures Looked(t + row, i)
  {
    hide DivByte, EntryRight;
    if i as nat < |t| {
      assert Looked(t, i);
    } else if i as nat < |t| + 16 {
      RowEntry(row, base, i);
    }
  }

  lemma RowEntry(row: seq<bv32>, base: bv32, i: bv32)
    requires RowRight(row, base) && base & 0xf == 0 && base < 256 && base as nat <= i as nat < base as nat + 16
    ensures |row| == 16 && row[i as nat - base as nat] == DivByte(i << 24)
  {
    InRow(i, base);
    assert EntryRight(row, base, i & 0xf);
    hide DivByte;
  }

  /** Every entry of the table is the remainder of its index. */
  lemma TableIsRight()
    ensures |CRC_TABLE| == 256 && TableRight(CRC_TABLE)
  {
    assert TableRight([]);
    hide RowRight, TableRight;
    Row0Right();
    MoreRight([], ROW_0, 0);
    assert [] + ROW_0 == ROW_0;
    var t := ROW_0;
    Row1Right();
    MoreRight(t, ROW_1, 0x10);
    t := t + ROW_1;
    Row2Right();
    MoreRight(t, ROW_2, 0x20);
    t := t + ROW_2;
    Row3Right();
    MoreRight(t, ROW_3, 0x30);
    t := t + ROW_3;
    Row4Right();
    MoreRight(t, ROW_4, 0x40);
    t := t + ROW_4;
    Row5Right();
    MoreRight(t, ROW_5, 0x50);
    t := t + ROW_5;
    Row6Right();
    MoreRight(t, ROW_6, 0x60);
    t := t + ROW_6;
    Row7Right();
    MoreRight(t, ROW_7, 0x70);
    t := t + ROW_7;
    Row8Right();
    MoreRight(t, ROW_8, 0x80);
    t := t + ROW_8;
    Row9Right();
    MoreRight(t, ROW_9, 0x90);
    t := t + ROW_9;
    RowARight();
    MoreRight(t, ROW_A, 0xA0);
    t := t + ROW_A;
    RowBRight();
    MoreRight(t, ROW_B, 0xB0);
    t := t + ROW_B;
    RowCRight();
    MoreRight(t, ROW_C, 0xC0);
    t := t + ROW_C;
    RowDRight();
    MoreRight(t, ROW_D, 0xD0);
    t := t + ROW_D;
    RowERight();
    MoreRight(t, ROW_E, 0xE0);
    t := t + ROW_E;
    RowFRight();
    MoreRight(t, ROW_F, 0xF0);
    t := t + ROW_F;
  }

  /* ----- the loop over the buffer ----- */

  lemma IndexInRange(crc: bv32, b: bv8)
    ensures Index(crc, b) as nat < 256
  {
  }

  /** One look in the table is eight steps of the register. */
  lemma TableStep(crc: bv32, b: bv8)
    ensures Index(crc, b) as nat < |CRC_TABLE|
    ensures Register(crc, ByteBits(b)) == Add(crc << 8, CRC_TABLE[Index(crc, b) as nat])
  {
    TableIsRight();
    IndexInRange(crc, b);
    hide Register, ByteBits, Add, Index, DivByte;
    ByteStep(crc, b);
    DivByteSplit(crc, b);
    assert Looked(CRC_TABLE, Index(crc, b));
  }

  /** The register after the first bytes of a buffer, for any initial value. It holds
      the remainder of the division. */
  method Crc32(start: bv32, buf: array<bv8>, length: nat) returns (crc: bv32)
    requires length <= buf.Length
    ensures crc == Register(start, MessageBits(buf[..length]))
    ensures BitsOf(crc, 32) == Divide(Dividend(start, MessageBits(buf[..length])))
  {
    hide Register, BitsOf, Divide, Dividend, ByteBits, Index, MessageBits;
    crc := start;
    var i := 0;
    RegisterNothing(start);
    while i < length
      invariant i <= length
      invariant crc == Register(start, MessageBits(buf[..i]))
    {
      TableStep(crc, buf[i]);
      MessageMore(start, buf[..i], buf[i]);
      assert buf[..i + 1] == buf[..i] + [buf[i]];
      crc := Add(crc << 8, CRC_TABLE[Index(crc, buf[i]) as nat]);
      i := i + 1;
    }
    RegisterIsRemainder(start, MessageBits(buf[..length]));
  }

  lemma RegisterNothing(crc: bv32)
    ensures Register(crc, MessageBits([])) == crc
  {
  }

  lemma MessageMore(crc: bv32, bytes: seq<bv8>, b: bv8)
    ensures Register(crc, MessageBits(bytes + [b])) == Register(Register(crc, MessageBits(bytes)), ByteBits(b))
  {
    hide Register, ByteBits;
    assert (bytes + [b])[..|bytes|] == bytes;
    RegisterAppend(crc, MessageBits(bytes), ByteBits(b));
  }

  /* ----- the end of the image ----- */

  const EINVAL: int := 22

  /** The bytes of a word, least significant first. */
  function LittleEndian(x: bv32): (b: seq<bv8>)
    ensures |b| == 4
  {
    [(x & 0xff) as bv8, ((x >> 8) & 0xff) as bv8, ((x >> 16) & 0xff) as bv8, (x >> 24) as bv8]
  }

  /** The last word of the image becomes the complemented remainder of everything before
      it, divided with the first 32 bits complemented. */
  method AddChecksum(buf: array<bv8>, size: nat) returns (err: int)
    requires 0 < size <= buf.Length
    modifies buf
    ensures err == if size % 4 != 0 then -EINVAL else 0
    ensures err != 0 ==> buf[..] == old(buf[..])
    ensures err == 0 ==> buf[..size - 4] == old(buf[..size - 4]) && buf[size..] == old(buf[size..])
    ensures err == 0 ==> buf[size - 4..size] == LittleEndian(Add(Register(0xffff_ffff, MessageBits(buf[..size - 4])), 0xffff_ffff))
  {
    hide BitsOf, Divide, Dividend, MessageBits, Register;
    if size % 4 != 0 {
      return -EINVAL;
    }
    var crc := Crc32(0xffff_ffff, buf, size - 4);
    ghost var before := buf[..size - 4];
    var word := LittleEndian(Add(crc, 0xffff_ffff));
    forall i | 0 <= i < 4 {
      buf[size - 4 + i] := word[i];
    }
    assert buf[..size - 4] == before;
    assert buf[size - 4..size] == word;
    err := 0;
  }
}
