// The two CRC algorithms of pc/hid_bootloader/crc.c.
//
// Bit-level facts are proved in small lemmas on plain bit vectors; the proofs above them
// hide the bit-level definitions and work with equations only.

/** The bit operations that both CRCs are made of, and the laws the proofs need. */
module Bits {

  function Xor(x: bv32, y: bv32): bv32 {
    x ^ y
  }

  function Half(x: bv32): bv32 {
    x >> 1
  }

  function Double(x: bv32): bv32 {
    x << 1
  }

  predicate Odd(x: bv32) {
    x & 1 != 0
  }

  lemma XorLaws(a: bv32, b: bv32, r: bv32)
    ensures Xor(Xor(a, r), Xor(b, r)) == Xor(a, b)
    ensures Xor(Xor(a, r), b) == Xor(Xor(a, b), r)
    ensures Xor(a, Xor(b, r)) == Xor(Xor(a, b), r)
    ensures Xor(a, b) == Xor(b, a)
    ensures Xor(Xor(a, b), b) == a
    ensures Xor(a, 0) == a && Xor(a, a) == 0
  {
    hide Xor;
    XorAssociative(a, r, Xor(b, r));
    XorAssociative(a, b, r);
    XorAssociative(a, r, b);
    XorAssociative(a, b, b);
    XorAssociative(b, r, r);
    XorAssociative(r, b, r);
    XorBasics(a, b);
    XorBasics(b, r);
    XorBasics(r, Xor(b, r));
    XorBasics(r, b);
  }

  lemma XorAssociative(a: bv32, b: bv32, c: bv32)
    ensures Xor(Xor(a, b), c) == Xor(a, Xor(b, c))
  {
  }

  lemma XorBasics(a: bv32, b: bv32)
    ensures Xor(a, b) == Xor(b, a)
    ensures Xor(a, 0) == a && Xor(a, a) == 0 && Xor(b, b) == 0
  {
  }

  lemma HalfXor(a: bv32, b: bv32)
    ensures Half(Xor(a, b)) == Xor(Half(a), Half(b))
    ensures Odd(Xor(a, b)) == (Odd(a) != Odd(b))
  {
  }

  lemma CancelOne(r: bv32, a: bv32, b: bv32)
    ensures Xor(r, a) == Xor(r, b) <==> a == b
  {
  }

  lemma Crossed(p: bv32, q: bv32, r: bv32, s: bv32)
    ensures Xor(p, q) == Xor(r, s) <==> Xor(p, r) == Xor(q, s)
  {
    hide Xor;
    if Xor(p, q) == Xor(r, s) {
      // p ^ q ^ (r ^ q) == r ^ s ^ (r ^ q)
      XorLaws(p, r, q);
      XorLaws(s, q, r);
      XorBasics(r, s);
      XorBasics(r, q);
      XorBasics(s, q);
    }
    if Xor(p, r) == Xor(q, s) {
      XorLaws(p, q, r);
      XorLaws(s, r, q);
      XorBasics(q, s);
      XorBasics(q, r);
      XorBasics(s, r);
    }
  }

  /** b shifted right n times. */
  function Halves(b: bv32, n: nat): bv32 {
    if n == 0 then b else Half(Halves(b, n - 1))
  }

  function BitWord(bit: bool): bv32 {
    if bit then 1 else 0
  }

  /** The n lowest bits of x, lowest first. */
  function BitsOfWord(x: bv32, n: nat): (bits: seq<bool>)
    ensures |bits| == n
  {
    if n == 0 then [] else [Odd(x)] + BitsOfWord(Half(x), n - 1)
  }

  lemma {:induction false} HalvesFromFront(x: bv32, n: nat)
    ensures Halves(Half(x), n) == Halves(x, n + 1)
  {
    hide Half;
    if n > 0 {
      HalvesFromFront(x, n - 1);
    } else {
      assert Halves(x, 1) == Half(Halves(x, 0));
    }
  }

  lemma OddAndHalf(x: bv32)
    ensures Xor(BitWord(Odd(x)), Double(Half(x))) == x
  {
  }
}

/** CRC-32 of section 3.2.9 of IEEE 802.3: the bit-at-a-time form against the table form. */
module Crc32 {
  import opened Bits

  /** The generator polynomial, most significant bit first. */
  const POLYNOMIAL: bv32 := 0x04C11DB7
  /** The same polynomial with its bits in reverse order. */
  const REFLECTED: bv32 := 0xEDB88320

  /** Reverses the 32 bits of x by swapping ever larger groups. */
  function Reverse(x: bv32): bv32 {
    var x1 := ((x & 0x55555555) << 1) | ((x >> 1) & 0x55555555);
    var x2 := ((x1 & 0x33333333) << 2) | ((x1 >> 2) & 0x33333333);
    var x3 := ((x2 & 0x0F0F0F0F) << 4) | ((x2 >> 4) & 0x0F0F0F0F);
    (x3 << 24) | ((x3 & 0xFF00) << 8) | ((x3 >> 8) & 0xFF00) | (x3 >> 24)
  }

  /** Bit i of the reversal is bit 31 - i of the argument. */
  lemma ReverseBit(x: bv32, i: bv32)
    requires i < 32
    ensures (Reverse(x) >> i) & 1 == (x >> (31 - i)) & 1
  {
  }

  lemma ReverseIsInvolution(x: bv32)
    ensures Reverse(Reverse(x)) == x
  {
  }

  lemma ReverseXor(x: bv32, y: bv32)
    ensures Reverse(Xor(x, y)) == Xor(Reverse(x), Reverse(y))
  {
  }

  predicate TopBit(x: bv32) {
    x & 0x80000000 != 0
  }

  lemma ReverseDouble(x: bv32)
    ensures Reverse(Double(x)) == Half(Reverse(x))
    ensures TopBit(x) == Odd(Reverse(x))
  {
  }

  lemma ReversePolynomial()
    ensures Reverse(POLYNOMIAL) == REFLECTED
  {
  }

  /** One step of the shift register, most significant bit first. */
  function MsbStep(x: bv32): bv32 {
    if TopBit(x) then Xor(Double(x), POLYNOMIAL) else Double(x)
  }

  /** One step of the shift register, least significant bit first. */
  function LsbStep(x: bv32): bv32 {
    if Odd(x) then Xor(Half(x), REFLECTED) else Half(x)
  }

  lemma ReverseCommutesWithStep(x: bv32)
    ensures Reverse(MsbStep(x)) == LsbStep(Reverse(x))
  {
    hide Reverse, Xor, Double, Half, Odd, TopBit;
    ReverseDouble(x);
    ReverseXor(Double(x), POLYNOMIAL);
    ReversePolynomial();
  }

  lemma StepXor(x: bv32, y: bv32)
    ensures LsbStep(Xor(x, y)) == Xor(LsbStep(x), LsbStep(y))
  {
    hide Xor, Half, Odd;
    HalfXor(x, y);
    XorLaws(Half(x), Half(y), REFLECTED);
  }

  /** n reflected steps. */
  function Steps(x: bv32, n: nat): bv32 {
    if n == 0 then x else LsbStep(Steps(x, n - 1))
  }

  lemma {:induction false} StepsXor(x: bv32, y: bv32, n: nat)
    ensures Steps(Xor(x, y), n) == Xor(Steps(x, n), Steps(y, n))
  {
    hide LsbStep, Xor;
    if n > 0 {
      StepsXor(x, y, n - 1);
      StepXor(Steps(x, n - 1), Steps(y, n - 1));
    }
  }

  // ----- the table form -----

  function LowByte(x: bv32): bv32 {
    x & 0xFF
  }

  function DropByte(x: bv32): bv32 {
    (x >> 8) & 0x00FFFFFF
  }

  /** Entry of the lookup table for the low byte of x: eight reflected steps. */
  function TableEntry(x: bv32): bv32 {
    Steps(LowByte(x), 8)
  }

  /** What one byte does to the register of the table form. */
  function TableStep(crc: bv32, byte: bv8): bv32 {
    Xor(DropByte(crc), TableEntry(Xor(crc, byte as bv32)))
  }

  /** The register of the table form after the bytes of buffer, started from crc. */
  function TableRegister(crc: bv32, buffer: seq<bv8>): bv32 {
    if buffer == [] then crc
    else TableStep(TableRegister(crc, buffer[..|buffer| - 1]), buffer[|buffer| - 1])
  }

  /** The table form of the CRC. */
  function TableCrc32(buffer: seq<bv8>): bv32 {
    Xor(TableRegister(0xFFFFFFFF, buffer), 0xFFFFFFFF)
  }

  /** Eight steps only shift when the low byte is zero. */
  lemma EightStepsOfHighBytes(x: bv32)
    requires LowByte(x) == 0
    ensures Steps(x, 8) == DropByte(x)
  {
    assert Steps(x, 0) == x;
    assert Steps(x, 1) == x >> 1;
    assert Steps(x, 2) == x >> 2;
    assert Steps(x, 3) == x >> 3;
    assert Steps(x, 4) == x >> 4;
    assert Steps(x, 5) == x >> 5;
    assert Steps(x, 6) == x >> 6;
    assert Steps(x, 7) == x >> 7;
  }

  function HighBytes(x: bv32): bv32 {
    x & 0xFFFFFF00
  }

  lemma SplitByte(x: bv32)
    ensures x == Xor(HighBytes(x), LowByte(x)) && LowByte(HighBytes(x)) == 0
  {
  }

  lemma DropAfterXor(crc: bv32, byte: bv8)
    ensures DropByte(HighBytes(Xor(crc, byte as bv32))) == DropByte(crc)
  {
  }

  /** The table step is eight reflected steps of the register xored with the byte. */
  lemma TableStepIsEightSteps(crc: bv32, byte: bv8)
    ensures TableStep(crc, byte) == Steps(Xor(crc, byte as bv32), 8)
  {
    hide LsbStep, Xor, LowByte, HighBytes, DropByte;
    var x := Xor(crc, byte as bv32);
    SplitByte(x);
    DropAfterXor(crc, byte);
    StepsXor(HighBytes(x), LowByte(x), 8);
    EightStepsOfHighBytes(HighBytes(x));
  }

  lemma EightHalvesOfByte(b: bv32)
    requires b <= 0xFF
    ensures Halves(b, 8) == 0
  {
    assert Halves(b, 1) <= 0x7F;
    assert Halves(b, 2) <= 0x3F;
    assert Halves(b, 3) <= 0x1F;
    assert Halves(b, 4) <= 0xF;
    assert Halves(b, 5) <= 7;
    assert Halves(b, 6) <= 3;
    assert Halves(b, 7) <= 1;
  }

  /** One turn of the bit loop, seen through Reverse. */
  lemma BitLoopTurn(crc: bv32, byte: bv32)
    ensures var next := if TopBit(Xor(crc, byte)) then Xor(Double(crc), POLYNOMIAL) else Double(crc);
      Xor(Reverse(next), Reverse(Double(byte))) == LsbStep(Xor(Reverse(crc), Reverse(byte)))
  {
    hide Reverse, Xor, Double, Half, Odd, TopBit;
    ReverseDouble(crc);
    ReverseDouble(byte);
    ReverseXor(crc, byte);
    ReverseXor(Double(crc), POLYNOMIAL);
    ReversePolynomial();
    ReverseDouble(Xor(crc, byte));
    HalfXor(Reverse(crc), Reverse(byte));
    XorLaws(Half(Reverse(crc)), Half(Reverse(byte)), REFLECTED);
  }

  lemma ReverseOfOnes(crc: bv32)
    ensures Reverse(!crc) == Xor(Reverse(crc), 0xFFFFFFFF)
    ensures Reverse(0xFFFFFFFF) == 0xFFFFFFFF
  {
  }

  /** The bit-at-a-time CRC: it returns what the table form returns, for every buffer. */
  method ComputeCrc32(buffer: seq<bv8>) returns (result: bv32)
    ensures result == TableCrc32(buffer)
  {
    hide Reverse, Xor, Double, Half, Odd, TopBit, LsbStep;
    var crc: bv32 := 0xFFFFFFFF;
    ReverseOfOnes(crc);
    var i := 0;
    while i < |buffer|
      invariant 0 <= i <= |buffer|
      invariant Reverse(crc) == TableRegister(0xFFFFFFFF, buffer[..i])
    {
      var byte := Reverse(buffer[i] as bv32);
      ghost var start := Reverse(crc);
      ReverseIsInvolution(buffer[i] as bv32);
      var j := 0;
      while j < 8
        invariant 0 <= j <= 8
        invariant Reverse(byte) == Halves(buffer[i] as bv32, j)
        invariant Xor(Reverse(crc), Reverse(byte)) == Steps(Xor(start, buffer[i] as bv32), j)
      {
        BitLoopTurn(crc, byte);
        ReverseDouble(byte);
        if TopBit(Xor(crc, byte)) {
          crc := Xor(Double(crc), POLYNOMIAL);
        } else {
          crc := Double(crc);
        }
        byte := Double(byte);
        j := j + 1;
      }
      EightHalvesOfByte(buffer[i] as bv32);
      XorLaws(Reverse(crc), Reverse(byte), 0);
      TableStepIsEightSteps(start, buffer[i]);
      assert buffer[..i + 1][..i] == buffer[..i];
      i := i + 1;
    }
    assert buffer[..i] == buffer;
    ReverseOfOnes(crc);
    result := Reverse(!crc);
  }

  // ----- what the CRC detects -----

  /** The inverse of a reflected step. */
  function LsbUnstep(y: bv32): bv32 {
    if TopBit(y) then ((y ^ REFLECTED) << 1) | 1 else y << 1
  }

  lemma StepIsInvertible(x: bv32)
    ensures LsbUnstep(LsbStep(x)) == x
  {
  }

  lemma {:induction false} StepsInjective(x: bv32, y: bv32, n: nat)
    requires Steps(x, n) == Steps(y, n)
    ensures x == y
  {
    hide LsbStep, LsbUnstep;
    if n > 0 {
      StepIsInvertible(Steps(x, n - 1));
      StepIsInvertible(Steps(y, n - 1));
      StepsInjective(x, y, n - 1);
    }
  }

  lemma {:induction false} StepsAdd(x: bv32, m: nat, n: nat)
    ensures Steps(Steps(x, m), n) == Steps(x, m + n)
  {
    hide LsbStep;
    if n > 0 {
      StepsAdd(x, m, n - 1);
    }
  }

  // ----- the register bit by bit -----

  /** The register after the bits of a message, started from crc. */
  function BitRegister(crc: bv32, bits: seq<bool>): bv32
    decreases bits
  {
    if bits == [] then crc else BitRegister(LsbStep(Xor(crc, BitWord(bits[0]))), bits[1..])
  }

  function BitsOf(buffer: seq<bv8>): (bits: seq<bool>)
    ensures |bits| == 8 * |buffer|
  {
    if buffer == [] then []
    else BitsOf(buffer[..|buffer| - 1]) + BitsOfByte(buffer[|buffer| - 1])
  }

  function BitsOfByte(byte: bv8): (bits: seq<bool>)
    ensures |bits| == 8
  {
    BitsOfWord(byte as bv32, 8)
  }

  /** Bits packed with the first one lowest, as the register receives them. */
  function Pack(bits: seq<bool>): bv32 {
    if bits == [] then 0 else Xor(BitWord(bits[0]), Double(Pack(bits[1..])))
  }

  /** The n highest bits of x are clear. */
  predicate Room(x: bv32, n: nat)
    decreases n
  {
    n == 0 || (!TopBit(x) && Room(Double(x), n - 1))
  }

  lemma {:induction false} RoomXor(x: bv32, y: bv32, n: nat)
    requires Room(x, n) && Room(y, n)
    ensures Room(Xor(x, y), n)
    decreases n
  {
    hide Xor, Double, TopBit;
    if n > 0 {
      DoubleXor(x, y);
      RoomXor(Double(x), Double(y), n - 1);
    }
  }

  lemma DoubleXor(x: bv32, y: bv32)
    ensures Double(Xor(x, y)) == Xor(Double(x), Double(y))
    ensures !TopBit(x) && !TopBit(y) ==> !TopBit(Xor(x, y))
  {
  }

  lemma {:induction false} LessRoom(x: bv32, m: nat, n: nat)
    requires n <= m && Room(x, m)
    ensures Room(x, n)
    decreases n
  {
    hide Double, TopBit;
    if n > 0 {
      LessRoom(Double(x), m - 1, n - 1);
    }
  }

  lemma {:induction false} RoomOfZero(n: nat)
    ensures Room(0, n)
  {
    if n > 0 {
      assert Double(0) == 0 && !TopBit(0);
      RoomOfZero(n - 1);
    }
  }

  lemma RoomOfBit(bit: bool, n: nat)
    requires n <= 31
    ensures Room(BitWord(bit), n)
  {
    RoomOfZero(n);
    assert Room(0x1000_0000, 3);
    assert Room(0x0200_0000, 6);
    assert Room(0x0040_0000, 9);
    assert Room(0x0008_0000, 12);
    assert Room(0x0001_0000, 15);
    assert Room(0x2000, 18);
    assert Room(0x400, 21);
    assert Room(0x80, 24);
    assert Room(0x10, 27);
    assert Room(2, 30);
    assert Room(1, 31);
    LessRoom(1, 31, n);
  }

  lemma {:induction false} PackRoom(bits: seq<bool>)
    requires |bits| <= 32
    ensures Room(Pack(bits), 32 - |bits|)
  {
    hide Xor, Double, TopBit, BitWord;
    if bits == [] {
      RoomOfZero(32);
    } else {
      PackRoom(bits[1..]);
      RoomOfBit(bits[0], 32 - |bits|);
      RoomXor(BitWord(bits[0]), Double(Pack(bits[1..])), 32 - |bits|);
    }
  }

  /** A bit below a doubled word can be told from it, and one step gives the word back. */
  lemma PushedBit(bit: bool, x: bv32)
    requires !TopBit(x)
    ensures Odd(Xor(BitWord(bit), Double(x))) == bit && Half(Xor(BitWord(bit), Double(x))) == x
    ensures LsbStep(Double(x)) == x
  {
    hide Xor, Odd, Half, Double;
    DoubledWord(x);
    XorBasics(0, Double(x));
    XorBasics(Double(x), 0);
    XorOne(x);
  }

  lemma DoubledWord(x: bv32)
    requires !TopBit(x)
    ensures !Odd(Double(x)) && Half(Double(x)) == x
  {
  }

  lemma XorOne(x: bv32)
    requires !TopBit(x)
    ensures Odd(Xor(1, Double(x))) && Half(Xor(1, Double(x))) == x
  {
  }

  /** Feeding up to 32 bits is xoring the packed word into the register and stepping it. */
  lemma {:induction false} RegisterOfBits(crc: bv32, bits: seq<bool>)
    requires |bits| <= 32
    ensures BitRegister(crc, bits) == Steps(Xor(crc, Pack(bits)), |bits|)
    decreases bits
  {
    hide Xor, Double, TopBit, BitWord, LsbStep;
    if bits == [] {
      XorLaws(crc, 0, 0);
    } else {
      var first, rest := BitWord(bits[0]), Pack(bits[1..]);
      PackRoom(bits[1..]);
      PushedBit(bits[0], rest);
      XorLaws(crc, first, Double(rest));
      StepXor(Xor(crc, first), Double(rest));
      RegisterOfBits(LsbStep(Xor(crc, first)), bits[1..]);
      var all := Xor(crc, Pack(bits));
      assert LsbStep(all) == Xor(LsbStep(Xor(crc, first)), rest);
      assert Steps(all, 1) == LsbStep(Steps(all, 0));
      StepsAdd(all, 1, |bits| - 1);
    }
  }

  /** Equal packed words were packed from equal bits. */
  lemma {:induction false} PackInjective(u: seq<bool>, v: seq<bool>)
    requires |u| == |v| <= 32 && Pack(u) == Pack(v)
    ensures u == v
  {
    hide Xor, Double, TopBit, BitWord, Half, Odd, LsbStep;
    if u != [] {
      PackRoom(u[1..]);
      PackRoom(v[1..]);
      PushedBit(u[0], Pack(u[1..]));
      PushedBit(v[0], Pack(v[1..]));
      PackInjective(u[1..], v[1..]);
      assert u == [u[0]] + u[1..] && v == [v[0]] + v[1..];
    }
  }

  /** Packing the bits of a word that has no more than n of them gives the word back. */
  lemma {:induction false} PackOfWord(x: bv32, n: nat)
    requires Halves(x, n) == 0
    ensures Pack(BitsOfWord(x, n)) == x
    decreases n
  {
    hide Xor, Double, Half, Odd, BitWord;
    if n > 0 {
      HalvesFromFront(x, n - 1);
      PackOfWord(Half(x), n - 1);
      OddAndHalf(x);
    }
  }

  lemma {:induction false} RegisterOfConcat(crc: bv32, u: seq<bool>, v: seq<bool>)
    ensures BitRegister(crc, u + v) == BitRegister(BitRegister(crc, u), v)
    decreases u
  {
    hide LsbStep, Xor, BitWord;
    if u == [] {
      assert u + v == v;
    } else {
      assert (u + v)[1..] == u[1..] + v;
      RegisterOfConcat(LsbStep(Xor(crc, BitWord(u[0]))), u[1..], v);
    }
  }

  /** The table form takes the message bit by bit, the lowest bit of each byte first. */
  lemma {:induction false} TableIsBitRegister(crc: bv32, buffer: seq<bv8>)
    ensures TableRegister(crc, buffer) == BitRegister(crc, BitsOf(buffer))
  {
    hide TableStep, Steps, Xor, BitsOfWord, Pack;
    if buffer != [] {
      var n := |buffer| - 1;
      var byte := buffer[n] as bv32;
      TableIsBitRegister(crc, buffer[..n]);
      RegisterOfConcat(crc, BitsOf(buffer[..n]), BitsOfByte(buffer[n]));
      TableStepIsEightSteps(TableRegister(crc, buffer[..n]), buffer[n]);
      RegisterOfBits(TableRegister(crc, buffer[..n]), BitsOfWord(byte, 8));
      EightHalvesOfByte(byte);
      PackOfWord(byte, 8);
    }
  }

  /** For fixed bits the register is an injective function of where it started. */
  lemma {:induction false} BitRegisterInjective(crc: bv32, crc': bv32, bits: seq<bool>)
    requires BitRegister(crc, bits) == BitRegister(crc', bits)
    ensures crc == crc'
    decreases bits
  {
    hide Xor, LsbStep, LsbUnstep, BitWord;
    if bits != [] {
      var b := BitWord(bits[0]);
      BitRegisterInjective(LsbStep(Xor(crc, b)), LsbStep(Xor(crc', b)), bits[1..]);
      StepIsInvertible(Xor(crc, b));
      StepIsInvertible(Xor(crc', b));
      XorLaws(crc, b, 0);
      XorLaws(crc', b, 0);
    }
  }

  /** For a fixed message the register is an injective function of where it started. */
  lemma RegisterInjective(crc: bv32, crc': bv32, buffer: seq<bv8>)
    requires TableRegister(crc, buffer) == TableRegister(crc', buffer)
    ensures crc == crc'
  {
    TableIsBitRegister(crc, buffer);
    TableIsBitRegister(crc', buffer);
    BitRegisterInjective(crc, crc', BitsOf(buffer));
  }

  /** Different messages have different bits. */
  lemma {:induction false} BitsInjective(a: seq<bv8>, b: seq<bv8>)
    requires |a| == |b| && BitsOf(a) == BitsOf(b)
    ensures a == b
  {
    hide BitsOfByte;
    if a != [] {
      var n := |a| - 1;
      assert a == a[..n] + [a[n]] && b == b[..n] + [b[n]];
      SplitAt(BitsOf(a[..n]), BitsOfByte(a[n]), BitsOf(b[..n]), BitsOfByte(b[n]));
      BitsInjective(a[..n], b[..n]);
      ByteInjective(a[n], b[n]);
    }
  }

  lemma SplitAt(p: seq<bool>, q: seq<bool>, r: seq<bool>, s: seq<bool>)
    requires p + q == r + s && |p| == |r|
    ensures p == r && q == s
  {
    assert (p + q)[..|p|] == p && (r + s)[..|p|] == r;
    assert (p + q)[|p|..] == q && (r + s)[|p|..] == s;
  }

  lemma ByteInjective(a: bv8, b: bv8)
    requires BitsOfByte(a) == BitsOfByte(b)
    ensures a == b
  {
    hide BitsOfWord, Pack;
    EightHalvesOfByte(a as bv32);
    EightHalvesOfByte(b as bv32);
    PackOfWord(a as bv32, 8);
    PackOfWord(b as bv32, 8);
    SameByte(a, b);
  }

  lemma SameByte(a: bv8, b: bv8)
    requires a as bv32 == b as bv32
    ensures a == b
  {
  }

  /** The bits u and v agree outside the window of n bits that begins at from. */
  predicate AgreeOutside(u: seq<bool>, v: seq<bool>, from: nat, n: nat)
    requires |u| == |v|
  {
    forall i :: 0 <= i < |u| && !(from <= i < from + n) ==> u[i] == v[i]
  }

  /** Whatever surrounds two equally long windows, the registers agree iff they do after the windows. */
  lemma WindowDecides(crc: bv32, prefix: seq<bool>, u: seq<bool>, v: seq<bool>, suffix: seq<bool>)
    requires |u| == |v|
    ensures BitRegister(crc, prefix + u + suffix) == BitRegister(crc, prefix + v + suffix)
       <==> BitRegister(BitRegister(crc, prefix), u) == BitRegister(BitRegister(crc, prefix), v)
  {
    hide BitRegister;
    var r := BitRegister(crc, prefix);
    RegisterOfConcat(crc, prefix + u, suffix);
    RegisterOfConcat(crc, prefix + v, suffix);
    RegisterOfConcat(crc, prefix, u);
    RegisterOfConcat(crc, prefix, v);
    if BitRegister(crc, prefix + u + suffix) == BitRegister(crc, prefix + v + suffix) {
      BitRegisterInjective(BitRegister(r, u), BitRegister(r, v), suffix);
    }
  }

  /** Registers that have taken in different words of up to 32 bits agree iff those make up for the difference. */
  lemma WordDecides(r: bv32, r': bv32, u: seq<bool>, v: seq<bool>)
    requires |u| == |v| <= 32
    ensures BitRegister(r, u) == BitRegister(r', v) <==> Xor(r, Pack(u)) == Xor(r', Pack(v))
  {
    hide BitRegister, Xor, Steps, Pack;
    RegisterOfBits(r, u);
    RegisterOfBits(r', v);
    if BitRegister(r, u) == BitRegister(r', v) {
      StepsInjective(Xor(r, Pack(u)), Xor(r', Pack(v)), |u|);
    }
  }

  lemma Cancel(r: bv32, a: bv32, b: bv32, p: bv32)
    ensures Xor(r, a) == Xor(r, b) <==> a == b
    ensures Xor(r, a) == Xor(Xor(r, p), b) <==> Xor(a, b) == p
    ensures Xor(Xor(r, p), a) == Xor(r, b) <==> Xor(a, b) == p
  {
    hide Xor;
    XorAssociative(r, p, a);
    XorAssociative(r, p, b);
    XorBasics(a, b);
    CancelOne(r, a, b);
    CancelOne(r, a, Xor(p, b));
    CancelOne(r, Xor(p, a), b);
    Moved(a, b, p);
    Moved(b, a, p);
  }

  lemma Moved(a: bv32, b: bv32, p: bv32)
    ensures a == Xor(p, b) <==> Xor(a, b) == p
  {
    hide Xor;
    Crossed(a, 0, p, b);
    Crossed(a, b, p, 0);
    XorBasics(a, 0);
    XorBasics(p, 0);
    XorBasics(b, 0);
    XorBasics(0, b);
  }

  lemma CutAtWindow(u: seq<bool>, v: seq<bool>, from: nat, to: nat)
    requires |u| == |v| && from <= to <= |u|
    requires forall i :: 0 <= i < |u| && !(from <= i < to) ==> u[i] == v[i]
    ensures u == u[..from] + u[from..to] + u[to..]
    ensures v == u[..from] + v[from..to] + u[to..]
  {
  }

  /** After 33 bits the registers agree iff the bits do, or differ by the generator polynomial. */
  lemma NextBitDecides(r: bv32, u: seq<bool>, v: seq<bool>)
    requires |u| == |v| == 33
    ensures BitRegister(r, u) == BitRegister(r, v)
       <==> u == v || (u[0] != v[0] && Xor(Pack(u[1..]), Pack(v[1..])) == REFLECTED)
  {
    hide Xor, Steps, Pack, LsbStep;
    var s := LsbStep(r);
    FirstBit(r, u[0]);
    FirstBit(r, v[0]);
    WordDecides(LsbStep(Xor(r, BitWord(u[0]))), LsbStep(Xor(r, BitWord(v[0]))), u[1..], v[1..]);
    Cancel(s, Pack(u[1..]), Pack(v[1..]), REFLECTED);
    Cancel(Xor(s, REFLECTED), Pack(u[1..]), Pack(v[1..]), 0);
    assert u == [u[0]] + u[1..] && v == [v[0]] + v[1..];
    if Pack(u[1..]) == Pack(v[1..]) {
      PackInjective(u[1..], v[1..]);
    }
  }

  lemma FirstBit(r: bv32, bit: bool)
    ensures LsbStep(Xor(r, BitWord(bit))) == if bit then Xor(LsbStep(r), REFLECTED) else LsbStep(r)
  {
    hide Xor, LsbStep;
    StepXor(r, 1);
    XorBasics(r, 0);
    StepOfOne();
  }

  lemma StepOfOne()
    ensures LsbStep(1) == REFLECTED
  {
  }

  /** Two messages that differ only inside a window of at most 32 bits, anywhere, never share a CRC. */
  lemma BurstDetected(a: seq<bv8>, b: seq<bv8>, from: nat)
    requires |a| == |b| && a != b
    requires AgreeOutside(BitsOf(a), BitsOf(b), from, 32)
    ensures TableCrc32(a) != TableCrc32(b)
  {
    hide TableCrc32, BitRegister, Xor, BitsOf, Pack;
    var start: bv32 := 0xFFFFFFFF;
    var u, v := BitsOf(a), BitsOf(b);
    SameCrc(a, b);
    var p := if from < |u| then from else |u|;
    var q := if from + 32 < |u| then from + 32 else |u|;
    CutAtWindow(u, v, p, q);
    WindowDecides(start, u[..p], u[p..q], v[p..q], u[q..]);
    var r := BitRegister(start, u[..p]);
    WordDecides(r, r, u[p..q], v[p..q]);
    Cancel(r, Pack(u[p..q]), Pack(v[p..q]), 0);
    if TableCrc32(a) == TableCrc32(b) {
      PackInjective(u[p..q], v[p..q]);
    }
  }

  /** 32 bits are the limit: of the differences inside 33 bits exactly the generator polynomial escapes. */
  lemma WiderBurstEscapes(a: seq<bv8>, b: seq<bv8>, from: nat)
    requires |a| == |b| && from + 33 <= 8 * |a|
    requires AgreeOutside(BitsOf(a), BitsOf(b), from, 33)
    ensures var u, v := BitsOf(a)[from..from + 33], BitsOf(b)[from..from + 33];
      TableCrc32(a) == TableCrc32(b)
      <==> a == b || (u[0] != v[0] && Xor(Pack(u[1..]), Pack(v[1..])) == REFLECTED)
  {
    hide TableCrc32, BitRegister, Xor, BitsOf, Pack;
    var u, v := BitsOf(a), BitsOf(b);
    SameCrc(a, b);
    CutAtWindow(u, v, from, from + 33);
    WindowDecides(0xFFFFFFFF, u[..from], u[from..from + 33], v[from..from + 33], u[from + 33..]);
    NextBitDecides(BitRegister(0xFFFFFFFF, u[..from]), u[from..from + 33], v[from..from + 33]);
  }

  /** CRCs are equal iff the registers are; messages are equal iff their bits are. */
  lemma SameCrc(a: seq<bv8>, b: seq<bv8>)
    requires |a| == |b|
    ensures TableCrc32(a) == TableCrc32(b)
       <==> BitRegister(0xFFFFFFFF, BitsOf(a)) == BitRegister(0xFFFFFFFF, BitsOf(b))
    ensures a == b <==> BitsOf(a) == BitsOf(b)
  {
    hide TableRegister, BitRegister, Xor, BitsOf;
    var start: bv32 := 0xFFFFFFFF;
    TableIsBitRegister(start, a);
    TableIsBitRegister(start, b);
    XorLaws(TableRegister(start, a), start, 0);
    XorLaws(TableRegister(start, b), start, 0);
    if BitsOf(a) == BitsOf(b) {
      BitsInjective(a, b);
    }
  }
}

/** The 24-bit CRC that the XMEGA NVM controller computes, one 16-bit word at a time. */
module XmegaCrc {
  import opened Bits

  const POLYNOMIAL: bv32 := 0x0080001B
  const REGISTER: bv32 := 0x00FFFFFF

  /** The word at byte address 2 * i, low byte first. */
  function WordAt(buffer: seq<bv8>, i: nat): bv32
    requires 2 * i + 1 < |buffer|
  {
    (buffer[2 * i + 1] as bv32 << 8) | buffer[2 * i] as bv32
  }

  predicate AreWords(words: seq<bv32>) {
    forall i :: 0 <= i < |words| ==> words[i] <= 0xFFFF
  }

  function Words(buffer: seq<bv8>): (words: seq<bv32>)
    requires |buffer| % 2 == 0
    ensures |words| == |buffer| / 2
    ensures AreWords(words)
  {
    if buffer == [] then []
    else
      var last := |buffer| / 2 - 1;
      assert WordAt(buffer, last) <= 0xFFFF;
      Words(buffer[..|buffer| - 2]) + [WordAt(buffer, last)]
  }

  function Mask(x: bv32): bv32 {
    x & 0x00FFFFFF
  }

  function ShiftedIn(crc: bv32): bv32 {
    (crc << 1) & 0x00FFFFFE
  }

  function Feedback(crc: bv32): bv32 {
    (if crc & 0x800000 > 0 then 0x00FFFFFF else 0) & POLYNOMIAL
  }

  /** The register multiplied by x, modulo the generator polynomial. */
  function TimesX(crc: bv32): bv32 {
    Mask(Xor(ShiftedIn(crc), Feedback(crc)))
  }

  /** The checksum by Horner's rule. */
  function Crc(words: seq<bv32>): bv32 {
    if words == [] then 0 else Xor(TimesX(Crc(words[..|words| - 1])), words[|words| - 1])
  }

  predicate InRegister(x: bv32) {
    x <= REGISTER
  }

  lemma TimesXXor(a: bv32, b: bv32)
    ensures TimesX(Xor(a, b)) == Xor(TimesX(a), TimesX(b))
  {
    hide Xor, Mask, ShiftedIn, Feedback;
    var p, q, r, s := ShiftedIn(a), ShiftedIn(b), Feedback(a), Feedback(b);
    ShiftedInXor(a, b);
    FeedbackXor(a, b);
    XorSwap(p, q, r, s);
    MaskXor(Xor(p, r), Xor(q, s));
  }

  lemma XorSwap(p: bv32, q: bv32, r: bv32, s: bv32)
    ensures Xor(Xor(p, q), Xor(r, s)) == Xor(Xor(p, r), Xor(q, s))
  {
    hide Xor;
    XorAssociative(p, q, Xor(r, s));
    XorAssociative(q, r, s);
    XorAssociative(r, q, s);
    XorBasics(q, r);
    XorAssociative(p, r, Xor(q, s));
  }

  lemma MaskXor(a: bv32, b: bv32)
    ensures Mask(Xor(a, b)) == Xor(Mask(a), Mask(b))
  {
  }

  lemma ShiftedInXor(a: bv32, b: bv32)
    ensures ShiftedIn(Xor(a, b)) == Xor(ShiftedIn(a), ShiftedIn(b))
  {
  }

  lemma FeedbackXor(a: bv32, b: bv32)
    ensures Feedback(Xor(a, b)) == Xor(Feedback(a), Feedback(b))
  {
  }

  lemma MaskOfWord(data: bv32)
    requires data <= 0xFFFF
    ensures Mask(data) == data
  {
  }

  lemma MaskInRegister(x: bv32)
    ensures InRegister(Mask(x))
  {
  }

  /** One turn of the loop of the source. */
  method UpdateRegister(crc: bv32, data: bv32) returns (next: bv32)
    requires data <= 0xFFFF
    ensures next == Xor(TimesX(crc), data) && InRegister(next)
  {
    hide Xor, Mask, InRegister;
    var helpA := crc << 1;
    helpA := helpA & 0x00FFFFFE;
    var helpB := crc & 0x800000;
    if helpB > 0 {
      helpB := 0x00FFFFFF;
    }
    FeedbackIs(crc, helpB);
    next := Xor(Xor(helpA, data), helpB & POLYNOMIAL);
    next := Mask(next);
    XorLaws(helpA, data, helpB & POLYNOMIAL);
    MaskXor(Xor(helpA, helpB & POLYNOMIAL), data);
    MaskOfWord(data);
    MaskInRegister(Xor(Xor(helpA, data), helpB & POLYNOMIAL));
  }

  lemma FeedbackIs(crc: bv32, helpB: bv32)
    requires helpB == if crc & 0x800000 > 0 then 0x00FFFFFF else crc & 0x800000
    ensures helpB & POLYNOMIAL == Feedback(crc)
  {
  }

  lemma WordsOfPrefix(buffer: seq<bv8>, address: nat)
    requires address % 2 == 0 && address + 2 <= |buffer|
    ensures Words(buffer[..address + 2]) == Words(buffer[..address]) + [WordAt(buffer, address / 2)]
  {
    hide WordAt;
    var longer := buffer[..address + 2];
    assert longer[..|longer| - 2] == buffer[..address];
    assert WordAt(longer, address / 2) == WordAt(buffer, address / 2) by {
      SameWord(longer, buffer, address / 2);
    }
  }

  lemma CrcOfPrefix(buffer: seq<bv8>, address: nat)
    requires address % 2 == 0 && address + 2 <= |buffer|
    ensures Crc(Words(buffer[..address + 2])) == Xor(TimesX(Crc(Words(buffer[..address]))), WordAt(buffer, address / 2))
  {
    hide Xor, TimesX, WordAt, Words;
    WordsOfPrefix(buffer, address);
  }

  lemma CrcOfNothing()
    ensures Crc(Words([])) == 0
  {
  }

  lemma SameWord(a: seq<bv8>, b: seq<bv8>, i: nat)
    requires 2 * i + 1 < |a| && 2 * i + 1 < |b|
    requires a[2 * i] == b[2 * i] && a[2 * i + 1] == b[2 * i + 1]
    ensures WordAt(a, i) == WordAt(b, i)
  {
  }

  lemma WordRange(buffer: seq<bv8>, i: nat)
    requires 2 * i + 1 < |buffer|
    ensures WordAt(buffer, i) <= 0xFFFF
  {
  }

  lemma ZeroInRegister()
    ensures InRegister(0)
  {
  }

  /** length rounded up to whole words. */
  function WholeWords(length: nat): (n: nat)
    ensures n % 2 == 0 && length <= n <= length + 1
  {
    length + length % 2
  }

  /** The loop of the source: the checksum of the words of the buffer, the last of which is read whole. */
  method XmegaNvmCrc32(buffer: seq<bv8>, length: nat) returns (crc: bv32)
    requires WholeWords(length) <= |buffer|
    ensures crc == Crc(Words(buffer[..WholeWords(length)])) && InRegister(crc)
  {
    hide Xor, TimesX, WordAt, InRegister, Crc, Words;
    ZeroInRegister();
    CrcOfNothing();
    crc := 0;
    var address := 0;
    assert buffer[..0] == [];
    while address < length
      invariant 0 <= address <= WholeWords(length) && address % 2 == 0
      invariant crc == Crc(Words(buffer[..address])) && InRegister(crc)
    {
      WordRange(buffer, address / 2);
      CrcOfPrefix(buffer, address);
      crc := UpdateRegister(crc, WordAt(buffer, address / 2));
      address := address + 2;
    }
  }

  // ----- the algebra of the checksum -----

  /** n multiplications by x. */
  function TimesXn(crc: bv32, n: nat): bv32 {
    if n == 0 then crc else TimesX(TimesXn(crc, n - 1))
  }

  /** The checksum as a polynomial: the word at i weighs x to the power of the words after it. */
  function Polynomial(words: seq<bv32>): bv32 {
    if words == [] then 0 else Xor(TimesXn(words[0], |words| - 1), Polynomial(words[1..]))
  }

  lemma {:induction false} TimesXnXor(a: bv32, b: bv32, n: nat)
    ensures TimesXn(Xor(a, b), n) == Xor(TimesXn(a, n), TimesXn(b, n))
  {
    hide Xor, TimesX;
    if n > 0 {
      TimesXnXor(a, b, n - 1);
      TimesXXor(TimesXn(a, n - 1), TimesXn(b, n - 1));
    }
  }

  lemma {:induction false} CrcOfConcat(a: seq<bv32>, b: seq<bv32>)
    ensures Crc(a + b) == Xor(TimesXn(Crc(a), |b|), Crc(b))
  {
    hide Xor, TimesX;
    if b == [] {
      assert a + b == a;
      XorBasics(Crc(a), 0);
    } else {
      var n := |b| - 1;
      assert (a + b)[..|a + b| - 1] == a + b[..n];
      CrcOfConcat(a, b[..n]);
      TimesXXor(TimesXn(Crc(a), n), Crc(b[..n]));
      XorAssociative(TimesXn(Crc(a), n + 1), TimesX(Crc(b[..n])), b[n]);
    }
  }

  /** Horner's rule evaluates the polynomial. */
  lemma {:induction false} CrcIsPolynomial(words: seq<bv32>)
    ensures Crc(words) == Polynomial(words)
  {
    hide Xor, TimesX;
    if words != [] {
      CrcOfConcat(words[..1], words[1..]);
      assert words == words[..1] + words[1..];
      CrcIsPolynomial(words[1..]);
      CrcOfOne(words[0]);
      assert words[..1] == [words[0]];
    }
  }

  lemma CrcOfOne(w: bv32)
    ensures Crc([w]) == w
  {
  }

  function XorWords(a: seq<bv32>, b: seq<bv32>): seq<bv32>
    requires |a| == |b|
  {
    seq(|a|, i requires 0 <= i < |a| => Xor(a[i], b[i]))
  }

  /** The checksum is linear: the CRC of a difference is the difference of the CRCs. */
  lemma {:induction false} CrcIsLinear(a: seq<bv32>, b: seq<bv32>)
    requires |a| == |b|
    ensures Crc(XorWords(a, b)) == Xor(Crc(a), Crc(b))
  {
    hide Xor, TimesX;
    if a == [] {
      XorBasics(0, 0);
    } else {
      var n := |a| - 1;
      assert XorWords(a, b)[..n] == XorWords(a[..n], b[..n]);
      CrcIsLinear(a[..n], b[..n]);
      var p, q := TimesX(Crc(a[..n])), TimesX(Crc(b[..n]));
      TimesXXor(Crc(a[..n]), Crc(b[..n]));
      XorAssociative(Xor(p, q), a[n], b[n]);
      XorAssociative(p, q, Xor(a[n], b[n]));
      XorLaws(q, b[n], a[n]);
      XorAssociative(Xor(p, a[n]), q, b[n]);
      XorAssociative(p, a[n], q);
      XorLaws(p, q, a[n]);
    }
  }

  /** The inverse of one multiplication by x, on 24-bit values. */
  function OverX(crc: bv32): bv32 {
    if crc & 1 > 0 then ((crc ^ (REGISTER & POLYNOMIAL)) >> 1) | 0x800000 else crc >> 1
  }

  /** For fixed data every step permutes the 24-bit registers. */
  lemma TimesXIsBijective(crc: bv32)
    requires InRegister(crc)
    ensures InRegister(TimesX(crc)) && InRegister(OverX(crc))
    ensures OverX(TimesX(crc)) == crc && TimesX(OverX(crc)) == crc
  {
    hide TimesX, OverX, InRegister;
    TimesXStays(crc);
    OverXStays(crc);
    OverUndoesTimes(crc);
    TimesUndoesOver(crc);
  }

  lemma TimesXStays(crc: bv32)
    ensures InRegister(TimesX(crc))
  {
  }

  lemma OverXStays(crc: bv32)
    requires InRegister(crc)
    ensures InRegister(OverX(crc))
  {
  }

  lemma OverUndoesTimes(crc: bv32)
    requires InRegister(crc)
    ensures OverX(TimesX(crc)) == crc
  {
    if crc & 0x800000 > 0 {
      OverUndoesFeedback(crc);
    } else {
      OverUndoesShift(crc);
    }
  }

  lemma OverUndoesFeedback(crc: bv32)
    requires InRegister(crc) && crc & 0x800000 > 0
    ensures OverX(TimesX(crc)) == crc
  {
  }

  lemma OverUndoesShift(crc: bv32)
    requires InRegister(crc) && crc & 0x800000 == 0
    ensures OverX(TimesX(crc)) == crc
  {
  }

  lemma TimesUndoesOver(crc: bv32)
    requires InRegister(crc)
    ensures TimesX(OverX(crc)) == crc
  {
  }

  lemma {:induction false} TimesXnInjective(a: bv32, b: bv32, n: nat)
    requires InRegister(a) && InRegister(b) && TimesXn(a, n) == TimesXn(b, n)
    ensures a == b
  {
    hide TimesX, OverX, InRegister;
    if n > 0 {
      TimesXnInRegister(a, n - 1);
      TimesXnInRegister(b, n - 1);
      TimesXIsBijective(TimesXn(a, n - 1));
      TimesXIsBijective(TimesXn(b, n - 1));
      TimesXnInjective(a, b, n - 1);
    }
  }

  lemma {:induction false} TimesXnInRegister(a: bv32, n: nat)
    requires InRegister(a)
    ensures InRegister(TimesXn(a, n))
  {
  }

  lemma {:induction false} CrcInRegister(words: seq<bv32>)
    requires AreWords(words)
    ensures InRegister(Crc(words))
  {
  }

  /** Whatever surrounds two equally long windows, the CRCs agree iff the windows' own CRCs do. */
  lemma WindowDecides(prefix: seq<bv32>, v: seq<bv32>, w: seq<bv32>, suffix: seq<bv32>)
    requires |v| == |w|
    requires AreWords(v)
    requires AreWords(w)
    ensures Crc(prefix + v + suffix) == Crc(prefix + w + suffix) <==> Crc(v) == Crc(w)
  {
    hide Xor, TimesX, InRegister, Crc;
    CrcOfConcat(prefix + v, suffix);
    CrcOfConcat(prefix + w, suffix);
    CrcOfConcat(prefix, v);
    CrcOfConcat(prefix, w);
    CrcInRegister(v);
    CrcInRegister(w);
    var p := TimesXn(Crc(prefix), |v|);
    var n := |suffix|;
    TimesXnXor(p, Crc(v), n);
    TimesXnXor(p, Crc(w), n);
    CancelBoth(TimesXn(p, n), TimesXn(Crc(v), n), TimesXn(Crc(w), n), Crc(suffix));
    if TimesXn(Crc(v), n) == TimesXn(Crc(w), n) {
      TimesXnInjective(Crc(v), Crc(w), n);
    }
  }

  lemma CancelBoth(p: bv32, a: bv32, b: bv32, q: bv32)
    ensures Xor(Xor(p, a), q) == Xor(Xor(p, b), q) <==> a == b
  {
  }

  /** Images of equal length that differ in exactly one word never share a CRC. */
  lemma SingleWordDetected(a: seq<bv32>, b: seq<bv32>, i: nat)
    requires |a| == |b| && i < |a| && a[i] != b[i]
    requires AreWords(a)
    requires AreWords(b)
    requires forall k :: 0 <= k < |a| && k != i ==> a[k] == b[k]
    ensures Crc(a) != Crc(b)
  {
    hide Crc;
    assert a == a[..i] + [a[i]] + a[i + 1..];
    assert b == a[..i] + [b[i]] + a[i + 1..];
    WindowDecides(a[..i], [a[i]], [b[i]], a[i + 1..]);
    CrcOfOne(a[i]);
    CrcOfOne(b[i]);
  }

  /**
   * One word is the limit. Two words changed at any distance escape exactly when the first
   * difference, multiplied by x once for every word up to the second one, is the second difference.
   */
  lemma TwoWordsEscape(prefix: seq<bv32>, v0: bv32, v1: bv32, gap: seq<bv32>, w0: bv32, w1: bv32, suffix: seq<bv32>)
    requires v0 <= 0xFFFF && v1 <= 0xFFFF && w0 <= 0xFFFF && w1 <= 0xFFFF && AreWords(gap)
    ensures Crc(prefix + ([v0] + gap + [v1]) + suffix) == Crc(prefix + ([w0] + gap + [w1]) + suffix)
       <==> TimesXn(Xor(v0, w0), |gap| + 1) == Xor(v1, w1)
  {
    hide Crc, Xor, TimesX, TimesXn;
    WindowDecides(prefix, [v0] + gap + [v1], [w0] + gap + [w1], suffix);
    CrcOfTwo(v0, gap, v1);
    CrcOfTwo(w0, gap, w1);
    var n := |gap| + 1;
    TimesXnXor(v0, w0, n);
    TwoWords(TimesXn(v0, n), TimesXn(Crc(gap), 1), v1, TimesXn(w0, n), w1);
  }

  /** For adjacent words: one difference is twice the other. */
  lemma AdjacentWordsEscape(prefix: seq<bv32>, v0: bv32, v1: bv32, w0: bv32, w1: bv32, suffix: seq<bv32>)
    requires v0 <= 0xFFFF && v1 <= 0xFFFF && w0 <= 0xFFFF && w1 <= 0xFFFF
    ensures Crc(prefix + [v0, v1] + suffix) == Crc(prefix + [w0, w1] + suffix)
       <==> Double(Xor(v0, w0)) == Xor(v1, w1)
  {
    hide Crc, Xor, Double, TimesX;
    TwoWordsEscape(prefix, v0, v1, [], w0, w1, suffix);
    assert [v0] + [] + [v1] == [v0, v1] && [w0] + [] + [w1] == [w0, w1];
    assert TimesXn(Xor(v0, w0), 1) == TimesX(TimesXn(Xor(v0, w0), 0));
    TimesXOfWord(v0, w0);
  }

  lemma CrcOfTwo(first: bv32, gap: seq<bv32>, last: bv32)
    ensures Crc([first] + gap + [last]) == Xor(Xor(TimesXn(first, |gap| + 1), TimesXn(Crc(gap), 1)), last)
  {
    hide Crc, Xor, TimesX, TimesXn;
    CrcOfConcat([first] + gap, [last]);
    CrcOfConcat([first], gap);
    CrcOfOne(first);
    CrcOfOne(last);
    TimesXnXor(TimesXn(first, |gap|), Crc(gap), 1);
    OneMore(first, |gap|);
  }

  lemma OneMore(a: bv32, n: nat)
    ensures TimesXn(TimesXn(a, n), 1) == TimesXn(a, n + 1)
  {
    hide TimesX;
    assert TimesXn(TimesXn(a, n), 1) == TimesX(TimesXn(TimesXn(a, n), 0));
  }

  lemma TimesXOfWord(v: bv32, w: bv32)
    requires v <= 0xFFFF && w <= 0xFFFF
    ensures TimesX(Xor(v, w)) == Double(Xor(v, w))
  {
  }

  /** p ^ m ^ q agrees with r ^ m ^ s iff the changes of p and of q are the same. */
  lemma TwoWords(p: bv32, m: bv32, q: bv32, r: bv32, s: bv32)
    ensures Xor(Xor(p, m), q) == Xor(Xor(r, m), s) <==> Xor(p, r) == Xor(q, s)
  {
    hide Xor;
    XorLaws(p, q, m);
    XorLaws(r, s, m);
    CancelOne(m, Xor(p, q), Xor(r, s));
    XorBasics(Xor(p, q), m);
    XorBasics(Xor(r, s), m);
    Crossed(p, q, r, s);
  }

  /** The same for byte images, of odd length too: a difference inside one aligned word is always seen. */
  lemma SingleWordOfImageDetected(a: seq<bv8>, b: seq<bv8>, length: nat, i: nat)
    requires WholeWords(length) <= |a| && WholeWords(length) <= |b| && 2 * i + 1 < WholeWords(length)
    requires a[2 * i] != b[2 * i] || a[2 * i + 1] != b[2 * i + 1]
    requires forall k :: 0 <= k < WholeWords(length) && k / 2 != i ==> a[k] == b[k]
    ensures Crc(Words(a[..WholeWords(length)])) != Crc(Words(b[..WholeWords(length)]))
  {
    hide Crc, WordAt, Words;
    var n := WholeWords(length);
    var a', b' := a[..n], b[..n];
    WordsAt(a');
    WordsAt(b');
    forall k | 0 <= k < |Words(a')| && k != i
      ensures Words(a')[k] == Words(b')[k]
    {
      SameWord(a', b', k);
    }
    DifferentWord(a', b', i);
    SingleWordDetected(Words(a'), Words(b'), i);
  }

  lemma {:induction false} WordsAt(buffer: seq<bv8>)
    requires |buffer| % 2 == 0
    ensures forall k :: 0 <= k < |Words(buffer)| ==> Words(buffer)[k] == WordAt(buffer, k)
  {
    hide WordAt;
    if buffer != [] {
      var shorter := buffer[..|buffer| - 2];
      WordsAt(shorter);
      forall k | 0 <= k < |Words(shorter)|
        ensures WordAt(shorter, k) == WordAt(buffer, k)
      {
        SameWord(shorter, buffer, k);
      }
    }
  }

  lemma DifferentWord(a: seq<bv8>, b: seq<bv8>, i: nat)
    requires 2 * i + 1 < |a| && 2 * i + 1 < |b|
    requires a[2 * i] != b[2 * i] || a[2 * i + 1] != b[2 * i + 1]
    ensures WordAt(a, i) != WordAt(b, i)
  {
  }
}
