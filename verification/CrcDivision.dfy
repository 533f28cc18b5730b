// The 24-bit CRC of pc/hid_bootloader/crc.c is the remainder of a division of polynomials.

/** Polynomials over the field of two elements, and division with remainder. */
module Polynomials {

  /** Coefficients, that of the constant first; zeros at the end do not matter. */
  type Poly = seq<bool>

  predicate Coef(a: Poly, i: nat) {
    i < |a| && a[i]
  }

  /** The same polynomial. */
  ghost predicate Same(a: Poly, b: Poly) {
    forall i: nat :: Coef(a, i) == Coef(b, i)
  }

  function Add(a: Poly, b: Poly): Poly {
    seq(if |a| > |b| then |a| else |b|, i requires i >= 0 => Coef(a, i) != Coef(b, i))
  }

  /** a times x. */
  function Shift(a: Poly): Poly {
    [false] + a
  }

  /** q times g. */
  function Mul(q: Poly, g: Poly): Poly {
    if q == [] then [] else Add(if q[0] then g else [], Shift(Mul(q[1..], g)))
  }

  ghost predicate DegreeBelow(a: Poly, n: nat) {
    forall i: nat :: n <= i ==> !Coef(a, i)
  }

  /** r is what remains of p in the division by g. */
  ghost predicate IsRemainder(p: Poly, g: Poly, n: nat, r: Poly) {
    DegreeBelow(r, n) && exists q: Poly :: Same(p, Add(Mul(q, g), r))
  }

  ghost predicate IsMultiple(p: Poly, g: Poly) {
    exists q: Poly :: Same(p, Mul(q, g))
  }

  /** g has degree n. */
  ghost predicate HasDegree(g: Poly, n: nat) {
    Coef(g, n) && DegreeBelow(g, n + 1)
  }

  function Tail(a: Poly): Poly {
    if a == [] then [] else a[1..]
  }

  lemma AddCoef(a: Poly, b: Poly, i: nat)
    ensures Coef(Add(a, b), i) == (Coef(a, i) != Coef(b, i))
  {
  }

  lemma ShiftCoef(a: Poly, i: nat)
    ensures Coef(Shift(a), i) == (i > 0 && Coef(a, i - 1))
  {
  }

  lemma MulCoef(q: Poly, g: Poly, i: nat)
    ensures Coef(Mul(q, g), i) == ((Coef(q, 0) && Coef(g, i)) != (i > 0 && Coef(Mul(Tail(q), g), i - 1)))
  {
    if q != [] {
      AddCoef(if q[0] then g else [], Shift(Mul(q[1..], g)), i);
      ShiftCoef(Mul(q[1..], g), i);
    }
  }

  lemma TailAdd(p: Poly, q: Poly)
    ensures Tail(Add(p, q)) == Add(Tail(p), Tail(q))
  {
    forall i: nat
      ensures Coef(Tail(p), i) == Coef(p, i + 1) && Coef(Tail(q), i) == Coef(q, i + 1)
    {
    }
  }

  /** Multiplication distributes over addition. */
  lemma {:induction false} MulAdd(p: Poly, q: Poly, g: Poly, i: nat)
    ensures Coef(Mul(Add(p, q), g), i) == (Coef(Mul(p, g), i) != Coef(Mul(q, g), i))
    decreases i
  {
    MulCoef(Add(p, q), g, i);
    MulCoef(p, g, i);
    MulCoef(q, g, i);
    AddCoef(p, q, 0);
    TailAdd(p, q);
    if i > 0 {
      MulAdd(Tail(p), Tail(q), g, i - 1);
    }
  }

  lemma TailCoef(q: Poly, i: nat)
    ensures Coef(Tail(q), i) == Coef(q, i + 1)
  {
  }

  lemma {:induction false} MulOfZero(q: Poly, g: Poly, i: nat)
    requires DegreeBelow(q, 0)
    ensures !Coef(Mul(q, g), i)
    decreases i
  {
    MulCoef(q, g, i);
    assert DegreeBelow(Tail(q), 0) by {
      forall k: nat
        ensures !Coef(Tail(q), k)
      {
        TailCoef(q, k);
      }
    }
    if i > 0 {
      MulOfZero(Tail(q), g, i - 1);
    }
  }

  /** The degree of a product is the sum of the degrees. */
  lemma {:induction false} MulTop(q: Poly, g: Poly, d: nat, n: nat)
    requires HasDegree(q, d) && HasDegree(g, n)
    ensures Coef(Mul(q, g), d + n)
    decreases d
  {
    MulCoef(q, g, d + n);
    forall k: nat
      ensures Coef(Tail(q), k) == Coef(q, k + 1)
    {
      TailCoef(q, k);
    }
    if d > 0 {
      MulTop(Tail(q), g, d - 1, n);
    } else if n > 0 {
      MulOfZero(Tail(q), g, n - 1);
    }
  }

  /** A polynomial is zero or has a degree. */
  lemma {:induction false} Degree(a: Poly) returns (d: nat)
    ensures DegreeBelow(a, 0) || HasDegree(a, d)
  {
    d := 0;
    if a != [] {
      var n := |a| - 1;
      if a[n] {
        d := n;
      } else {
        d := Degree(a[..n]);
        forall k: nat
          ensures Coef(a[..n], k) == Coef(a, k)
        {
        }
      }
    }
  }

  /** The remainder is unique. */
  lemma RemainderIsUnique(p: Poly, g: Poly, n: nat, r: Poly, r': Poly)
    requires HasDegree(g, n) && IsRemainder(p, g, n, r) && IsRemainder(p, g, n, r')
    ensures Same(r, r')
  {
    hide Mul, Add, Coef;
    var q: Poly :| Same(p, Add(Mul(q, g), r));
    var q': Poly :| Same(p, Add(Mul(q', g), r'));
    var s := Add(q, q');
    forall i: nat
      ensures Coef(Mul(s, g), i) == (Coef(r, i) != Coef(r', i))
    {
      AddCoef(Mul(q, g), r, i);
      AddCoef(Mul(q', g), r', i);
      MulAdd(q, q', g, i);
    }
    var d := Degree(s);
    if HasDegree(s, d) {
      MulTop(s, g, d, n);
      assert false;
    }
    forall i: nat
      ensures Coef(r, i) == Coef(r', i)
    {
      MulOfZero(s, g, i);
    }
  }
}

/** The checksum of the XMEGA controller as a remainder. */
module CrcDivision {
  import opened Bits
  import opened Polynomials
  import opened XmegaCrc

  /** The exponents of the generator polynomial. */
  const EXPONENTS: seq<nat> := [24, 23, 4, 3, 1, 0]

  function Generator(): (g: Poly)
    ensures |g| == 25
  {
    seq(25, i => i in EXPONENTS)
  }

  lemma GeneratorDegree()
    ensures HasDegree(Generator(), 24)
  {
    assert 24 in EXPONENTS;
  }

  /** The words of a message as one polynomial: each word stands 1 above the next. */
  function Message(words: seq<bv32>): Poly {
    if words == [] then []
    else Add(Shift(Message(words[..|words| - 1])), BitsOfWord(words[|words| - 1], 16))
  }

  /** The checksum as a polynomial. */
  function Checksum(words: seq<bv32>): (r: Poly)
    ensures |r| == 24
  {
    BitsOfWord(Crc(words), 24)
  }

  // ----- bits of words -----

  lemma {:induction false} BitsXor(x: bv32, y: bv32, n: nat, i: nat)
    ensures Coef(BitsOfWord(Xor(x, y), n), i) == (Coef(BitsOfWord(x, n), i) != Coef(BitsOfWord(y, n), i))
    decreases n
  {
    hide Xor, Half, Odd;
    if n > 0 {
      HalfXor(x, y);
      if i > 0 {
        BitsXor(Half(x), Half(y), n - 1, i - 1);
      }
    }
  }

  lemma {:induction false} BitsOfZero(n: nat, i: nat)
    ensures !Coef(BitsOfWord(0, n), i)
  {
    if n > 0 && i > 0 {
      assert Half(0) == 0;
      BitsOfZero(n - 1, i - 1);
    }
  }

  /** Bits above the highest make no difference. */
  lemma {:induction false} MoreBits(x: bv32, m: nat, n: nat, i: nat)
    requires Halves(x, m) == 0 && m <= n
    ensures Coef(BitsOfWord(x, n), i) == Coef(BitsOfWord(x, m), i)
    decreases m
  {
    hide Half, Odd;
    if m == 0 {
      BitsOfZero(n, i);
    } else {
      HalvesFromFront(x, m - 1);
      if i > 0 {
        MoreBits(Half(x), m - 1, n - 1, i - 1);
      }
    }
  }

  lemma {:induction false} NoBitsIsZero(x: bv32, n: nat)
    requires Halves(x, n) == 0 && DegreeBelow(BitsOfWord(x, n), 0)
    ensures x == 0
    decreases n
  {
    hide Half, Odd, Double, Xor;
    if n > 0 {
      HalvesFromFront(x, n - 1);
      var half := BitsOfWord(Half(x), n - 1);
      forall i: nat
        ensures !Coef(half, i)
      {
        assert Coef(half, i) == Coef(BitsOfWord(x, n), i + 1);
      }
      NoBitsIsZero(Half(x), n - 1);
      assert !Coef(BitsOfWord(x, n), 0);
      OddAndHalf(x);
      assert Xor(BitWord(false), Double(0)) == 0 by { ZeroDoubled(); }
    }
  }

  lemma ZeroDoubled()
    ensures Xor(0, Double(0)) == 0
  {
  }

  function ByteDown(x: bv32): bv32 {
    x >> 8
  }

  lemma EightMore(x: bv32, n: nat)
    ensures Halves(x, n + 8) == ByteDown(Halves(x, n))
  {
    hide Half;
    var h := Halves(x, n);
    assert Halves(x, n + 1) == Half(h);
    assert Halves(x, n + 2) == Half(Half(h));
    assert Halves(x, n + 3) == Half(Half(Half(h)));
    assert Halves(x, n + 4) == Half(Half(Half(Half(h))));
    assert Halves(x, n + 5) == Half(Half(Half(Half(Half(h)))));
    assert Halves(x, n + 6) == Half(Half(Half(Half(Half(Half(h))))));
    assert Halves(x, n + 7) == Half(Half(Half(Half(Half(Half(Half(h)))))));
    EightHalves(h);
  }

  lemma EightHalves(h: bv32)
    ensures Half(Half(Half(Half(Half(Half(Half(Half(h)))))))) == ByteDown(h)
  {
  }

  lemma WordHalves(w: bv32)
    requires w <= 0xFFFF
    ensures Halves(w, 16) == 0
  {
    hide Half;
    EightMore(w, 0);
    EightMore(w, 8);
  }

  lemma RegisterHalves(x: bv32)
    requires InRegister(x)
    ensures Halves(x, 24) == 0
  {
    hide Half;
    EightMore(x, 0);
    EightMore(x, 8);
    EightMore(x, 16);
  }

  // ----- one step -----

  /** The register shifted, before it is reduced, has 25 bits. */
  lemma ShiftedBits(c: bv32)
    requires InRegister(c)
    ensures BitsOfWord(Double(c), 25) == Shift(BitsOfWord(c, 24))
  {
    DoubleDown(c);
    hide Half, Odd, Double;
    assert BitsOfWord(Double(c), 25) == [Odd(Double(c))] + BitsOfWord(Half(Double(c)), 24);
  }

  lemma DoubleDown(c: bv32)
    requires InRegister(c)
    ensures !Odd(Double(c)) && Half(Double(c)) == c
  {
  }

  const GENERATOR: bv32 := 0x0180001B

  lemma GeneratorBits()
    ensures BitsOfWord(GENERATOR, 25) == Generator()
  {
    GeneratorList();
    var list := [true, true, false, true, true] + seq(18, _ => false) + [true, true];
    forall i | 0 <= i < 25
      ensures list[i] == (i in EXPONENTS)
    {
    }
  }

  lemma GeneratorList()
    ensures BitsOfWord(GENERATOR, 25) == [true, true, false, true, true] + seq(18, _ => false) + [true, true]
  {
    hide BitsOfWord;
    var zeros := [false, false, false];
    ThreeBits(GENERATOR, 0x300003, 22, [true, true, false]);
    ThreeBits(0x300003, 0x60000, 19, [true, true, false]);
    ThreeBits(0x60000, 0xC000, 16, zeros);
    ThreeBits(0xC000, 0x1800, 13, zeros);
    ThreeBits(0x1800, 0x300, 10, zeros);
    ThreeBits(0x300, 0x60, 7, zeros);
    ThreeBits(0x60, 0xC, 4, zeros);
    ThreeBits(0xC, 0x1, 1, [false, false, true]);
    OneBit();
  }

  lemma OneBit()
    ensures BitsOfWord(1, 1) == [true]
  {
  }

  lemma LowBits(x: bv32)
    ensures Odd(x) == (x & 1 != 0) && Odd(Half(x)) == (x & 2 != 0) && Odd(Half(Half(x))) == (x & 4 != 0)
    ensures Half(Half(Half(x))) == x >> 3
  {
  }

  lemma ThreeBits(x: bv32, y: bv32, n: nat, bits: seq<bool>)
    requires y == x >> 3 && bits == [x & 1 != 0, x & 2 != 0, x & 4 != 0]
    ensures BitsOfWord(x, n + 3) == bits + BitsOfWord(y, n)
  {
    var h, hh := Half(x), Half(Half(x));
    LowBits(x);
    hide Half, Odd;
    assert BitsOfWord(hh, n + 1) == [Odd(hh)] + BitsOfWord(Half(hh), n);
    assert BitsOfWord(h, n + 2) == [Odd(h)] + BitsOfWord(hh, n + 1);
    assert BitsOfWord(x, n + 3) == [Odd(x)] + BitsOfWord(h, n + 2);
  }

  /** What a multiplication by x does to a register: shift, and subtract the generator if bit 24 is set. */
  lemma TimesXByGenerator(c: bv32)
    requires InRegister(c)
    ensures TimesX(c) == if Coef(BitsOfWord(c, 24), 23) then Xor(Double(c), GENERATOR) else Double(c)
  {
    BitAt(c, 24, 23);
    hide Halves;
    TopDecides(c);
    EightMore(c, 0);
    EightMore(c, 8);
    SevenMore(c, 16);
  }

  lemma {:induction false} BitAt(x: bv32, n: nat, i: nat)
    requires i < n
    ensures BitsOfWord(x, n)[i] == Odd(Halves(x, i))
    decreases n
  {
    hide Half, Odd;
    if i > 0 {
      BitAt(Half(x), n - 1, i - 1);
      HalvesFromFront(x, i - 1);
    }
  }

  lemma SevenMore(x: bv32, n: nat)
    ensures Halves(x, n + 7) == SevenDown(Halves(x, n))
  {
    hide Half;
    var h := Halves(x, n);
    assert Halves(x, n + 1) == Half(h);
    assert Halves(x, n + 2) == Half(Half(h));
    assert Halves(x, n + 3) == Half(Half(Half(h)));
    assert Halves(x, n + 4) == Half(Half(Half(Half(h))));
    assert Halves(x, n + 5) == Half(Half(Half(Half(Half(h)))));
    assert Halves(x, n + 6) == Half(Half(Half(Half(Half(Half(h))))));
    SevenHalves(h);
  }

  function SevenDown(x: bv32): bv32 {
    x >> 7
  }

  lemma SevenHalves(h: bv32)
    ensures Half(Half(Half(Half(Half(Half(Half(h))))))) == SevenDown(h)
  {
  }

  lemma TopDecides(c: bv32)
    requires InRegister(c)
    ensures TimesX(c) == if Odd(SevenDown(ByteDown(ByteDown(c)))) then Xor(Double(c), GENERATOR) else Double(c)
  {
    TopIsOdd(c);
    if c & 0x800000 > 0 {
      Reduced(c);
    } else {
      NotReduced(c);
    }
  }

  lemma TopIsOdd(c: bv32)
    ensures Odd(SevenDown(ByteDown(ByteDown(c)))) <==> c & 0x800000 > 0
  {
  }

  lemma Reduced(c: bv32)
    requires InRegister(c) && c & 0x800000 > 0
    ensures TimesX(c) == Xor(Double(c), GENERATOR)
  {
  }

  lemma NotReduced(c: bv32)
    requires InRegister(c) && c & 0x800000 == 0
    ensures TimesX(c) == Double(c)
  {
  }

  /** One word more: the message, the quotient and the checksum move on together. */
  lemma StepDivides(c: bv32, w: bv32, i: nat)
    requires InRegister(c) && w <= 0xFFFF
    ensures Coef(BitsOfWord(Xor(TimesX(c), w), 24), i)
         == ((Coef(Shift(BitsOfWord(c, 24)), i) != (Coef(BitsOfWord(c, 24), 23) && Coef(Generator(), i)))
             != Coef(BitsOfWord(w, 16), i))
  {
    hide TimesX, Xor, Double, BitsOfWord, Generator, InRegister, Coef, Halves;
    var t := TimesX(c);
    TimesXStays(c);
    WordInRegister(t, w);
    RegisterHalves(Xor(t, w));
    RegisterHalves(t);
    WordHalves(w);
    MoreBits(Xor(t, w), 24, 25, i);
    MoreBits(w, 16, 25, i);
    BitsXor(t, w, 25, i);
    ShiftedBits(c);
    TimesXByGenerator(c);
    GeneratorBits();
    BitsXor(Double(c), GENERATOR, 25, i);
  }

  lemma WordInRegister(t: bv32, w: bv32)
    requires InRegister(t) && w <= 0xFFFF
    ensures InRegister(Xor(t, w))
  {
  }

  // ----- the division -----

  /** The quotient: the bits that have been shifted out. */
  function Quotient(words: seq<bv32>): Poly {
    if words == [] then []
    else
      var before := words[..|words| - 1];
      [Coef(Checksum(before), 23)] + Quotient(before)
  }

  lemma {:induction false} CrcDivides(words: seq<bv32>, i: nat)
    requires AreWords(words)
    ensures Coef(Message(words), i) == (Coef(Mul(Quotient(words), Generator()), i) != Coef(Checksum(words), i))
    decreases |words|
  {
    hide Xor, TimesX, BitsOfWord, Generator, InRegister, Coef, Mul, Shift, Add;
    var g := Generator();
    if words == [] {
      BitsOfZero(24, i);
      NoCoef(i);
    } else {
      var n := |words| - 1;
      var before, w := words[..n], words[n];
      var c, q := Crc(before), Quotient(before);
      CrcInRegister(before);
      StepDivides(c, w, i);
      AddCoef(Shift(Message(before)), BitsOfWord(w, 16), i);
      ShiftCoef(Message(before), i);
      ShiftCoef(BitsOfWord(c, 24), i);
      MulCoef(Quotient(words), g, i);
      QuotientParts(words);
      if i > 0 {
        CrcDivides(before, i - 1);
      }
    }
  }

  lemma NoCoef(i: nat)
    ensures !Coef([], i) && Mul([], Generator()) == []
  {
  }

  lemma QuotientParts(words: seq<bv32>)
    requires words != []
    ensures var before := words[..|words| - 1];
      Coef(Quotient(words), 0) == Coef(Checksum(before), 23) && Tail(Quotient(words)) == Quotient(before)
  {
  }

  /** The checksum is what remains of the message in the division by the generator, and nothing else is. */
  lemma CrcIsRemainder(words: seq<bv32>, r: Poly)
    requires AreWords(words) && |r| == 24
    ensures IsRemainder(Message(words), Generator(), 24, r) <==> r == Checksum(words)
  {
    hide Message, Mul, Add, Generator, Checksum;
    var sum := Add(Mul(Quotient(words), Generator()), Checksum(words));
    forall i: nat
      ensures Coef(Message(words), i) == Coef(sum, i)
    {
      CrcDivides(words, i);
      AddCoef(Mul(Quotient(words), Generator()), Checksum(words), i);
    }
    assert DegreeBelow(Checksum(words), 24);
    if IsRemainder(Message(words), Generator(), 24, r) {
      GeneratorDegree();
      RemainderIsUnique(Message(words), Generator(), 24, r, Checksum(words));
      forall i | 0 <= i < 24
        ensures r[i] == Checksum(words)[i]
      {
        assert Coef(r, i) == Coef(Checksum(words), i);
      }
    }
  }

  /** A message has checksum 0 exactly when it is a multiple of the generator polynomial. */
  lemma CrcIsZeroExactlyWhen(words: seq<bv32>)
    requires AreWords(words)
    ensures Crc(words) == 0 <==> IsMultiple(Message(words), Generator())
  {
    hide Message, Mul, Add, Generator, Crc, BitsOfWord, InRegister;
    var zeros: Poly := seq(24, _ => false);
    CrcIsRemainder(words, zeros);
    CrcInRegister(words);
    RegisterHalves(Crc(words));
    forall q: Poly
      ensures Same(Add(Mul(q, Generator()), zeros), Mul(q, Generator()))
    {
      forall i: nat
        ensures Coef(Add(Mul(q, Generator()), zeros), i) == Coef(Mul(q, Generator()), i)
      {
        AddCoef(Mul(q, Generator()), zeros, i);
      }
    }
    if Checksum(words) == zeros {
      NoBitsIsZero(Crc(words), 24);
    }
    if Crc(words) == 0 {
      forall i: nat
        ensures !Coef(Checksum(words), i)
      {
        BitsOfZero(24, i);
      }
      assert forall i :: 0 <= i < 24 ==> Checksum(words)[i] == Coef(Checksum(words), i);
    }
  }

  /** Two messages of equal length share a checksum exactly when their difference is a multiple of the generator. */
  lemma EscapesExactlyWhenMultiple(a: seq<bv32>, b: seq<bv32>)
    requires |a| == |b| && AreWords(a) && AreWords(b)
    ensures Crc(a) == Crc(b) <==> IsMultiple(Message(XorWords(a, b)), Generator())
  {
    hide Crc, Xor, Message;
    CrcIsLinear(a, b);
    forall i | 0 <= i < |a|
      ensures XorWords(a, b)[i] <= 0xFFFF
    {
      XorOfWords(a[i], b[i]);
    }
    CrcIsZeroExactlyWhen(XorWords(a, b));
    CancelOne(Crc(a), Crc(b), Crc(a));
    XorBasics(Crc(a), Crc(b));
    XorBasics(Crc(b), Crc(a));
  }

  lemma XorOfWords(v: bv32, w: bv32)
    requires v <= 0xFFFF && w <= 0xFFFF
    ensures Xor(v, w) <= 0xFFFF
  {
  }

  // ----- images of bytes -----

  /** The bits of a byte, lowest first. */
  function ByteBits(b: bv8): (bits: Poly)
    ensures |bits| == 8
  {
    BitsOfWord(b as bv32, 8)
  }

  /** An image of bytes as a polynomial: of every two bytes the second one counts more. */
  function ImageMessage(bytes: seq<bv8>): Poly
    requires |bytes| % 2 == 0
  {
    if bytes == [] then []
    else
      var n := |bytes| - 2;
      Add(Shift(ImageMessage(bytes[..n])), ByteBits(bytes[n]) + ByteBits(bytes[n + 1]))
  }

  /** The n lowest bits of the mask are set. */
  predicate Covers(mask: bv32, n: nat)
    decreases n
  {
    n == 0 || (Odd(mask) && Covers(Half(mask), n - 1))
  }

  lemma HalfOfMasked(x: bv32, y: bv32, mask: bv32)
    requires x & mask == y & mask
    ensures Odd(mask) ==> Odd(x) == Odd(y)
    ensures Half(x) & Half(mask) == Half(y) & Half(mask)
  {
  }

  lemma {:induction false} MaskedBits(x: bv32, y: bv32, mask: bv32, n: nat)
    requires Covers(mask, n) && x & mask == y & mask
    ensures BitsOfWord(x, n) == BitsOfWord(y, n)
    decreases n
  {
    hide Half, Odd;
    if n > 0 {
      HalfOfMasked(x, y, mask);
      MaskedBits(Half(x), Half(y), Half(mask), n - 1);
    }
  }

  lemma {:induction false} BitsInTwo(x: bv32, m: nat, n: nat)
    ensures BitsOfWord(x, m + n) == BitsOfWord(x, m) + BitsOfWord(Halves(x, m), n)
    decreases m
  {
    hide Half, Odd;
    if m > 0 {
      BitsInTwo(Half(x), m - 1, n);
      HalvesFromFront(x, m - 1);
    }
  }

  /** A word is its low byte and then its high byte. */
  lemma WordIsTwoBytes(bytes: seq<bv8>, i: nat)
    requires 2 * i + 1 < |bytes|
    ensures BitsOfWord(WordAt(bytes, i), 16) == ByteBits(bytes[2 * i]) + ByteBits(bytes[2 * i + 1])
  {
    BytesOfWord(bytes, i);
    assert Covers(0xFF, 8);
    hide BitsOfWord, WordAt, Covers, Half;
    var w := WordAt(bytes, i);
    BitsInTwo(w, 8, 8);
    EightMore(w, 0);
    assert Halves(w, 0) == w;
    MaskedBits(w, bytes[2 * i] as bv32, 0xFF, 8);
  }

  lemma BytesOfWord(bytes: seq<bv8>, i: nat)
    requires 2 * i + 1 < |bytes|
    ensures WordAt(bytes, i) & 0xFF == (bytes[2 * i] as bv32) & 0xFF
    ensures ByteDown(WordAt(bytes, i)) == bytes[2 * i + 1] as bv32
  {
  }

  lemma {:induction false} MessageOfImage(bytes: seq<bv8>)
    requires |bytes| % 2 == 0
    ensures Message(Words(bytes)) == ImageMessage(bytes)
  {
    hide WordAt, ByteBits, BitsOfWord, Add, Shift;
    if bytes != [] {
      var n := |bytes| - 2;
      MessageOfImage(bytes[..n]);
      WordIsTwoBytes(bytes, |bytes| / 2 - 1);
      assert Words(bytes)[..|Words(bytes)| - 1] == Words(bytes[..n]);
    }
  }

  /** What the controller and the program compute for an image is the remainder of its polynomial. */
  lemma ImageChecksumIsRemainder(bytes: seq<bv8>, r: Poly)
    requires |bytes| % 2 == 0 && |r| == 24
    ensures IsRemainder(ImageMessage(bytes), Generator(), 24, r) <==> r == Checksum(Words(bytes))
  {
    MessageOfImage(bytes);
    CrcIsRemainder(Words(bytes), r);
  }

  // ----- differences of one bit in each word -----

  /** A word 0 or 1 for each coefficient, the highest first. */
  function OneBitWords(p: Poly): (words: seq<bv32>)
    ensures |words| == |p| && AreWords(words)
  {
    if p == [] then [] else OneBitWords(p[1..]) + [BitWord(p[0])]
  }

  lemma {:induction false} MessageOfBits(p: Poly, i: nat)
    ensures Coef(Message(OneBitWords(p)), i) == Coef(p, i)
  {
    hide BitsOfWord;
    if p != [] {
      var words := OneBitWords(p);
      assert words[..|words| - 1] == OneBitWords(p[1..]);
      AddCoef(Shift(Message(OneBitWords(p[1..]))), BitsOfWord(BitWord(p[0]), 16), i);
      ShiftCoef(Message(OneBitWords(p[1..])), i);
      BitsOfBit(p[0], i);
      if i > 0 {
        MessageOfBits(p[1..], i - 1);
      }
    }
  }

  lemma BitsOfBit(bit: bool, i: nat)
    ensures Coef(BitsOfWord(BitWord(bit), 16), i) == (i == 0 && bit)
  {
    if i > 0 {
      BitsOfZero(15, i - 1);
    }
  }

  /** The coefficients of the generator, as words, have checksum 0, and so have those of its multiples alone. */
  lemma MultiplesHaveChecksumZero(p: Poly)
    ensures Crc(OneBitWords(p)) == 0 <==> IsMultiple(p, Generator())
    ensures Crc(OneBitWords(Generator())) == 0
  {
    hide Crc, Message, OneBitWords, Mul, Generator;
    OneBitMultiples(p);
    OneBitMultiples(Generator());
    assert Same(Generator(), Mul([true], Generator())) by { TimesOne(Generator()); }
  }

  lemma OneBitMultiples(p: Poly)
    ensures Crc(OneBitWords(p)) == 0 <==> IsMultiple(p, Generator())
  {
    hide Crc, Message, OneBitWords, Mul, Generator;
    CrcIsZeroExactlyWhen(OneBitWords(p));
    forall i: nat
      ensures Coef(Message(OneBitWords(p)), i) == Coef(p, i)
    {
      MessageOfBits(p, i);
    }
  }

  lemma TimesOne(g: Poly)
    ensures Same(g, Mul([true], g))
  {
    forall i: nat
      ensures Coef(g, i) == Coef(Mul([true], g), i)
    {
      MulCoef([true], g, i);
    }
  }
}
