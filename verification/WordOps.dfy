/** What the word operations of FIPS 180-4 do to the numbers and bits that words stand for. */
module WordOps {
  import opened Quotients
  import opened Fips180

  function Power2(n: nat): (r: nat)
    ensures r > 0
  {
    if n == 0 then 1 else 2 * Power2(n - 1)
  }

  /** The i-th binary digit of x, counted from the low end. */
  function Bit(x: nat, i: nat): (r: nat)
    ensures r <= 1
  {
    x / Power2(i) % 2
  }

  lemma Powers()
    ensures Power2(8) == 256 && Power2(16) == 0x1_0000 && Power2(24) == 0x100_0000 && Power2(32) == TWO_32
  {
    assert Power2(4) == 16;
    assert Power2(12) == 0x1000;
    assert Power2(20) == 0x10_0000;
    assert Power2(28) == 0x1000_0000;
  }

  // ---------------------------------------------------------------- bits, one after the other

  lemma DivTwice(x: nat, p: nat)
    requires p > 0
    ensures (x / 2) / p == x / (2 * p)
  {
    var q, r := (x / 2) / p, (x / 2) % p;
    assert x == (q * p + r) * 2 + x % 2;
    assert (q * p) * 2 == q * (2 * p);
    QuotientIs(x, 2 * p, q, 2 * r + x % 2);
  }

  lemma BitNext(x: nat, i: nat)
    ensures Bit(x, i + 1) == Bit(x / 2, i)
    ensures Bit(x, 0) == x % 2
  {
    DivTwice(x, Power2(i));
  }

  lemma BitOfZero(i: nat)
    ensures Bit(0, i) == 0
  {
  }

  /** The bits of a number that is told by its lowest bit and its half. */
  lemma BitOf(x: nat, i: nat)
    ensures Bit(x, i) == if i == 0 then x % 2 else Bit(x / 2, i - 1)
  {
    BitNext(x, if i == 0 then 0 else i - 1);
  }

  lemma {:induction false} AndBits(x: Word, y: Word, i: nat)
    ensures Bit(And(x, y), i) == if Bit(x, i) == 1 && Bit(y, i) == 1 then 1 else 0
    decreases i
  {
    hide Bit;
    BitOf(x, i);
    BitOf(y, i);
    BitOf(And(x, y), i);
    if i > 0 {
      AndBits(x / 2, y / 2, i - 1);
    }
  }

  lemma {:induction false} OrBits(x: Word, y: Word, i: nat)
    ensures Bit(Or(x, y), i) == if Bit(x, i) == 1 || Bit(y, i) == 1 then 1 else 0
    decreases i
  {
    hide Bit;
    BitOf(x, i);
    BitOf(y, i);
    BitOf(Or(x, y), i);
    if i > 0 {
      OrBits(x / 2, y / 2, i - 1);
    }
  }

  lemma {:induction false} XorBits(x: Word, y: Word, i: nat)
    ensures Bit(Xor(x, y), i) == (Bit(x, i) + Bit(y, i)) % 2
    decreases i
  {
    hide Bit;
    BitOf(x, i);
    BitOf(y, i);
    BitOf(Xor(x, y), i);
    if i > 0 {
      XorBits(x / 2, y / 2, i - 1);
    }
  }

  lemma {:induction false} OnesBits(k: nat, i: nat)
    ensures Bit(Power2(k) - 1, i) == if i < k then 1 else 0
    decreases k
  {
    hide Bit;
    BitOf(Power2(k) - 1, i);
    if k == 0 {
      BitOfZero(i);
    } else if i > 0 {
      OnesBits(k - 1, i - 1);
    }
  }

  lemma NotBits(x: Word, i: nat)
    requires i < 32
    ensures Bit(Not(x), i) == 1 - Bit(x, i)
  {
    hide Bit, Xor;
    Powers();
    XorBits(x, TWO_32 - 1, i);
    OnesBits(32, i);
  }

  lemma {:induction false} ShrBits(n: nat, x: Word, i: nat)
    ensures Bit(Shr(n, x), i) == Bit(x, i + n)
    decreases n
  {
    hide Bit;
    if n > 0 {
      ShrBits(n - 1, x / 2, i);
      BitNext(x, i + n - 1);
    }
  }

  lemma ModHalf(x: nat, p: nat)
    requires p > 0
    ensures (x % (2 * p)) / 2 == (x / 2) % p && (x % (2 * p)) % 2 == x % 2
  {
    var q, r := (x / 2) / p, (x / 2) % p;
    assert x == (q * p + r) * 2 + x % 2;
    assert (q * p) * 2 == q * (2 * p);
    QuotientIs(x, 2 * p, q, 2 * r + x % 2);
  }

  /** Reduction modulo a power of two keeps the bits below it. */
  lemma {:induction false} ModBits(x: nat, k: nat, i: nat)
    ensures Bit(x % Power2(k), i) == if i < k then Bit(x, i) else 0
    decreases k
  {
    hide Bit;
    if k == 0 {
      BitOfZero(i);
    } else {
      ModHalf(x, Power2(k - 1));
      BitOf(x, i);
      BitOf(x % Power2(k), i);
      if i > 0 {
        ModBits(x / 2, k - 1, i - 1);
      }
    }
  }

  lemma Low32Bits(x: nat, i: nat)
    ensures Bit(Low32(x), i) == if i < 32 then Bit(x, i) else 0
  {
    hide Bit;
    Powers();
    Low32IsModulo(x);
    ModBits(x, 32, i);
  }

  /** A word has no bits from 32 on. */
  lemma NoHighBits(x: Word, i: nat)
    requires x < TWO_32 && i >= 32
    ensures Bit(x, i) == 0
  {
    hide Bit;
    Low32Bits(x, i);
  }

  lemma {:induction false} ShlBits(n: nat, x: Word, i: nat)
    ensures Bit(Shl(n, x), i) == if n <= i < 32 then Bit(x, i - n) else 0
    decreases n
  {
    hide Bit, Low32;
    if n == 0 {
      Low32Bits(x, i);
    } else {
      var y := Low32(2 * x);
      ShlBits(n - 1, y, i);
      if n - 1 <= i < 32 {
        Low32Bits(2 * x, i - (n - 1));
        BitOf(2 * x, i - (n - 1));
      }
    }
  }

  // ---------------------------------------------------------------- the functions of section 4.1.2 by bits

  /** Rotation to the right: bit i comes from n places above, round the word. */
  lemma RotrBits(n: nat, x: Word, i: nat)
    requires 0 < n < 32 && i < 32 && x < TWO_32
    ensures Bit(Rotr(n, x), i) == Bit(x, if i + n < 32 then i + n else i + n - 32)
  {
    hide Bit, Shr, Shl, Or;
    OrBits(Shr(n, x), Shl(32 - n, x), i);
    ShrBits(n, x, i);
    ShlBits(32 - n, x, i);
    if i + n >= 32 {
      NoHighBits(x, i + n);
    }
  }

  /** y where x has a one, z where x has a zero. */
  lemma ChBits(x: Word, y: Word, z: Word, i: nat)
    requires i < 32
    ensures Bit(Ch(x, y, z), i) == if Bit(x, i) == 1 then Bit(y, i) else Bit(z, i)
  {
    hide Bit, Xor, And, Not;
    XorBits(And(x, y), And(Not(x), z), i);
    AndBits(x, y, i);
    AndBits(Not(x), z, i);
    NotBits(x, i);
  }

  /** One where at least two have a one. */
  lemma MajBits(x: Word, y: Word, z: Word, i: nat)
    ensures Bit(Maj(x, y, z), i) == if Bit(x, i) + Bit(y, i) + Bit(z, i) >= 2 then 1 else 0
  {
    hide Bit, Xor, And;
    XorBits(Xor(And(x, y), And(x, z)), And(y, z), i);
    XorBits(And(x, y), And(x, z), i);
    AndBits(x, y, i);
    AndBits(x, z, i);
    AndBits(y, z, i);
  }

  function Around(i: nat): (r: nat)
  {
    if i < 32 then i else i - 32
  }

  lemma Xor3Bits(x: Word, y: Word, z: Word, i: nat)
    ensures Bit(Xor(Xor(x, y), z), i) == (Bit(x, i) + Bit(y, i) + Bit(z, i)) % 2
  {
    hide Bit, Xor;
    XorBits(Xor(x, y), z, i);
    XorBits(x, y, i);
  }

  /** The sums of section 4.1.2: which three bits each bit is the sum of. */
  lemma SigmaBits(x: Word, i: nat)
    requires x < TWO_32 && i < 32
    ensures Bit(BigSigma0(x), i) == (Bit(x, Around(i + 2)) + Bit(x, Around(i + 13)) + Bit(x, Around(i + 22))) % 2
    ensures Bit(BigSigma1(x), i) == (Bit(x, Around(i + 6)) + Bit(x, Around(i + 11)) + Bit(x, Around(i + 25))) % 2
    ensures Bit(SmallSigma0(x), i) == (Bit(x, Around(i + 7)) + Bit(x, Around(i + 18)) + Bit(x, i + 3)) % 2
    ensures Bit(SmallSigma1(x), i) == (Bit(x, Around(i + 17)) + Bit(x, Around(i + 19)) + Bit(x, i + 10)) % 2
  {
    hide Bit, Xor, Rotr, Shr;
    Xor3Bits(Rotr(2, x), Rotr(13, x), Rotr(22, x), i);
    Xor3Bits(Rotr(6, x), Rotr(11, x), Rotr(25, x), i);
    Xor3Bits(Rotr(7, x), Rotr(18, x), Shr(3, x), i);
    Xor3Bits(Rotr(17, x), Rotr(19, x), Shr(10, x), i);
    forall n: nat | n in {2, 13, 22, 6, 11, 25, 7, 18, 17, 19} ensures Bit(Rotr(n, x), i) == Bit(x, Around(i + n)) {
      RotrBits(n, x, i);
    }
    ShrBits(3, x, i);
    ShrBits(10, x, i);
  }

  // ---------------------------------------------------------------- words as numbers

  lemma {:induction false} ShrIs(n: nat, x: Word)
    ensures Shr(n, x) == x / Power2(n)
    decreases n
  {
    if n > 0 {
      ShrIs(n - 1, x / 2);
      DivTwice(x, Power2(n - 1));
    }
  }

  lemma {:induction false} XorOnes(x: nat, k: nat)
    requires x < Power2(k)
    ensures Xor(x, Power2(k) - 1) == Power2(k) - 1 - x
    decreases k
  {
    if k > 0 {
      XorOnes(x / 2, k - 1);
    }
  }

  lemma NotIs(x: Word)
    requires x < TWO_32
    ensures Not(x) == TWO_32 - 1 - x
  {
    hide Xor;
    Powers();
    XorOnes(x, 32);
  }

  lemma {:induction false} OrZero(x: nat)
    ensures Or(x, 0) == x
  {
    if x > 0 {
      OrZero(x / 2);
    }
  }

  /** Or with bits below those of z shifted by k is addition. */
  lemma {:induction false} OrDisjoint(z: nat, y: nat, k: nat)
    requires y < Power2(k)
    ensures Or(z * Power2(k), y) == z * Power2(k) + y
    decreases k
  {
    if k == 0 {
      OrZero(z);
    } else {
      var half := z * Power2(k - 1);
      assert z * Power2(k) == 2 * half;
      OrDisjoint(z, y / 2, k - 1);
    }
  }

  lemma {:induction false} ShlFits(n: nat, b: nat)
    requires b * Power2(n) < TWO_32
    ensures Shl(n, b) == b * Power2(n)
    decreases n
  {
    if n == 0 {
      Low32IsModulo(b);
    } else {
      hide Low32;
      PowerTwice(n, b);
      Low32IsModulo(2 * b);
      ShlFits(n - 1, 2 * b);
    }
  }

  lemma PowerTwice(n: nat, b: nat)
    requires n > 0
    ensures b * Power2(n) == (2 * b) * Power2(n - 1) >= 2 * b
  {
    var p := Power2(n - 1);
    assert p >= 1;
    assert b * (2 * p) == (2 * b) * p;
    assert (2 * b) * p >= 2 * b;
  }

  // ---------------------------------------------------------------- bytes

  /** The number that bytes stand for, the highest first. */
  function Value(b: seq<Byte>): (r: nat) {
    if b == [] then 0 else 256 * Value(b[..|b| - 1]) + b[|b| - 1]
  }

  /** Four bytes make the word they spell. */
  lemma ValueOfFour(b: seq<Byte>)
    requires |b| == 4
    ensures Value(b) == FromBytes(b[0], b[1], b[2], b[3])
  {
    assert b[..3][..2] == b[..2] && b[..2][..1] == b[..1] && b[..1][..0] == [];
    assert Value(b[..1]) == b[0];
    assert Value(b[..2]) == FromBytes(0, 0, b[0], b[1]);
    assert Value(b[..3]) == FromBytes(0, b[0], b[1], b[2]);
  }

  lemma {:induction false} ShrMore(m: nat, n: nat, x: Word)
    ensures Shr(m + n, x) == Shr(m, Shr(n, x))
    decreases n
  {
    if n > 0 {
      ShrMore(m, n - 1, x / 2);
    }
  }

  lemma ShrEight(x: Word)
    ensures Shr(8, x) == x / 256
  {
    Powers();
    ShrIs(8, x);
  }

  lemma FourDigits(w: nat, a: nat, b: nat, c: nat)
    requires w < TWO_32 && a == w / 256 && b == a / 256 && c == b / 256
    ensures FromBytes(c % 256, b % 256, a % 256, w % 256) == w
  {
    assert c < 256;
    assert b == c * 256 + b % 256;
    assert a == b * 256 + a % 256;
    assert w == a * 256 + w % 256;
  }

  /** The four bytes of a word spell it, the highest first. */
  lemma WordBytesSpell(w: Word)
    requires w < TWO_32
    ensures Value(WordBytes(w)) == w
  {
    hide Value, Shr;
    ShrEight(w);
    ShrMore(8, 8, w);
    ShrEight(Shr(8, w));
    ShrMore(8, 16, w);
    ShrEight(Shr(16, w));
    ValueOfFour(WordBytes(w));
    FourDigits(w, Shr(8, w), Shr(16, w), Shr(24, w));
  }

  predicate Fits(s: State) {
    && s.a < TWO_32 && s.b < TWO_32 && s.c < TWO_32 && s.d < TWO_32
    && s.e < TWO_32 && s.f < TWO_32 && s.g < TWO_32 && s.h < TWO_32
  }

  function WordAt(s: State, i: nat): (r: Word)
    requires i < 8
  {
    [s.a, s.b, s.c, s.d, s.e, s.f, s.g, s.h][i]
  }

  /** All words of all computations stay below 2^32. */
  lemma HashWordsFit(p: seq<Byte>, n: nat)
    requires 64 * n <= |p|
    ensures Fits(HashValue(p, n))
  {
    hide Rounds, Low32;
  }

  lemma {:induction false} RoundsFit(s: State, w: seq<Word>)
    requires Fits(s) && |w| <= 64
    ensures Fits(Rounds(s, w))
  {
    hide Low32, BigSigma0, BigSigma1, Ch, Maj;
    if w != [] {
      RoundsFit(s, w[..|w| - 1]);
    }
  }

  lemma {:induction false} ScheduleFits(p: seq<Byte>, start: nat, t: nat)
    requires t <= 64 && start + 64 <= |p|
    ensures forall i :: 0 <= i < t ==> Schedule(p, start, t)[i] < TWO_32
  {
    hide Low32, SmallSigma0, SmallSigma1;
    if t > 0 {
      ScheduleFits(p, start, t - 1);
    }
  }

  lemma {:induction false} ConcatAt(words: seq<Word>, i: nat)
    requires i < |words|
    ensures Concat(words)[4 * i..4 * i + 4] == WordBytes(words[i])
  {
    hide WordBytes;
    var last := |words| - 1;
    if i < last {
      ConcatAt(words[..last], i);
      assert Concat(words)[4 * i..4 * i + 4] == Concat(words[..last])[4 * i..4 * i + 4];
    }
  }

  /** The i-th group of four bytes of the digest spells the i-th hash word, the highest byte first. */
  lemma DigestSpells(s: State, i: nat)
    requires Fits(s) && i < 8
    ensures Value(Digest(s)[4 * i..4 * i + 4]) == WordAt(s, i)
  {
    hide WordBytes, Concat, Value;
    ConcatAt([s.a, s.b, s.c, s.d, s.e, s.f, s.g, s.h], i);
    WordBytesSpell(WordAt(s, i));
  }
}
