/** SHA-256 as FIPS 180-4 defines it: the functions of section 4.1.2, the padding of section
    5.1.1, the block parsing of section 5.2.1 and the computation of section 6.2.2. */
module Fips180 {

  type Byte = x: int | 0 <= x < 256

  /** A 32-bit word, as the number below 2^32 that its bits stand for. */
  type Word = nat

  const TWO_32 := 0x1_0000_0000

  const K: seq<Word> :=
    [0x428a2f98, 0x71374491, 0xb5c0fbcf, 0xe9b5dba5, 0x3956c25b, 0x59f111f1, 0x923f82a4, 0xab1c5ed5] +
    [0xd807aa98, 0x12835b01, 0x243185be, 0x550c7dc3, 0x72be5d74, 0x80deb1fe, 0x9bdc06a7, 0xc19bf174] +
    [0xe49b69c1, 0xefbe4786, 0x0fc19dc6, 0x240ca1cc, 0x2de92c6f, 0x4a7484aa, 0x5cb0a9dc, 0x76f988da] +
    [0x983e5152, 0xa831c66d, 0xb00327c8, 0xbf597fc7, 0xc6e00bf3, 0xd5a79147, 0x06ca6351, 0x14292967] +
    [0x27b70a85, 0x2e1b2138, 0x4d2c6dfc, 0x53380d13, 0x650a7354, 0x766a0abb, 0x81c2c92e, 0x92722c85] +
    [0xa2bfe8a1, 0xa81a664b, 0xc24b8b70, 0xc76c51a3, 0xd192e819, 0xd6990624, 0xf40e3585, 0x106aa070] +
    [0x19a4c116, 0x1e376c08, 0x2748774c, 0x34b0bcb5, 0x391c0cb3, 0x4ed8aa4a, 0x5b9cca4f, 0x682e6ff3] +
    [0x748f82ee, 0x78a5636f, 0x84c87814, 0x8cc70208, 0x90befffa, 0xa4506ceb, 0xbef9a3f7, 0xc67178f2]

  const H0: seq<Word> :=
    [0x6a09e667, 0xbb67ae85, 0x3c6ef372, 0xa54ff53a, 0x510e527f, 0x9b05688c, 0x1f83d9ab, 0x5be0cd19]

  // ---------------------------------------------------------------- sections 3.2 and 4.1.2

  /** x modulo 2^32. */
  function Low32(x: nat): Word
    ensures Low32(x) < TWO_32
  {
    if x < TWO_32 then x else Low32(x - TWO_32)
  }

  lemma {:induction false} Low32IsModulo(x: nat)
    ensures Low32(x) == x % TWO_32
  {
    if x >= TWO_32 {
      Low32IsModulo(x - TWO_32);
    }
  }

  /** Addition modulo 2^32. */
  function Add(x: Word, y: Word): Word {
    Low32(x + y)
  }

  function And(x: Word, y: Word): Word {
    if x == 0 || y == 0 then 0 else 2 * And(x / 2, y / 2) + if x % 2 == 1 && y % 2 == 1 then 1 else 0
  }

  function Or(x: Word, y: Word): Word
    decreases x + y
  {
    if x == 0 && y == 0 then 0 else 2 * Or(x / 2, y / 2) + if x % 2 == 1 || y % 2 == 1 then 1 else 0
  }

  function Xor(x: Word, y: Word): Word
    decreases x + y
  {
    if x == 0 && y == 0 then 0 else 2 * Xor(x / 2, y / 2) + if x % 2 == y % 2 then 0 else 1
  }

  function Not(x: Word): Word {
    Xor(x, TWO_32 - 1)
  }

  /** x without its lowest n bits. */
  function Shr(n: nat, x: Word): Word
    decreases n
  {
    if n == 0 then x else Shr(n - 1, x / 2)
  }

  /** x moved n bits up within 32 bits. */
  function Shl(n: nat, x: Word): Word
    decreases n
  {
    if n == 0 then Low32(x) else Shl(n - 1, Low32(2 * x))
  }

  function Rotr(n: nat, x: Word): Word
    requires n <= 32
  {
    Or(Shr(n, x), Shl(32 - n, x))
  }

  function Ch(x: Word, y: Word, z: Word): Word {
    Xor(And(x, y), And(Not(x), z))
  }

  function Maj(x: Word, y: Word, z: Word): Word {
    Xor(Xor(And(x, y), And(x, z)), And(y, z))
  }

  function BigSigma0(x: Word): Word {
    Xor(Xor(Rotr(2, x), Rotr(13, x)), Rotr(22, x))
  }

  function BigSigma1(x: Word): Word {
    Xor(Xor(Rotr(6, x), Rotr(11, x)), Rotr(25, x))
  }

  function SmallSigma0(x: Word): Word {
    Xor(Xor(Rotr(7, x), Rotr(18, x)), Shr(3, x))
  }

  function SmallSigma1(x: Word): Word {
    Xor(Xor(Rotr(17, x), Rotr(19, x)), Shr(10, x))
  }

  // ---------------------------------------------------------------- section 5.1.1

  /** The number of zero bits after the one bit, for a message of l bits. */
  function ZeroBits(l: nat): (k: nat) {
    (447 - l) % 512
  }

  /** It is the smallest non-negative solution of l + 1 + k = 448 modulo 512. */
  lemma ZeroBitsIsLeast(l: nat, k: nat)
    ensures (l + 1 + ZeroBits(l)) % 512 == 448
    ensures (l + 1 + k) % 512 == 448 ==> ZeroBits(l) <= k
  {
  }

  /** The i-th byte of x, counted from the low end. */
  function ByteOf(x: nat, i: nat): Byte
    decreases i
  {
    if i == 0 then x % 256 else ByteOf(x / 256, i - 1)
  }

  /** x as n bytes, the highest first. */
  function BigEndian(x: nat, n: nat): (r: seq<Byte>)
    ensures |r| == n
  {
    seq(n, i requires 0 <= i < n => ByteOf(x, n - 1 - i))
  }

  function Zeros(n: nat): (r: seq<Byte>)
    ensures |r| == n
  {
    seq(n, i => 0)
  }

  /** A message of whole bytes: the one bit and its first seven zero bits are the byte 0x80. */
  function Pad(m: seq<Byte>): (r: seq<Byte>) {
    m + [0x80] + Zeros(ZeroBits(8 * |m|) / 8) + BigEndian(8 * |m|, 8)
  }

  // ---------------------------------------------------------------- sections 5.2.1 and 6.2.2

  /** Four bytes as a word, the highest first. */
  function FromBytes(b0: nat, b1: nat, b2: nat, b3: nat): Word {
    ((b0 * 256 + b1) * 256 + b2) * 256 + b3
  }

  /** Word t of the block that starts at byte start. */
  function BlockWord(p: seq<Byte>, start: nat, t: nat): Word
    requires t < 16 && start + 64 <= |p|
  {
    var i := start + 4 * t;
    FromBytes(p[i], p[i + 1], p[i + 2], p[i + 3])
  }

  /** The next word of the message schedule after the words w. */
  function NextWord(p: seq<Byte>, start: nat, w: seq<Word>): Word
    requires |w| < 64 && start + 64 <= |p|
  {
    var t := |w|;
    if t < 16 then BlockWord(p, start, t)
    else Add(Add(Add(SmallSigma1(w[t - 2]), w[t - 7]), SmallSigma0(w[t - 15])), w[t - 16])
  }

  /** The first t words of the message schedule. */
  function Schedule(p: seq<Byte>, start: nat, t: nat): (w: seq<Word>)
    requires t <= 64 && start + 64 <= |p|
    ensures |w| == t
  {
    if t == 0 then []
    else
      var before := Schedule(p, start, t - 1);
      before + [NextWord(p, start, before)]
  }

  /** The eight working variables. */
  datatype State = State(a: Word, b: Word, c: Word, d: Word, e: Word, f: Word, g: Word, h: Word)

  function Round(s: State, k: Word, w: Word): State {
    var t1 := Add(Add(Add(Add(s.h, BigSigma1(s.e)), Ch(s.e, s.f, s.g)), k), w);
    var t2 := Add(BigSigma0(s.a), Maj(s.a, s.b, s.c));
    State(Add(t1, t2), s.a, s.b, s.c, Add(s.d, t1), s.e, s.f, s.g)
  }

  /** The working variables after as many rounds as there are words. */
  function Rounds(s: State, w: seq<Word>): State
    requires |w| <= 64
  {
    if w == [] then s
    else
      var t := |w| - 1;
      Round(Rounds(s, w[..t]), K[t], w[t])
  }

  function Plus(x: State, y: State): State {
    State(Add(x.a, y.a), Add(x.b, y.b), Add(x.c, y.c), Add(x.d, y.d),
          Add(x.e, y.e), Add(x.f, y.f), Add(x.g, y.g), Add(x.h, y.h))
  }

  /** The hash value after one more block. */
  function Compress(h: State, p: seq<Byte>, start: nat): State
    requires start + 64 <= |p|
  {
    Plus(h, Rounds(h, Schedule(p, start, |K|)))
  }

  function Initial(): State {
    State(H0[0], H0[1], H0[2], H0[3], H0[4], H0[5], H0[6], H0[7])
  }

  /** The hash value after the first n blocks. */
  function HashValue(p: seq<Byte>, n: nat): State
    requires 64 * n <= |p|
  {
    if n == 0 then Initial() else Compress(HashValue(p, n - 1), p, 64 * (n - 1))
  }

  function WordBytes(w: Word): (r: seq<Byte>)
    ensures |r| == 4
  {
    [Shr(24, w) % 256, Shr(16, w) % 256, Shr(8, w) % 256, w % 256]
  }

  /** Words as bytes, one after the other. */
  function Concat(words: seq<Word>): (r: seq<Byte>)
    ensures |r| == 4 * |words|
  {
    if words == [] then [] else Concat(words[..|words| - 1]) + WordBytes(words[|words| - 1])
  }

  function Digest(h: State): (r: seq<Byte>)
    ensures |r| == 32
  {
    Concat([h.a, h.b, h.c, h.d, h.e, h.f, h.g, h.h])
  }

  /** The number of 64-byte blocks of the padded message. */
  function Blocks(m: seq<Byte>): (n: nat)
    ensures 64 * n == |Pad(m)|
  {
    |Pad(m)| / 64
  }

  function Sha256(m: seq<Byte>): (r: seq<Byte>) {
    Digest(HashValue(Pad(m), Blocks(m)))
  }
}
