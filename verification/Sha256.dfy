/** sha256_to_string of include/hash_table.h: padding into a zeroed buffer and the chunk loop on
    the word array w and the hash words h, proved to compute the digest of FIPS 180-4. */
module Sha256 {
  import opened Quotients
  import opened Fips180
  import opened WordOps

  const TWO_64 := 0x1_0000_0000_0000_0000

  function PaddedLength(len: nat): (r: nat) {
    ((len + 8) / 64 + 1) * 64
  }

  /** It is the least multiple of 64 with room for the message, the byte 0x80 and the length. */
  lemma PaddedLengthIsLeast(len: nat, n: nat)
    ensures PaddedLength(len) % 64 == 0 && PaddedLength(len) >= len + 9
    ensures n % 64 == 0 && n >= len + 9 ==> PaddedLength(len) <= n
  {
  }

  /** The buffer as the code fills it; the bit length is a 64-bit number. */
  function Padded(m: seq<Byte>): (r: seq<Byte>)
    ensures |r| == PaddedLength(|m|)
  {
    m + [0x80] + Zeros(PaddedLength(|m|) - |m| - 9) + BigEndian((8 * |m|) % TWO_64, 8)
  }

  /** For every message shorter than 2^61 bytes it is the padding of section 5.1.1. */
  lemma PaddedIsPad(m: seq<Byte>)
    requires 8 * |m| < TWO_64
    ensures Padded(m) == Pad(m)
  {
    var l := 8 * |m|;
    assert ZeroBits(l) / 8 == PaddedLength(|m|) - |m| - 9;
  }

  method PadMessage(m: seq<Byte>) returns (padded: array<Byte>)
    ensures fresh(padded) && padded[..] == Padded(m)
  {
    var len := |m|;
    var paddedLen := ((len + 8) / 64 + 1) * 64;
    padded := new Byte[paddedLen](i => 0);
    for i := 0 to len
      invariant padded[..i] == m[..i]
      invariant forall j :: i <= j < paddedLen ==> padded[j] == 0
    {
      padded[i] := m[i];
    }
    padded[len] := 0x80;
    var bitLen := (len * 8) % TWO_64;
    for i := 0 to 8
      invariant padded[..len] == m[..len] && padded[len] == 0x80
      invariant forall j :: len < j < paddedLen - i ==> padded[j] == 0
      invariant forall j :: 0 <= j < i ==> padded[paddedLen - 1 - j] == ByteOf(bitLen, j)
    {
      padded[paddedLen - 1 - i] := ByteOf(bitLen, i);
    }
    assert forall j :: paddedLen - 8 <= j < paddedLen ==> padded[j] == ByteOf(bitLen, paddedLen - 1 - j) by {
      forall j | paddedLen - 8 <= j < paddedLen ensures padded[j] == ByteOf(bitLen, paddedLen - 1 - j) {
        assert padded[paddedLen - 1 - (paddedLen - 1 - j)] == ByteOf(bitLen, paddedLen - 1 - j);
      }
    }
    assert padded[..] == Padded(m);
  }

  /** w for the block that starts at chunk. */
  method FillSchedule(padded: array<Byte>, chunk: nat) returns (w: array<Word>)
    requires chunk + 64 <= padded.Length
    ensures fresh(w) && w[..] == Schedule(padded[..], chunk, |K|)
  {
    hide SmallSigma0, SmallSigma1, Add, BlockWord;
    w := new Word[64](i => 0);
    ghost var p := padded[..];
    FirstWords(padded, chunk, w);
    for i := 16 to 64
      invariant padded[..] == p && w[..i] == Schedule(p, chunk, i)
    {
      w[i] := ExtendWord(w[i - 16], w[i - 15], w[i - 7], w[i - 2]);
    }
    assert w[..64] == w[..];
  }

  method FirstWords(padded: array<Byte>, chunk: nat, w: array<Word>)
    requires chunk + 64 <= padded.Length && w.Length == 64
    modifies w
    ensures w[..16] == Schedule(padded[..], chunk, 16)
  {
    ghost var p := padded[..];
    for i := 0 to 16
      invariant padded[..] == p && w[..i] == Schedule(p, chunk, i)
    {
      var b := chunk + i * 4;
      w[i] := FourBytes(padded[b], padded[b + 1], padded[b + 2], padded[b + 3]);
    }
  }

  /** Four bytes shifted into place. */
  method FourBytes(b0: Byte, b1: Byte, b2: Byte, b3: Byte) returns (r: Word)
    ensures r == FromBytes(b0, b1, b2, b3)
  {
    r := Or(Or(Or(Shl(24, b0), Shl(16, b1)), Shl(8, b2)), b3);
    ShiftByteIn(b0, b1, b2, b3);
  }

  method ExtendWord(w16: Word, w15: Word, w7: Word, w2: Word) returns (r: Word)
    ensures r == Add(Add(Add(SmallSigma1(w2), w7), SmallSigma0(w15)), w16)
  {
    var s0 := Xor(Xor(Or(Shr(7, w15), Shl(32 - 7, w15)), Or(Shr(18, w15), Shl(32 - 18, w15))), Shr(3, w15));
    var s1 := Xor(Xor(Or(Shr(17, w2), Shl(32 - 17, w2)), Or(Shr(19, w2), Shl(32 - 19, w2))), Shr(10, w2));
    r := Add(Add(Add(w16, s0), w7), s1);
    AddOrder(w16, s0, w7, s1);
  }

  lemma AddOrder(a: Word, b: Word, c: Word, d: Word)
    ensures Add(Add(Add(a, b), c), d) == Add(Add(Add(d, c), b), a)
  {
    AddFour(a, b, c, d);
    AddFour(d, c, b, a);
  }

  lemma LowSum(x: nat, y: nat)
    ensures Low32(Low32(x) + y) == Low32(x + y)
  {
    hide Low32;
    Low32IsModulo(x);
    Low32IsModulo(x + y);
    Low32IsModulo(Low32(x) + y);
    var s := x % TWO_32 + y;
    RemainderIs(x + y, TWO_32, x / TWO_32 + s / TWO_32, s % TWO_32);
  }

  lemma AddFour(a: Word, b: Word, c: Word, d: Word)
    ensures Add(Add(Add(a, b), c), d) == Low32(a + b + c + d)
  {
    LowSum(a + b, c);
    LowSum(a + b + c, d);
  }

  // ---------------------------------------------------------------- shifting bytes into a word

  lemma OrBytes(high: nat, b: Byte, n: nat)
    requires b * Power2(n) < Power2(n + 8)
    ensures Or(high * Power2(n + 8), b * Power2(n)) == high * Power2(n + 8) + b * Power2(n)
  {
    OrDisjoint(high, b * Power2(n), n + 8);
  }

  lemma ShiftByteIn(b0: Byte, b1: Byte, b2: Byte, b3: Byte)
    ensures Or(Or(Or(Shl(24, b0), Shl(16, b1)), Shl(8, b2)), b3) == FromBytes(b0, b1, b2, b3)
  {
    hide Or, Shl;
    Powers();
    ShlFits(24, b0);
    ShlFits(16, b1);
    ShlFits(8, b2);
    var x := b0 * 256 + b1;
    OrBytes(b0, b1, 16);
    assert b0 * Power2(24) + b1 * Power2(16) == x * Power2(16);
    OrBytes(x, b2, 8);
    assert x * Power2(16) + b2 * Power2(8) == (x * 256 + b2) * Power2(8);
    OrDisjoint(x * 256 + b2, b3, 8);
  }

  // ---------------------------------------------------------------- the rounds

  /** The 64 rounds on the working variables, as assignments in the order of the code. */
  method RunRounds(s: State, w: array<Word>) returns (r: State)
    requires w.Length == 64
    ensures r == Rounds(s, w[..])
  {
    hide BigSigma0, BigSigma1, Ch, Maj, Add;
    var a, b, c, d, e, f, g, h := s.a, s.b, s.c, s.d, s.e, s.f, s.g, s.h;
    for i := 0 to 64
      invariant State(a, b, c, d, e, f, g, h) == Rounds(s, w[..i])
    {
      var temp1 := FirstTemp(e, f, g, h, K[i], w[i]);
      var temp2 := SecondTemp(a, b, c);
      h := g;
      g := f;
      f := e;
      e := Add(d, temp1);
      d := c;
      c := b;
      b := a;
      a := Add(temp1, temp2);
      assert w[..i + 1][..i] == w[..i];
    }
    assert w[..64] == w[..];
    r := State(a, b, c, d, e, f, g, h);
  }

  method FirstTemp(e: Word, f: Word, g: Word, h: Word, k: Word, w: Word) returns (temp1: Word)
    ensures temp1 == Add(Add(Add(Add(h, BigSigma1(e)), Ch(e, f, g)), k), w)
  {
    var s1 := Xor(Xor(Or(Shr(6, e), Shl(32 - 6, e)), Or(Shr(11, e), Shl(32 - 11, e))), Or(Shr(25, e), Shl(32 - 25, e)));
    var ch := Xor(And(e, f), And(Not(e), g));
    temp1 := Add(Add(Add(Add(h, s1), ch), k), w);
  }

  method SecondTemp(a: Word, b: Word, c: Word) returns (temp2: Word)
    ensures temp2 == Add(BigSigma0(a), Maj(a, b, c))
  {
    var s0 := Xor(Xor(Or(Shr(2, a), Shl(32 - 2, a)), Or(Shr(13, a), Shl(32 - 13, a))), Or(Shr(22, a), Shl(32 - 22, a)));
    var maj := Xor(Xor(And(a, b), And(a, c)), And(b, c));
    temp2 := Add(s0, maj);
  }

  function Words(h: seq<Word>): State
    requires |h| == 8
  {
    State(h[0], h[1], h[2], h[3], h[4], h[5], h[6], h[7])
  }

  method AddWords(h: array<Word>, s: State)
    requires h.Length == 8
    modifies h
    ensures Words(h[..]) == Plus(Words(old(h[..])), s)
  {
    h[0], h[1], h[2], h[3] := Add(h[0], s.a), Add(h[1], s.b), Add(h[2], s.c), Add(h[3], s.d);
    h[4], h[5], h[6], h[7] := Add(h[4], s.e), Add(h[5], s.f), Add(h[6], s.g), Add(h[7], s.h);
  }

  method OneChunk(padded: array<Byte>, chunk: nat, h: array<Word>)
    requires chunk + 64 <= padded.Length && h.Length == 8
    modifies h
    ensures Words(h[..]) == Compress(Words(old(h[..])), padded[..], chunk)
  {
    var w := FillSchedule(padded, chunk);
    var s := RunRounds(Words(h[..]), w);
    AddWords(h, s);
  }

  method InitialWords() returns (h: array<Word>)
    ensures fresh(h) && h.Length == 8 && Words(h[..]) == Initial()
  {
    h := new Word[8](i requires 0 <= i < 8 => H0[i]);
  }

  method NextChunk(padded: array<Byte>, chunk: nat, h: array<Word>, ghost n: nat)
    requires h.Length == 8 && chunk == 64 * n && chunk + 64 <= padded.Length
    requires Words(h[..]) == HashValue(padded[..], n)
    modifies h
    ensures Words(h[..]) == HashValue(padded[..], n + 1)
  {
    hide Compress;
    OneChunk(padded, chunk, h);
  }

  /** The chunk loop over the padded message. */
  method HashChunks(padded: array<Byte>, ghost p: seq<Byte>, ghost blocks: nat) returns (h: array<Word>)
    requires padded[..] == p && |p| == 64 * blocks
    ensures fresh(h) && h.Length == 8
    ensures Words(h[..]) == HashValue(p, blocks)
  {
    hide Compress;
    h := InitialWords();
    var chunk := 0;
    ghost var n := 0;
    while chunk < padded.Length
      invariant n <= blocks && chunk == 64 * n
      invariant fresh(h) && h.Length == 8 && padded[..] == p
      invariant Words(h[..]) == HashValue(p, n)
      decreases blocks - n
    {
      NextChunk(padded, chunk, h, n);
      chunk := chunk + 64;
      n := n + 1;
    }
  }

  /** The digest of every message of less than 2^61 bytes is that of FIPS 180-4. */
  method Sha256ToString(m: seq<Byte>) returns (output: seq<Byte>)
    requires 8 * |m| < TWO_64
    ensures output == Fips180.Sha256(m)
    ensures forall i {:trigger WordAt(HashValue(Pad(m), Blocks(m)), i)} :: 0 <= i < 8 ==>
      Value(output[4 * i..4 * i + 4]) == WordAt(HashValue(Pad(m), Blocks(m)), i)
  {
    var padded := PadMessage(m);
    PaddedIsPad(m);
    var h := HashChunks(padded, Pad(m), Blocks(m));
    output := WriteDigest(h);
    HashWordsFit(Pad(m), Blocks(m));
    forall i {:trigger WordAt(HashValue(Pad(m), Blocks(m)), i)} | 0 <= i < 8
      ensures Value(output[4 * i..4 * i + 4]) == WordAt(HashValue(Pad(m), Blocks(m)), i)
    {
      DigestSpells(HashValue(Pad(m), Blocks(m)), i);
    }
  }

  method WriteDigest(h: array<Word>) returns (output: seq<Byte>)
    requires h.Length == 8
    ensures output == Digest(Words(h[..]))
    ensures forall i {:trigger h[i]} :: 0 <= i < 8 && h[i] < TWO_32 ==> Value(output[4 * i..4 * i + 4]) == h[i]
  {
    hide Value, WordBytes;
    output := [];
    ghost var words := h[..];
    for i := 0 to 8
      invariant output == Concat(words[..i])
    {
      assert words[..i + 1][..i] == words[..i];
      output := output + WordBytes(h[i]);
    }
    assert words[..8] == words == [words[0], words[1], words[2], words[3], words[4], words[5], words[6], words[7]];
    forall i | 0 <= i < 8 && h[i] < TWO_32 ensures Value(output[4 * i..4 * i + 4]) == h[i] {
      ConcatAt(words, i);
      WordBytesSpell(words[i]);
    }
  }

  // ---------------------------------------------------------------- padding loses nothing

  function Power256(i: nat): (r: nat)
    ensures r > 0
  {
    if i == 0 then 1 else 256 * Power256(i - 1)
  }

  lemma {:induction false} ValueOfBigEndian(x: nat, n: nat)
    ensures Value(BigEndian(x, n)) == x % Power256(n)
  {
    if n > 0 {
      var b := BigEndian(x, n);
      var high := BigEndian(x / 256, n - 1);
      forall i | 0 <= i < n - 1 ensures b[i] == high[i] {
        assert ByteOf(x, n - 1 - i) == ByteOf(x / 256, n - 2 - i);
      }
      assert b[..n - 1] == high && b[n - 1] == ByteOf(x, 0);
      ValueOfBigEndian(x / 256, n - 1);
      ModSplit(x, Power256(n - 1));
    }
  }

  lemma ModSplit(x: nat, p: nat)
    requires p > 0
    ensures 256 * ((x / 256) % p) + x % 256 == x % (256 * p)
  {
    var q, r := (x / 256) / p, (x / 256) % p;
    assert x == (q * p + r) * 256 + x % 256;
    assert x == q * (256 * p) + (256 * r + x % 256);
    QuotientIs(x, 256 * p, q, 256 * r + x % 256);
  }

  lemma EightBytes()
    ensures Power256(8) == TWO_64
  {
    assert Power256(4) == 0x1_0000_0000;
  }

  /** The last eight bytes tell the length, and the message stands in front. */
  lemma PadParts(m: seq<Byte>)
    requires 8 * |m| < TWO_64
    ensures |Pad(m)| >= |m| + 9
    ensures Value(Pad(m)[|Pad(m)| - 8..]) == 8 * |m| && Pad(m)[..|m|] == m
  {
    assert Pad(m)[|Pad(m)| - 8..] == BigEndian(8 * |m|, 8);
    ValueOfBigEndian(8 * |m|, 8);
    EightBytes();
  }

  /** Different messages are padded differently. */
  lemma PaddingIsInjective(m: seq<Byte>, m': seq<Byte>)
    requires 8 * |m| < TWO_64 && 8 * |m'| < TWO_64
    requires Pad(m) == Pad(m')
    ensures m == m'
  {
    PadParts(m);
    PadParts(m');
  }
}
