/** The constants of SHA-256 in include/hash_table.h: they are what sections 4.2.2 and 5.3.3 of
    FIPS 180-4 say, the first 32 bits behind the point of roots of the first primes. */
module RoundConstants {
  import opened Quotients
  import opened Coprimes
  import opened Fips180

  const TWO_64 := 0x1_0000_0000_0000_0000
  const TWO_96 := 0x1_0000_0000_0000_0000_0000_0000

  const PRIMES: seq<nat> :=
    [2, 3, 5, 7, 11, 13, 17, 19] +
    [23, 29, 31, 37, 41, 43, 47, 53] +
    [59, 61, 67, 71, 73, 79, 83, 89] +
    [97, 101, 103, 107, 109, 113, 127, 131] +
    [137, 139, 149, 151, 157, 163, 167, 173] +
    [179, 181, 191, 193, 197, 199, 211, 223] +
    [227, 229, 233, 239, 241, 251, 257, 263] +
    [269, 271, 277, 281, 283, 293, 307, 311]

  function Cube(x: nat): (r: nat) {
    x * x * x
  }

  /** The cube root of p, cut to 32 bits behind the point, has c in front and fraction behind it. */
  predicate IsCubeRoot(c: nat, fraction: nat, p: nat) {
    fraction < TWO_32 && Cube(c * TWO_32 + fraction) <= p * TWO_96 < Cube(c * TWO_32 + fraction + 1)
  }

  predicate IsSquareRoot(c: nat, fraction: nat, p: nat) {
    var x := c * TWO_32 + fraction;
    fraction < TWO_32 && x * x <= p * TWO_64 < (x + 1) * (x + 1)
  }

  ghost predicate FromCubeRoot(t: nat)
    requires t < 64
  {
    exists c: nat :: IsCubeRoot(c, K[t], PRIMES[t])
  }

  ghost predicate FromSquareRoot(t: nat)
    requires t < 8
  {
    exists c: nat :: IsSquareRoot(c, H0[t], PRIMES[t])
  }

  lemma RootsFrom0(t: nat)
    requires 0 <= t < 8
    ensures FromCubeRoot(t)
  {
    assert K[0] == 0x428a2f98 && PRIMES[0] == 2 && IsCubeRoot(1, 0x428a2f98, 2);
    assert K[1] == 0x71374491 && PRIMES[1] == 3 && IsCubeRoot(1, 0x71374491, 3);
    assert K[2] == 0xb5c0fbcf && PRIMES[2] == 5 && IsCubeRoot(1, 0xb5c0fbcf, 5);
    assert K[3] == 0xe9b5dba5 && PRIMES[3] == 7 && IsCubeRoot(1, 0xe9b5dba5, 7);
    assert K[4] == 0x3956c25b && PRIMES[4] == 11 && IsCubeRoot(2, 0x3956c25b, 11);
    assert K[5] == 0x59f111f1 && PRIMES[5] == 13 && IsCubeRoot(2, 0x59f111f1, 13);
    assert K[6] == 0x923f82a4 && PRIMES[6] == 17 && IsCubeRoot(2, 0x923f82a4, 17);
    assert K[7] == 0xab1c5ed5 && PRIMES[7] == 19 && IsCubeRoot(2, 0xab1c5ed5, 19);
  }

  lemma RootsFrom8(t: nat)
    requires 8 <= t < 16
    ensures FromCubeRoot(t)
  {
    assert K[8] == 0xd807aa98 && PRIMES[8] == 23 && IsCubeRoot(2, 0xd807aa98, 23);
    assert K[9] == 0x12835b01 && PRIMES[9] == 29 && IsCubeRoot(3, 0x12835b01, 29);
    assert K[10] == 0x243185be && PRIMES[10] == 31 && IsCubeRoot(3, 0x243185be, 31);
    assert K[11] == 0x550c7dc3 && PRIMES[11] == 37 && IsCubeRoot(3, 0x550c7dc3, 37);
    assert K[12] == 0x72be5d74 && PRIMES[12] == 41 && IsCubeRoot(3, 0x72be5d74, 41);
    assert K[13] == 0x80deb1fe && PRIMES[13] == 43 && IsCubeRoot(3, 0x80deb1fe, 43);
    assert K[14] == 0x9bdc06a7 && PRIMES[14] == 47 && IsCubeRoot(3, 0x9bdc06a7, 47);
    assert K[15] == 0xc19bf174 && PRIMES[15] == 53 && IsCubeRoot(3, 0xc19bf174, 53);
  }

  lemma RootsFrom16(t: nat)
    requires 16 <= t < 24
    ensures FromCubeRoot(t)
  {
    assert K[16] == 0xe49b69c1 && PRIMES[16] == 59 && IsCubeRoot(3, 0xe49b69c1, 59);
    assert K[17] == 0xefbe4786 && PRIMES[17] == 61 && IsCubeRoot(3, 0xefbe4786, 61);
    assert K[18] == 0x0fc19dc6 && PRIMES[18] == 67 && IsCubeRoot(4, 0x0fc19dc6, 67);
    assert K[19] == 0x240ca1cc && PRIMES[19] == 71 && IsCubeRoot(4, 0x240ca1cc, 71);
    assert K[20] == 0x2de92c6f && PRIMES[20] == 73 && IsCubeRoot(4, 0x2de92c6f, 73);
    assert K[21] == 0x4a7484aa && PRIMES[21] == 79 && IsCubeRoot(4, 0x4a7484aa, 79);
    assert K[22] == 0x5cb0a9dc && PRIMES[22] == 83 && IsCubeRoot(4, 0x5cb0a9dc, 83);
    assert K[23] == 0x76f988da && PRIMES[23] == 89 && IsCubeRoot(4, 0x76f988da, 89);
  }

  lemma RootsFrom24(t: nat)
    requires 24 <= t < 32
    ensures FromCubeRoot(t)
  {
    assert K[24] == 0x983e5152 && PRIMES[24] == 97 && IsCubeRoot(4, 0x983e5152, 97);
    assert K[25] == 0xa831c66d && PRIMES[25] == 101 && IsCubeRoot(4, 0xa831c66d, 101);
    assert K[26] == 0xb00327c8 && PRIMES[26] == 103 && IsCubeRoot(4, 0xb00327c8, 103);
    assert K[27] == 0xbf597fc7 && PRIMES[27] == 107 && IsCubeRoot(4, 0xbf597fc7, 107);
    assert K[28] == 0xc6e00bf3 && PRIMES[28] == 109 && IsCubeRoot(4, 0xc6e00bf3, 109);
    assert K[29] == 0xd5a79147 && PRIMES[29] == 113 && IsCubeRoot(4, 0xd5a79147, 113);
    assert K[30] == 0x06ca6351 && PRIMES[30] == 127 && IsCubeRoot(5, 0x06ca6351, 127);
    assert K[31] == 0x14292967 && PRIMES[31] == 131 && IsCubeRoot(5, 0x14292967, 131);
  }

  lemma RootsFrom32(t: nat)
    requires 32 <= t < 40
    ensures FromCubeRoot(t)
  {
    assert K[32] == 0x27b70a85 && PRIMES[32] == 137 && IsCubeRoot(5, 0x27b70a85, 137);
    assert K[33] == 0x2e1b2138 && PRIMES[33] == 139 && IsCubeRoot(5, 0x2e1b2138, 139);
    assert K[34] == 0x4d2c6dfc && PRIMES[34] == 149 && IsCubeRoot(5, 0x4d2c6dfc, 149);
    assert K[35] == 0x53380d13 && PRIMES[35] == 151 && IsCubeRoot(5, 0x53380d13, 151);
    assert K[36] == 0x650a7354 && PRIMES[36] == 157 && IsCubeRoot(5, 0x650a7354, 157);
    assert K[37] == 0x766a0abb && PRIMES[37] == 163 && IsCubeRoot(5, 0x766a0abb, 163);
    assert K[38] == 0x81c2c92e && PRIMES[38] == 167 && IsCubeRoot(5, 0x81c2c92e, 167);
    assert K[39] == 0x92722c85 && PRIMES[39] == 173 && IsCubeRoot(5, 0x92722c85, 173);
  }

  lemma RootsFrom40(t: nat)
    requires 40 <= t < 48
    ensures FromCubeRoot(t)
  {
    assert K[40] == 0xa2bfe8a1 && PRIMES[40] == 179 && IsCubeRoot(5, 0xa2bfe8a1, 179);
    assert K[41] == 0xa81a664b && PRIMES[41] == 181 && IsCubeRoot(5, 0xa81a664b, 181);
    assert K[42] == 0xc24b8b70 && PRIMES[42] == 191 && IsCubeRoot(5, 0xc24b8b70, 191);
    assert K[43] == 0xc76c51a3 && PRIMES[43] == 193 && IsCubeRoot(5, 0xc76c51a3, 193);
    assert K[44] == 0xd192e819 && PRIMES[44] == 197 && IsCubeRoot(5, 0xd192e819, 197);
    assert K[45] == 0xd6990624 && PRIMES[45] == 199 && IsCubeRoot(5, 0xd6990624, 199);
    assert K[46] == 0xf40e3585 && PRIMES[46] == 211 && IsCubeRoot(5, 0xf40e3585, 211);
    assert K[47] == 0x106aa070 && PRIMES[47] == 223 && IsCubeRoot(6, 0x106aa070, 223);
  }

  lemma RootsFrom48(t: nat)
    requires 48 <= t < 56
    ensures FromCubeRoot(t)
  {
    assert K[48] == 0x19a4c116 && PRIMES[48] == 227 && IsCubeRoot(6, 0x19a4c116, 227);
    assert K[49] == 0x1e376c08 && PRIMES[49] == 229 && IsCubeRoot(6, 0x1e376c08, 229);
    assert K[50] == 0x2748774c && PRIMES[50] == 233 && IsCubeRoot(6, 0x2748774c, 233);
    assert K[51] == 0x34b0bcb5 && PRIMES[51] == 239 && IsCubeRoot(6, 0x34b0bcb5, 239);
    assert K[52] == 0x391c0cb3 && PRIMES[52] == 241 && IsCubeRoot(6, 0x391c0cb3, 241);
    assert K[53] == 0x4ed8aa4a && PRIMES[53] == 251 && IsCubeRoot(6, 0x4ed8aa4a, 251);
    assert K[54] == 0x5b9cca4f && PRIMES[54] == 257 && IsCubeRoot(6, 0x5b9cca4f, 257);
    assert K[55] == 0x682e6ff3 && PRIMES[55] == 263 && IsCubeRoot(6, 0x682e6ff3, 263);
  }

  lemma RootsFrom56(t: nat)
    requires 56 <= t < 64
    ensures FromCubeRoot(t)
  {
    assert K[56] == 0x748f82ee && PRIMES[56] == 269 && IsCubeRoot(6, 0x748f82ee, 269);
    assert K[57] == 0x78a5636f && PRIMES[57] == 271 && IsCubeRoot(6, 0x78a5636f, 271);
    assert K[58] == 0x84c87814 && PRIMES[58] == 277 && IsCubeRoot(6, 0x84c87814, 277);
    assert K[59] == 0x8cc70208 && PRIMES[59] == 281 && IsCubeRoot(6, 0x8cc70208, 281);
    assert K[60] == 0x90befffa && PRIMES[60] == 283 && IsCubeRoot(6, 0x90befffa, 283);
    assert K[61] == 0xa4506ceb && PRIMES[61] == 293 && IsCubeRoot(6, 0xa4506ceb, 293);
    assert K[62] == 0xbef9a3f7 && PRIMES[62] == 307 && IsCubeRoot(6, 0xbef9a3f7, 307);
    assert K[63] == 0xc67178f2 && PRIMES[63] == 311 && IsCubeRoot(6, 0xc67178f2, 311);
  }

  /** Each round constant is 32 bits of the cube root of its prime. */
  lemma RoundConstantsAreRoots(t: nat)
    requires t < 64
    ensures FromCubeRoot(t)
  {
    hide FromCubeRoot;
    if t < 8 {
      RootsFrom0(t);
    } else if t < 16 {
      RootsFrom8(t);
    } else if t < 24 {
      RootsFrom16(t);
    } else if t < 32 {
      RootsFrom24(t);
    } else if t < 40 {
      RootsFrom32(t);
    } else if t < 48 {
      RootsFrom40(t);
    } else if t < 56 {
      RootsFrom48(t);
    } else {
      RootsFrom56(t);
    }
  }

  /** Each initial hash word is 32 bits of the square root of its prime. */
  lemma InitialWordsAreRoots(t: nat)
    requires t < 8
    ensures FromSquareRoot(t)
  {
    assert H0[0] == 0x6a09e667 && PRIMES[0] == 2 && IsSquareRoot(1, 0x6a09e667, 2);
    assert H0[1] == 0xbb67ae85 && PRIMES[1] == 3 && IsSquareRoot(1, 0xbb67ae85, 3);
    assert H0[2] == 0x3c6ef372 && PRIMES[2] == 5 && IsSquareRoot(2, 0x3c6ef372, 5);
    assert H0[3] == 0xa54ff53a && PRIMES[3] == 7 && IsSquareRoot(2, 0xa54ff53a, 7);
    assert H0[4] == 0x510e527f && PRIMES[4] == 11 && IsSquareRoot(3, 0x510e527f, 11);
    assert H0[5] == 0x9b05688c && PRIMES[5] == 13 && IsSquareRoot(3, 0x9b05688c, 13);
    assert H0[6] == 0x1f83d9ab && PRIMES[6] == 17 && IsSquareRoot(4, 0x1f83d9ab, 17);
    assert H0[7] == 0x5be0cd19 && PRIMES[7] == 19 && IsSquareRoot(4, 0x5be0cd19, 19);
  }

  // ---------------------------------------------------------------- the first 64 primes

  /** Not divisible by a prime below 19, unless it is that prime. */
  predicate Sieved(n: nat) {
    && n >= 2
    && (n == 2 || n % 2 != 0) && (n == 3 || n % 3 != 0) && (n == 5 || n % 5 != 0) && (n == 7 || n % 7 != 0)
    && (n == 11 || n % 11 != 0) && (n == 13 || n % 13 != 0) && (n == 17 || n % 17 != 0)
  }

  lemma MultipleOf(n: nat, p: nat, j: nat)
    requires p in {2, 3, 5, 7, 11, 13, 17} && j >= 2 && n == p * j
    ensures !Sieved(n)
  {
    RemainderIs(n, p, j, 0);
    assert p * j >= p * 2;
  }

  lemma SmallFactor(n: nat, m: nat, k: nat)
    requires 2 <= m <= 18 && k >= 2 && n == m * k
    ensures !Sieved(n)
  {
    hide Sieved;
    var p := SmallPrimeOf(m);
    var q := m / p;
    assert p * (q * k) == (p * q) * k;
    assert q * k >= k;
    MultipleOf(n, p, q * k);
  }

  lemma SmallPrimeOf(m: nat) returns (p: nat)
    requires 2 <= m <= 18
    ensures p in {2, 3, 5, 7, 11, 13, 17} && m / p >= 1 && m == p * (m / p)
  {
    p := if m % 2 == 0 then 2 else if m % 3 == 0 then 3 else if m % 5 == 0 then 5 else m;
  }

  /** Below 19 * 19 the sieve lets exactly the primes through. */
  lemma SievedIsPrime(n: nat)
    requires n < 361
    ensures Sieved(n) <==> Prime(n)
  {
    hide Sieved;
    if Sieved(n) {
      AtLeastTwo(n);
      forall d: nat | 1 < d < n ensures !Divides(d, n) {
        NoFactor(n, d);
      }
    } else if n >= 2 {
      var p := SmallDivisor(n);
      assert Divides(p, n);
    }
  }

  lemma AtLeastTwo(n: nat)
    requires Sieved(n)
    ensures n >= 2
  {
  }

  lemma SmallDivisor(n: nat) returns (p: nat)
    requires n >= 2 && !Sieved(n)
    ensures 1 < p < n && n % p == 0
  {
    p :| p in {2, 3, 5, 7, 11, 13, 17} && n != p && n % p == 0;
  }

  /** The quotient is a proper factor too, and not both are above 18. */
  lemma Quotient(n: nat, d: nat)
    requires n < 361 && 1 < d < n && n % d == 0
    ensures n == d * (n / d) && n / d >= 2 && (d <= 18 || n / d <= 18)
  {
    var k := n / d;
    assert n == d * k;
    if d >= 19 && k >= 19 {
      Grows(d, k);
    }
  }

  lemma Grows(d: nat, k: nat)
    requires d >= 19 && k >= 19
    ensures d * k >= 361
  {
    assert d * k >= 19 * k;
  }

  lemma NoFactor(n: nat, d: nat)
    requires n < 361 && Sieved(n) && 1 < d < n
    ensures !Divides(d, n)
  {
    hide Sieved;
    var k := n / d;
    if n % d == 0 {
      Quotient(n, d);
      if d <= 18 {
        SmallFactor(n, d, k);
      } else {
        SmallFactor(n, k, d);
      }
    }
  }

  /** The sieve stops all numbers from n on and below q. */
  predicate NoneFrom(n: nat, q: nat)
    decreases q - n
  {
    n >= q || (!Sieved(n) && NoneFrom(n + 1, q))
  }

  lemma {:induction false} NoneBetween(p: nat, q: nat, n: nat)
    requires NoneFrom(p, q) && p <= n < q
    ensures !Sieved(n)
    decreases q - p
  {
    hide Sieved;
    if p < n {
      NoneBetween(p + 1, q, n);
    }
  }

  /** q is the next number after p that the sieve lets through. */
  predicate NextSieved(p: nat, q: nat) {
    p < q && Sieved(q) && NoneFrom(p + 1, q)
  }

  ghost predicate NextPrime(p: nat, q: nat) {
    p < q && Prime(q) && forall n: nat :: p < n < q ==> !Prime(n)
  }

  lemma NextSievedIsPrime(p: nat, q: nat)
    requires NextSieved(p, q) && q < 361
    ensures NextPrime(p, q)
  {
    hide Sieved, Prime;
    SievedIsPrime(q);
    forall n: nat | p < n < q ensures !Prime(n) {
      NoneBetween(p + 1, q, n);
      SievedIsPrime(n);
    }
  }

  lemma SievedFrom0()
    ensures NextSieved(2, 3)
    ensures NextSieved(3, 5)
    ensures NextSieved(5, 7)
    ensures NextSieved(7, 11)
    ensures NextSieved(11, 13)
    ensures NextSieved(13, 17)
    ensures NextSieved(17, 19)
    ensures NextSieved(19, 23)
  {
  }

  lemma PrimesFrom0(t: nat)
    requires 0 <= t < 8
    ensures NextSieved(PRIMES[t], PRIMES[t + 1]) && PRIMES[t + 1] <= 311
  {
    hide NextSieved;
    SievedFrom0();
    assert PRIMES[0] == 2 && PRIMES[1] == 3 && PRIMES[2] == 5;
    assert PRIMES[3] == 7 && PRIMES[4] == 11 && PRIMES[5] == 13;
    assert PRIMES[6] == 17 && PRIMES[7] == 19 && PRIMES[8] == 23;
  }

  lemma SievedFrom8()
    ensures NextSieved(23, 29)
    ensures NextSieved(29, 31)
    ensures NextSieved(31, 37)
    ensures NextSieved(37, 41)
    ensures NextSieved(41, 43)
    ensures NextSieved(43, 47)
    ensures NextSieved(47, 53)
    ensures NextSieved(53, 59)
  {
  }

  lemma PrimesFrom8(t: nat)
    requires 8 <= t < 16
    ensures NextSieved(PRIMES[t], PRIMES[t + 1]) && PRIMES[t + 1] <= 311
  {
    hide NextSieved;
    SievedFrom8();
    assert PRIMES[8] == 23 && PRIMES[9] == 29 && PRIMES[10] == 31;
    assert PRIMES[11] == 37 && PRIMES[12] == 41 && PRIMES[13] == 43;
    assert PRIMES[14] == 47 && PRIMES[15] == 53 && PRIMES[16] == 59;
  }

  lemma SievedFrom16()
    ensures NextSieved(59, 61)
    ensures NextSieved(61, 67)
    ensures NextSieved(67, 71)
    ensures NextSieved(71, 73)
    ensures NextSieved(73, 79)
    ensures NextSieved(79, 83)
    ensures NextSieved(83, 89)
    ensures NextSieved(89, 97)
  {
  }

  lemma PrimesFrom16(t: nat)
    requires 16 <= t < 24
    ensures NextSieved(PRIMES[t], PRIMES[t + 1]) && PRIMES[t + 1] <= 311
  {
    hide NextSieved;
    SievedFrom16();
    assert PRIMES[16] == 59 && PRIMES[17] == 61 && PRIMES[18] == 67;
    assert PRIMES[19] == 71 && PRIMES[20] == 73 && PRIMES[21] == 79;
    assert PRIMES[22] == 83 && PRIMES[23] == 89 && PRIMES[24] == 97;
  }

  lemma SievedFrom24()
    ensures NextSieved(97, 101)
    ensures NextSieved(101, 103)
    ensures NextSieved(103, 107)
    ensures NextSieved(107, 109)
    ensures NextSieved(109, 113)
    ensures NextSieved(113, 127)
    ensures NextSieved(127, 131)
    ensures NextSieved(131, 137)
  {
  }

  lemma PrimesFrom24(t: nat)
    requires 24 <= t < 32
    ensures NextSieved(PRIMES[t], PRIMES[t + 1]) && PRIMES[t + 1] <= 311
  {
    hide NextSieved;
    SievedFrom24();
    assert PRIMES[24] == 97 && PRIMES[25] == 101 && PRIMES[26] == 103;
    assert PRIMES[27] == 107 && PRIMES[28] == 109 && PRIMES[29] == 113;
    assert PRIMES[30] == 127 && PRIMES[31] == 131 && PRIMES[32] == 137;
  }

  lemma SievedFrom32()
    ensures NextSieved(137, 139)
    ensures NextSieved(139, 149)
    ensures NextSieved(149, 151)
    ensures NextSieved(151, 157)
    ensures NextSieved(157, 163)
    ensures NextSieved(163, 167)
    ensures NextSieved(167, 173)
    ensures NextSieved(173, 179)
  {
  }

  lemma PrimesFrom32(t: nat)
    requires 32 <= t < 40
    ensures NextSieved(PRIMES[t], PRIMES[t + 1]) && PRIMES[t + 1] <= 311
  {
    hide NextSieved;
    SievedFrom32();
    assert PRIMES[32] == 137 && PRIMES[33] == 139 && PRIMES[34] == 149;
    assert PRIMES[35] == 151 && PRIMES[36] == 157 && PRIMES[37] == 163;
    assert PRIMES[38] == 167 && PRIMES[39] == 173 && PRIMES[40] == 179;
  }

  lemma SievedFrom40()
    ensures NextSieved(179, 181)
    ensures NextSieved(181, 191)
    ensures NextSieved(191, 193)
    ensures NextSieved(193, 197)
    ensures NextSieved(197, 199)
    ensures NextSieved(199, 211)
    ensures NextSieved(211, 223)
    ensures NextSieved(223, 227)
  {
  }

  lemma PrimesFrom40(t: nat)
    requires 40 <= t < 48
    ensures NextSieved(PRIMES[t], PRIMES[t + 1]) && PRIMES[t + 1] <= 311
  {
    hide NextSieved;
    SievedFrom40();
    assert PRIMES[40] == 179 && PRIMES[41] == 181 && PRIMES[42] == 191;
    assert PRIMES[43] == 193 && PRIMES[44] == 197 && PRIMES[45] == 199;
    assert PRIMES[46] == 211 && PRIMES[47] == 223 && PRIMES[48] == 227;
  }

  lemma SievedFrom48()
    ensures NextSieved(227, 229)
    ensures NextSieved(229, 233)
    ensures NextSieved(233, 239)
    ensures NextSieved(239, 241)
    ensures NextSieved(241, 251)
    ensures NextSieved(251, 257)
    ensures NextSieved(257, 263)
    ensures NextSieved(263, 269)
  {
  }

  lemma PrimesFrom48(t: nat)
    requires 48 <= t < 56
    ensures NextSieved(PRIMES[t], PRIMES[t + 1]) && PRIMES[t + 1] <= 311
  {
    hide NextSieved;
    SievedFrom48();
    assert PRIMES[48] == 227 && PRIMES[49] == 229 && PRIMES[50] == 233;
    assert PRIMES[51] == 239 && PRIMES[52] == 241 && PRIMES[53] == 251;
    assert PRIMES[54] == 257 && PRIMES[55] == 263 && PRIMES[56] == 269;
  }

  lemma SievedFrom56()
    ensures NextSieved(269, 271)
    ensures NextSieved(271, 277)
    ensures NextSieved(277, 281)
    ensures NextSieved(281, 283)
    ensures NextSieved(283, 293)
    ensures NextSieved(293, 307)
    ensures NextSieved(307, 311)
  {
  }

  lemma PrimesFrom56(t: nat)
    requires 56 <= t < 63
    ensures NextSieved(PRIMES[t], PRIMES[t + 1]) && PRIMES[t + 1] <= 311
  {
    hide NextSieved;
    SievedFrom56();
    assert PRIMES[56] == 269 && PRIMES[57] == 271 && PRIMES[58] == 277;
    assert PRIMES[59] == 281 && PRIMES[60] == 283 && PRIMES[61] == 293;
    assert PRIMES[62] == 307 && PRIMES[63] == 311;
  }

  /** PRIMES are the first 64 primes: 2, and after each the next prime. */
  lemma FirstPrimes(t: nat)
    ensures PRIMES[0] == 2
    ensures t < 63 ==> NextPrime(PRIMES[t], PRIMES[t + 1])
  {
    if t < 63 {
      NextListed(t);
      NextSievedIsPrime(PRIMES[t], PRIMES[t + 1]);
    }
  }

  lemma NextListed(t: nat)
    requires t < 63
    ensures NextSieved(PRIMES[t], PRIMES[t + 1]) && PRIMES[t + 1] <= 311
  {
    hide NextSieved;
    if t < 8 {
      PrimesFrom0(t);
    } else if t < 16 {
      PrimesFrom8(t);
    } else if t < 24 {
      PrimesFrom16(t);
    } else if t < 32 {
      PrimesFrom24(t);
    } else if t < 40 {
      PrimesFrom32(t);
    } else if t < 48 {
      PrimesFrom40(t);
    } else if t < 56 {
      PrimesFrom48(t);
    } else {
      PrimesFrom56(t);
    }
  }
}
