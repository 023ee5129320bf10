/** The arithmetic of src/33.c: Euclid's loop and the array of the numbers below num that are
    coprime to num, whose length tells whether num is counted as a prime. */
module Coprimes {
  import opened Quotients

  function Gcd(a: nat, b: nat): (r: nat)
    decreases b
  {
    if b == 0 then a else Gcd(b, a % b)
  }

  method GcdLoop(x: nat, y: nat) returns (a: nat)
    ensures a == Gcd(x, y)
  {
    var b: nat := y;
    a := x;
    while b != 0
      invariant Gcd(a, b) == Gcd(x, y)
      decreases b
    {
      var t: nat := b;
      b := a % b;
      a := t;
    }
  }

  predicate Divides(d: nat, n: nat)
    requires d > 0
  {
    n % d == 0
  }

  lemma DividesSum(d: nat, x: nat, y: nat, q: nat)
    requires d > 0 && Divides(d, y)
    ensures Divides(d, x) <==> Divides(d, q * y + x)
  {
    var k := y / d;
    assert y == k * d;
    assert q * y == (q * k) * d by {
      assert q * (k * d) == (q * k) * d;
    }
    ModShift(x, q * k, d);
  }

  lemma ModShift(x: nat, k: nat, d: nat)
    requires d > 0
    ensures (k * d + x) % d == x % d
  {
    var r := x % d;
    assert k * d + x == (k + x / d) * d + r;
    RemainderIs(k * d + x, d, k + x / d, r);
  }

  /** The common divisors of two numbers are exactly the divisors of what Euclid's loop returns. */
  lemma {:induction false} CommonDivisors(a: nat, b: nat, d: nat)
    requires d > 0
    ensures Divides(d, a) && Divides(d, b) <==> Divides(d, Gcd(a, b))
    decreases b
  {
    if b != 0 {
      CommonDivisors(b, a % b, d);
      assert a == (a / b) * b + a % b;
      if Divides(d, b) {
        DividesSum(d, a % b, b, a / b);
      }
    } else {
      assert Divides(d, 0);
    }
  }

  lemma {:induction false} GcdPositive(a: nat, b: nat)
    requires a > 0 || b > 0
    ensures Gcd(a, b) > 0
    decreases b
  {
    if b != 0 {
      GcdPositive(b, a % b);
    }
  }

  /** Being coprime: no common divisor but 1. */
  ghost predicate Coprime(a: nat, b: nat) {
    forall d: nat :: d > 1 ==> !(Divides(d, a) && Divides(d, b))
  }

  lemma GcdOneIsCoprime(a: nat, b: nat)
    requires a > 0 || b > 0
    ensures Gcd(a, b) == 1 <==> Coprime(a, b)
  {
    var g := Gcd(a, b);
    GcdPositive(a, b);
    if g == 1 {
      forall d: nat | d > 1 ensures !(Divides(d, a) && Divides(d, b)) {
        CommonDivisors(a, b, d);
      }
    } else {
      CommonDivisors(a, b, g);
      RemainderIs(g, g, 1, 0);
      assert Divides(g, a) && Divides(g, b);
    }
  }

  // ---------------------------------------------------------------- the array of coprimes

  /** The numbers from 1 to n whose greatest common divisor with num is 1, in order. */
  function UpTo(num: nat, n: nat): (r: seq<int>)
    ensures |r| <= n
  {
    if n == 0 then []
    else if Gcd(n, num) == 1 then UpTo(num, n - 1) + [n]
    else UpTo(num, n - 1)
  }

  /** What the child computes for num >= 1. */
  function Below(num: nat): (r: seq<int>)
    requires num >= 1
    ensures |r| < num
  {
    UpTo(num, num - 1)
  }

  method FillCoprimes(num: nat) returns (coprimes: array<int>, count: nat)
    requires num >= 1
    ensures coprimes.Length == num && count < num && coprimes[..count] == Below(num)
  {
    coprimes := new int[num](i => 0);
    count := 0;
    var i := 1;
    while i < num
      invariant 1 <= i <= num && count <= i - 1
      invariant coprimes[..count] == UpTo(num, i - 1)
      decreases num - i
    {
      var g := GcdLoop(i, num);
      if g == 1 {
        coprimes[count] := i;
        count := count + 1;
      }
      i := i + 1;
    }
  }

  lemma {:induction false} UpToMembers(num: nat, n: nat, x: int)
    ensures x in UpTo(num, n) <==> 1 <= x <= n && Gcd(x, num) == 1
  {
    if n > 0 {
      UpToMembers(num, n - 1, x);
    }
  }

  /** Exactly the coprime numbers below num. */
  lemma BelowMembers(num: nat, x: int)
    requires num >= 1
    ensures x in Below(num) <==> 1 <= x < num && Coprime(x, num)
  {
    UpToMembers(num, num - 1, x);
    if 1 <= x < num {
      GcdOneIsCoprime(x, num);
    }
  }

  lemma {:induction false} UpToAscends(num: nat, n: nat)
    ensures forall i, j :: 0 <= i < j < |UpTo(num, n)| ==> UpTo(num, n)[i] < UpTo(num, n)[j]
    ensures forall i :: 0 <= i < |UpTo(num, n)| ==> 1 <= UpTo(num, n)[i] <= n
  {
    if n > 0 {
      UpToAscends(num, n - 1);
    }
  }

  ghost predicate Prime(n: nat) {
    n > 1 && forall d: nat :: 1 < d < n ==> !Divides(d, n)
  }

  ghost predicate AllCoprime(num: nat, n: nat) {
    forall x: nat :: 1 <= x <= n ==> Gcd(x, num) == 1
  }

  lemma AllCoprimeStep(num: nat, n: nat)
    requires n > 0
    ensures AllCoprime(num, n) <==> AllCoprime(num, n - 1) && Gcd(n, num) == 1
  {
    hide Gcd;
  }

  lemma {:induction false} UpToFull(num: nat, n: nat)
    ensures |UpTo(num, n)| == n <==> AllCoprime(num, n)
  {
    hide Gcd, AllCoprime;
    if n > 0 {
      UpToFull(num, n - 1);
      AllCoprimeStep(num, n);
    } else {
      AllCoprimeZero(num);
    }
  }

  lemma AllCoprimeZero(num: nat)
    ensures AllCoprime(num, 0)
  {
  }

  /** The child counts num exactly when num is 1 or a prime. */
  lemma CountedIffOneOrPrime(num: nat)
    requires num >= 1
    ensures |Below(num)| == num - 1 <==> num == 1 || Prime(num)
  {
    UpToFull(num, num - 1);
    if num > 1 && Prime(num) {
      forall x: nat | 1 <= x <= num - 1 ensures Gcd(x, num) == 1 {
        GcdOneIsCoprime(x, num);
        forall d: nat | d > 1 ensures !(Divides(d, x) && Divides(d, num)) {
          if d >= num {
            RemainderIs(x, d, 0, x);
          }
        }
      }
    } else if num > 1 {
      var d: nat :| 1 < d < num && Divides(d, num);
      GcdOneIsCoprime(d, num);
      RemainderIs(d, d, 1, 0);
      assert Divides(d, d);
    }
  }
}
