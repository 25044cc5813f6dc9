/** Bytes as numbers below 256, and bitwise exclusive or on numbers. */
module Bytes {
  import opened Basics

  type byte = x: int | 0 <= x < 256

  /** Exclusive or of the low `n` bits. */
  function Xor(a: nat, b: nat, n: nat): nat {
    if n == 0 then 0
    else 2 * Xor(a / 2, b / 2, n - 1) + if a % 2 == b % 2 then 0 else 1
  }

  /** Bit `i` of a number. */
  predicate HasBit(a: nat, i: nat) {
    a / Pow2(i) % 2 == 1
  }

  lemma {:induction false} BitOfHalf(a: nat, i: nat)
    ensures HasBit(a / 2, i) <==> HasBit(a, i + 1)
  {
    var p := Pow2(i);
    HalfThenDivide(a, p);
  }

  lemma {:induction false} HalfThenDivide(a: nat, p: nat)
    requires p > 0
    ensures a / 2 / p == a / (2 * p)
  {
    var q, r := a / (2 * p), a % (2 * p);
    assert a == q * (2 * p) + r;
    assert a / 2 == q * p + r / 2 && 0 <= r / 2 < p;
    ModUnique(a / 2, p, q, r / 2);
  }

  /** Exclusive or, bit by bit. */
  lemma {:induction false} XorBits(a: nat, b: nat, n: nat, i: nat)
    ensures HasBit(Xor(a, b, n), i) <==> i < n && (HasBit(a, i) != HasBit(b, i))
  {
    if n == 0 {
      assert 0 / Pow2(i) == 0;
    } else {
      var x := Xor(a, b, n);
      assert x / 2 == Xor(a / 2, b / 2, n - 1);
      if i > 0 {
        XorBits(a / 2, b / 2, n - 1, i - 1);
        BitOfHalf(a, i - 1);
        BitOfHalf(b, i - 1);
        BitOfHalf(x, i - 1);
      } else {
        LowestBit(a);
        LowestBit(b);
        LowestBit(x);
      }
    }
  }

  lemma {:induction false} LowestBit(a: nat)
    ensures HasBit(a, 0) <==> a % 2 == 1
  {
  }

  /** Numbers below 2^n with the same bits are the same. */
  lemma {:induction false} SameBits(a: nat, b: nat, n: nat)
    requires a < Pow2(n) && b < Pow2(n) && forall i: nat :: i < n ==> (HasBit(a, i) <==> HasBit(b, i))
    ensures a == b
  {
    if n > 0 {
      assert HasBit(a, 0) <==> HasBit(b, 0);
      LowestBit(a);
      LowestBit(b);
      forall i: nat | i < n - 1 ensures HasBit(a / 2, i) <==> HasBit(b / 2, i) {
        BitOfHalf(a, i);
        BitOfHalf(b, i);
        assert HasBit(a, i + 1) <==> HasBit(b, i + 1);
      }
      SameBits(a / 2, b / 2, n - 1);
    }
  }

  lemma {:induction false} XorBelow(a: nat, b: nat, n: nat)
    ensures Xor(a, b, n) < Pow2(n)
  {
    if n > 0 { XorBelow(a / 2, b / 2, n - 1); }
  }

  lemma {:induction false} XorZero(a: nat, n: nat)
    requires a < Pow2(n)
    ensures Xor(a, 0, n) == a
  {
    if n > 0 { XorZero(a / 2, n - 1); }
  }

  /** Exclusive or with a number of `m` bits leaves the higher bits alone. */
  lemma {:induction false} XorSplit(a: nat, b: nat, n: nat, m: nat)
    requires a < Pow2(n) && m <= n && b < Pow2(m)
    ensures Xor(a, b, n) == a / Pow2(m) * Pow2(m) + Xor(a % Pow2(m), b, m)
  {
    if m == 0 {
      XorZero(a, n);
    } else {
      XorSplit(a / 2, b / 2, n - 1, m - 1);
      HalfSplits(a, Pow2(m - 1));
    }
  }

  lemma {:induction false} XorLow(h: nat, low: nat, b: nat, n: nat, m: nat)
    requires h * Pow2(m) + low < Pow2(n) && m <= n && low < Pow2(m) && b < Pow2(m)
    ensures Xor(h * Pow2(m) + low, b, n) == h * Pow2(m) + Xor(low, b, m)
  {
    ModUnique(h * Pow2(m) + low, Pow2(m), h, low);
    XorSplit(h * Pow2(m) + low, b, n, m);
  }

  lemma {:induction false} HalfSplits(a: nat, p: nat)
    requires p > 0
    ensures a / 2 / p * p * 2 == a / (2 * p) * (2 * p)
    ensures a / 2 % p == a % (2 * p) / 2 && a % (2 * p) % 2 == a % 2
  {
    HalfThenDivide(a, p);
    var q, r := a / (2 * p), a % (2 * p);
    assert a == q * (2 * p) + r;
    assert a / 2 == q * p + r / 2 && a % 2 == r % 2;
    ModUnique(a / 2, p, q, r / 2);
  }

  lemma {:induction false} XorSelf(a: nat, n: nat)
    ensures Xor(a, a, n) == 0
  {
    if n > 0 { XorSelf(a / 2, n - 1); }
  }

  lemma {:induction false} XorTwice(a: nat, b: nat, n: nat)
    requires a < Pow2(n)
    ensures Xor(Xor(a, b, n), b, n) == a
  {
    if n > 0 {
      XorTwice(a / 2, b / 2, n - 1);
      var x := Xor(a, b, n);
      assert x / 2 == Xor(a / 2, b / 2, n - 1) && x % 2 == if a % 2 == b % 2 then 0 else 1;
    }
  }

  lemma {:induction false} XorSeparates(a: nat, b: nat, c: nat, n: nat)
    requires b < Pow2(n) && c < Pow2(n) && b != c
    ensures Xor(a, b, n) != Xor(a, c, n)
  {
    if n > 0 && b / 2 != c / 2 {
      XorSeparates(a / 2, b / 2, c / 2, n - 1);
    }
  }

  lemma {:induction false} Pow2Of8()
    ensures Pow2(8) == 256
  {
    assert Pow2(4) == 16;
    assert Pow2(6) == 64;
  }
}
