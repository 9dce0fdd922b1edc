/**
  Python's `|`, `&` and `^` on non-negative integers of unbounded width, defined
  bit by bit from the least significant end, with the facts the codecs rely on.
 */
module Bits {

  function Pow2(n: nat): (r: nat)
    ensures r >= 1
  {
    if n == 0 then 1 else 2 * Pow2(n - 1)
  }

  function Or(a: nat, b: nat): nat
    decreases a + b
  {
    if a == 0 && b == 0 then 0
    else 2 * Or(a / 2, b / 2) + (if a % 2 == 1 || b % 2 == 1 then 1 else 0)
  }

  function And(a: nat, b: nat): nat
    decreases a + b
  {
    if a == 0 && b == 0 then 0
    else 2 * And(a / 2, b / 2) + (if a % 2 == 1 && b % 2 == 1 then 1 else 0)
  }

  function Xor(a: nat, b: nat): nat
    decreases a + b
  {
    if a == 0 && b == 0 then 0
    else 2 * Xor(a / 2, b / 2) + (a % 2 + b % 2) % 2
  }

  /** Two numbers below 2^n have their exclusive or below 2^n. */
  lemma {:induction false} XorBelow(a: nat, b: nat, n: nat)
    requires a < Pow2(n) && b < Pow2(n)
    ensures Xor(a, b) < Pow2(n)
  {
    if n > 0 && !(a == 0 && b == 0) {
      XorBelow(a / 2, b / 2, n - 1);
    }
  }

  /** Exclusive or with the same number twice gives back the original. */
  lemma {:induction false} XorCancel(a: nat, b: nat)
    ensures Xor(Xor(a, b), b) == a
    decreases a + b
  {
    if !(a == 0 && b == 0) {
      var x, h, c := Xor(a, b), Xor(a / 2, b / 2), (a % 2 + b % 2) % 2;
      XorCancel(a / 2, b / 2);
      XorStep(x, h, c);
      if b == 0 && c == 0 {
        assert Xor(h, b / 2) == a / 2 && a / 2 != 0;
        assert h != 0;
      }
      XorUnfold(x, b);
      ParityCancels(a, b);
    }
  }

  lemma XorUnfold(a: nat, b: nat)
    requires !(a == 0 && b == 0)
    ensures Xor(a, b) == 2 * Xor(a / 2, b / 2) + (a % 2 + b % 2) % 2
  {
  }

  lemma ParityCancels(a: nat, b: nat)
    ensures ((a % 2 + b % 2) % 2 + b % 2) % 2 == a % 2
  {
  }

  lemma XorStep(x: nat, h: nat, c: nat)
    requires c < 2 && x == 2 * h + c
    ensures x / 2 == h && x % 2 == c
  {
  }

  /** Setting bit n of a number below 2^n adds 2^n. */
  lemma {:induction false} OrHighBit(n: nat, a: nat)
    requires a < Pow2(n)
    ensures Or(Pow2(n), a) == Pow2(n) + a
  {
    if n > 0 {
      OrHighBit(n - 1, a / 2);
    }
  }

  /** Bits below a set bit 2^n do not disturb it, nor does it disturb them. */
  lemma {:induction false} OrDisjoint(a: nat, c: nat, n: nat)
    requires a < Pow2(n)
    ensures Or(a, c * Pow2(n)) == a + c * Pow2(n)
    decreases n
  {
    if n == 0 {
      OrZero(c);
    } else {
      assert c * Pow2(n) == 2 * (c * Pow2(n - 1));
      OrDisjoint(a / 2, c, n - 1);
    }
  }

  lemma {:induction false} OrZero(c: nat)
    ensures Or(0, c) == c
  {
    if c != 0 {
      OrZero(c / 2);
    }
  }

  /** Exclusive or of a number with bit n set, against one below 2^n, keeps bit n. */
  lemma {:induction false} XorHighBit(n: nat, a: nat, b: nat)
    requires a < Pow2(n) && b < Pow2(n)
    ensures Xor(Pow2(n) + a, b) == Pow2(n) + Xor(a, b)
  {
    if n > 0 {
      XorHighBit(n - 1, a / 2, b / 2);
      XorHighStep(Pow2(n - 1), a, b);
    }
  }

  /** One bit of XorHighBit's induction: the high bit moves down with the halves of `a` and `b`. */
  lemma XorHighStep(p: nat, a: nat, b: nat)
    requires a < 2 * p && b < 2 * p
    requires Xor(p + a / 2, b / 2) == p + Xor(a / 2, b / 2)
    ensures Xor(2 * p + a, b) == 2 * p + Xor(a, b)
  {
    var x := 2 * p + a;
    HalveHigh(p, a);
    var r := (a % 2 + b % 2) % 2;
    assert (x % 2 + b % 2) % 2 == r;
    XorUnfoldAll(x, b);
    XorUnfoldAll(a, b);
    HighBitSum(Xor(x, b), Xor(a, b), Xor(x / 2, b / 2), Xor(a / 2, b / 2), p, r);
  }

  lemma HighBitSum(x: nat, y: nat, h: nat, i: nat, p: nat, r: nat)
    requires x == 2 * h + r && h == p + i && y == 2 * i + r
    ensures x == 2 * p + y
  {
  }

  lemma HalveHigh(p: nat, a: nat)
    requires a < 2 * p
    ensures (2 * p + a) / 2 == p + a / 2 && (2 * p + a) % 2 == a % 2 && a / 2 < p
  {
  }

  /** The recursive step of Xor, which also holds at zero. */
  lemma XorUnfoldAll(a: nat, b: nat)
    ensures Xor(a, b) == 2 * Xor(a / 2, b / 2) + (a % 2 + b % 2) % 2
  {
  }

  /** `a << n`. */
  function Shl(a: nat, n: nat): nat
  {
    if n == 0 then a else 2 * Shl(a, n - 1)
  }

  /** Exclusive or works on the high and the low n bits of two numbers separately. */
  lemma {:induction false} XorConcat(h: nat, k: nat, u: nat, v: nat, n: nat)
    requires u < Pow2(n) && v < Pow2(n)
    ensures Xor(Shl(h, n) + u, Shl(k, n) + v) == Shl(Xor(h, k), n) + Xor(u, v)
  {
    if n > 0 {
      XorConcat(h, k, u / 2, v / 2, n - 1);
      ConcatStep(Shl(h, n - 1), Shl(k, n - 1), Shl(Xor(h, k), n - 1), u, v);
    }
  }

  /** One bit of XorConcat's induction, with the high parts already shifted. */
  lemma ConcatStep(hp: nat, kp: nat, xp: nat, u: nat, v: nat)
    requires Xor(hp + u / 2, kp + v / 2) == xp + Xor(u / 2, v / 2)
    ensures Xor(2 * hp + u, 2 * kp + v) == 2 * xp + Xor(u, v)
  {
    var x, y := 2 * hp + u, 2 * kp + v;
    Halves(hp, u);
    Halves(kp, v);
    XorUnfoldAll(x, y);
    XorUnfoldAll(u, v);
  }

  lemma Halves(h: nat, u: nat)
    ensures (2 * h + u) / 2 == h + u / 2 && (2 * h + u) % 2 == u % 2
  {
  }

  /** Masking with 2^n - 1 clears bit n of a number below 2^(n+1). */
  lemma {:induction false} AndMaskHighBit(n: nat, a: nat)
    requires a < Pow2(n)
    ensures And(Pow2(n) + a, Pow2(n) - 1) == a
  {
    if n > 0 {
      AndMaskHighBit(n - 1, a / 2);
    }
  }

  /** `a & m` never exceeds `m`. */
  lemma {:induction false} AndAtMost(a: nat, m: nat)
    ensures And(a, m) <= m
    decreases a + m
  {
    if !(a == 0 && m == 0) {
      AndAtMost(a / 2, m / 2);
    }
  }

  lemma {:induction false} Pow2Add(a: nat, b: nat)
    ensures Pow2(a + b) == Pow2(a) * Pow2(b)
  {
    if a > 0 {
      Pow2Add(a - 1, b);
    }
  }
}
