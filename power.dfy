/** Natural-number powers, used for bit weights and for digit weights. */
module Power {

  function Pow(b: nat, e: nat): (r: nat)
    ensures b >= 1 ==> r >= 1
  {
    if e == 0 then 1 else b * Pow(b, e - 1)
  }

  /** b^(x+y) = b^x * b^y */
  lemma {:induction false} PowAdd(b: nat, x: nat, y: nat)
    ensures Pow(b, x + y) == Pow(b, x) * Pow(b, y)
  {
    if x > 0 {
      PowAdd(b, x - 1, y);
      var p, q := Pow(b, x - 1), Pow(b, y);
      assert Pow(b, x + y) == b * (p * q);
      assert Pow(b, x) == b * p;
      MulAssociates(b, p, q);
    }
  }

  lemma MulAssociates(a: nat, b: nat, c: nat)
    ensures a * (b * c) == (a * b) * c
  {
  }

  /** Powers of a base above one grow strictly with the exponent. */
  lemma {:induction false} PowStrictlyIncreasing(b: nat, x: nat, y: nat)
    requires b >= 2 && x < y
    ensures Pow(b, x) < Pow(b, y)
  {
    if y == x + 1 {
      assert Pow(b, y) == b * Pow(b, x);
    } else {
      PowStrictlyIncreasing(b, x, y - 1);
      assert Pow(b, y) == b * Pow(b, y - 1);
    }
  }

  /** 16^m = 2^(4m): one hexadecimal digit carries exactly four bits. */
  lemma {:induction false} HexPow(m: nat)
    ensures Pow(16, m) == Pow(2, 4 * m)
  {
    if m > 0 {
      HexPow(m - 1);
      PowAdd(2, 4, 4 * (m - 1));
      assert Pow(2, 4) == 16;
    }
  }

  /** Dividing a*p + r by p, with 0 <= r < p, gives back a and leaves r. */
  lemma {:induction false} DivModMulAdd(a: nat, p: nat, r: nat)
    requires r < p
    ensures (a * p + r) / p == a
    ensures (a * p + r) % p == r
  {
    var n := a * p + r;
    var q, m := n / p, n % p;
    assert n == q * p + m;
    assert (q - a) * p == r - m;
    MulAwayFromZero(q - a, p);
  }

  lemma MulAwayFromZero(d: int, p: nat)
    ensures d >= 1 ==> d * p >= p
    ensures d <= -1 ==> d * p <= 0 - p
  {
    if d >= 1 {
      assert (d - 1) * p >= 0;
    } else if d <= -1 {
      assert (-d - 1) * p >= 0;
    }
  }

  /** Shifting a sum by q is shifting each part. */
  lemma Distributes(x: nat, p: nat, w: nat, q: nat)
    ensures x * (p * q) + w * q == (x * p + w) * q
  {
  }

  /** Multiplying by the same natural number keeps the order. */
  lemma MulMonotone(x: nat, y: nat, b: nat)
    requires x <= y
    ensures x * b <= y * b
  {
    var d: nat := y - x;
    assert y * b == x * b + d * b;
  }

  /** Dividing by a base of at least 2 makes a positive number smaller. */
  lemma DivStep(n: nat, b: nat)
    requires b >= 2 && n >= 1
    ensures n / b < n && (n / b) * b + n % b == n
    ensures n >= b ==> n / b >= 1
  {
    var q := n / b;
    assert q * b + n % b == n;
    MulMonotone(2, b, q);
  }

  lemma ModBelow(v: nat, p: nat)
    requires v < p
    ensures v % p == v
  {
  }
}
