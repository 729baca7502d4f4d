/** Bit arithmetic on unbounded naturals: powers of two, single bits, and the
    bitwise OR and XOR that the diagnostic engine uses on machine integers. */
module Bits {

  /** 2 to the power n; the source writes it as `1 << n`. */
  function Pow2(n: nat): (r: nat)
    ensures r >= 1
  {
    if n == 0 then 1 else 2 * Pow2(n - 1)
  }

  /** Bit d of v (position 0 is the least significant): the parity of v
      shifted right d times. */
  function Bit(v: nat, d: nat): (b: nat)
    ensures b <= 1
  {
    if d == 0 then v % 2 else Bit(v / 2, d - 1)
  }

  /** Bitwise OR, digit by digit from the least significant end. */
  function BitOr(a: nat, b: nat): nat
    decreases a + b
  {
    if a == 0 && b == 0 then 0
    else 2 * BitOr(a / 2, b / 2) + (if a % 2 == 1 || b % 2 == 1 then 1 else 0)
  }

  /** Bitwise XOR, digit by digit from the least significant end. */
  function BitXor(a: nat, b: nat): nat
    decreases a + b
  {
    if a == 0 && b == 0 then 0
    else 2 * BitXor(a / 2, b / 2) + (if a % 2 != b % 2 then 1 else 0)
  }

  /** The value whose low `n` bits are all one: `(1 << n) - 1`. */
  function Mask(n: nat): nat
  {
    Pow2(n) - 1
  }

  lemma DivUnique(x: nat, m: nat, q: nat, r: nat)
    requires 0 <= r < m
    requires x == q * m + r
    ensures x / m == q && x % m == r
  {
    var q', r' := x / m, x % m;
    assert x == q' * m + r';
    if q > q' {
      assert q * m - q' * m == (q - q') * m;
      MulAtLeast(q - q', m);
      assert false;
    } else if q < q' {
      assert q' * m - q * m == (q' - q) * m;
      MulAtLeast(q' - q, m);
      assert false;
    }
  }

  lemma MulAtLeast(k: int, m: nat)
    requires k >= 1
    ensures k * m >= m
  {
    assert k * m == (k - 1) * m + m;
    assert (k - 1) * m >= 0;
  }

  /** Halving 2y+e for a single bit e recovers y, and e is the parity. */
  lemma Halve(y: nat, e: nat)
    requires e <= 1
    ensures (2 * y + e) / 2 == y && (2 * y + e) % 2 == e
  {
    DivUnique(2 * y + e, 2, y, e);
  }

  /** Dividing by 2p is halving and then dividing by p. */
  lemma DivDouble(x: nat, p: nat)
    requires p >= 1
    ensures x / (2 * p) == (x / 2) / p
  {
    var q := (x / 2) / p;
    var r := (x / 2) % p;
    assert x / 2 == q * p + r;
    assert x == q * (2 * p) + (2 * r + x % 2);
    DivUnique(x, 2 * p, q, 2 * r + x % 2);
  }

  /** Bit d+1 of v is bit d of v shifted right once. */
  lemma BitSucc(v: nat, d: nat)
    ensures Bit(v, d + 1) == Bit(v / 2, d)
  {
  }

  /** Bit d of v is `(v >> d) & 1`, that is, `(v / 2^d) % 2`. */
  lemma {:induction false} BitIsShiftedParity(v: nat, d: nat)
    ensures Bit(v, d) == (v / Pow2(d)) % 2
    decreases d
  {
    if d > 0 {
      BitIsShiftedParity(v / 2, d - 1);
      DivDouble(v, Pow2(d - 1));
    }
  }

  lemma BitOfZero(d: nat)
    ensures Bit(0, d) == 0
  {
  }

  /** The bits of an XOR are the sums modulo 2 of the operands' bits. */
  lemma {:induction false} BitXorBit(a: nat, b: nat, n: nat)
    ensures Bit(BitXor(a, b), n) == (Bit(a, n) + Bit(b, n)) % 2
    decreases n
  {
    XorHalves(a, b);
    if n > 0 {
      BitXorBit(a / 2, b / 2, n - 1);
    }
  }

  /** Halving an XOR is the XOR of the halves, and its parity is the sum of
      the parities modulo 2. */
  lemma XorHalves(a: nat, b: nat)
    ensures BitXor(a, b) / 2 == BitXor(a / 2, b / 2)
    ensures BitXor(a, b) % 2 == (a % 2 + b % 2) % 2
  {
    var x := BitXor(a, b);
    var y := BitXor(a / 2, b / 2);
    ParitySum(a % 2, b % 2);
    if a == 0 && b == 0 {
      assert x == 0 && y == 0;
    } else {
      var e := if a % 2 != b % 2 then 1 else 0;
      assert x == 2 * y + e;
      Halve(y, e);
    }
  }

  lemma ParitySum(x: nat, y: nat)
    requires x <= 1 && y <= 1
    ensures (x + y) % 2 == if x != y then 1 else 0
  {
  }

  /** Mask(d) has exactly the bits below d set. */
  lemma {:induction false} MaskBit(d: nat, n: nat)
    ensures Bit(Mask(d), n) == if n < d then 1 else 0
    decreases n
  {
    if d == 0 {
      BitOfZero(n);
    } else if n > 0 {
      BitSucc(Mask(d), n - 1);
      assert Mask(d) / 2 == Mask(d - 1);
      MaskBit(d - 1, n - 1);
    }
  }

  /** Below 2^d, XOR with the mask is subtraction from the mask. */
  lemma {:induction false} XorMask(g: nat, d: nat)
    requires g < Pow2(d)
    ensures BitXor(g, Mask(d)) == Mask(d) - g
    decreases d
  {
    if d > 0 {
      assert Mask(d) / 2 == Mask(d - 1) && Mask(d) % 2 == 1;
      XorMask(g / 2, d - 1);
    }
  }

  /** OR-ing the single bit c at position k into a multiple of 2^(k+1)
      adds it. */
  lemma {:induction false} OrDisjoint(q: nat, c: nat, k: nat)
    requires c <= 1
    ensures BitOr(q * Pow2(k + 1), c * Pow2(k)) == q * Pow2(k + 1) + c * Pow2(k)
    decreases k
  {
    var p := Pow2(k);
    assert q * Pow2(k + 1) == 2 * (q * p);
    if k == 0 {
      OrLowBit(q, c);
    } else {
      var p' := Pow2(k - 1);
      assert c * p == 2 * (c * p');
      OrDoubles(q * p, c * p');
      OrDisjoint(q, c, k - 1);
    }
  }

  /** OR-ing a single bit into an even number adds it. */
  lemma OrLowBit(q: nat, c: nat)
    requires c <= 1
    ensures BitOr(2 * q, c) == 2 * q + c
  {
    Halve(q, 0);
    Halve(0, c);
    OrZero(q);
  }

  /** OR commutes with doubling. */
  lemma OrDoubles(x: nat, y: nat)
    ensures BitOr(2 * x, 2 * y) == 2 * BitOr(x, y)
  {
    Halve(x, 0);
    Halve(y, 0);
  }

  lemma {:induction false} OrZero(a: nat)
    ensures BitOr(a, 0) == a
    decreases a
  {
    if a != 0 {
      OrZero(a / 2);
    }
  }

  /** Adding the single bit c at position k to a value below 2^k leaves the
      lower bits alone and sets bit k to c. */
  lemma {:induction false} BitOfTop(x: nat, c: nat, k: nat, i: nat)
    requires x < Pow2(k) && c <= 1 && i <= k
    ensures Bit(x + c * Pow2(k), i) == if i == k then c else Bit(x, i)
    decreases i
  {
    var y := x + c * Pow2(k);
    if i == 0 {
      if k > 0 {
        assert c * Pow2(k) == 2 * (c * Pow2(k - 1));
      }
    } else {
      assert c * Pow2(k) == 2 * (c * Pow2(k - 1));
      assert y / 2 == x / 2 + c * Pow2(k - 1);
      BitSucc(y, i - 1);
      BitSucc(x, i - 1);
      BitOfTop(x / 2, c, k - 1, i - 1);
    }
  }
}
