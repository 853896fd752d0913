/** Unsigned machine words as natural numbers, with the bitwise operators of C defined bit by bit. */
module Words {

  const U32: nat := 0x1_0000_0000
  const U64: nat := 0x1_0000_0000_0000_0000

  type byte = b: int | 0 <= b < 256

  function Pow2(k: nat): (p: nat)
    ensures p > 0
  {
    if k == 0 then 1 else 2 * Pow2(k - 1)
  }

  predicate Bit(x: nat, i: nat) {
    if i == 0 then x % 2 == 1 else Bit(x / 2, i - 1)
  }

  function One(b: bool): nat {
    if b then 1 else 0
  }

  function Or(x: nat, y: nat): nat {
    if x == 0 && y == 0 then 0 else 2 * Or(x / 2, y / 2) + One(x % 2 == 1 || y % 2 == 1)
  }

  function And(x: nat, y: nat): nat {
    if x == 0 || y == 0 then 0 else 2 * And(x / 2, y / 2) + One(x % 2 == 1 && y % 2 == 1)
  }

  function Xor(x: nat, y: nat): nat {
    if x == 0 && y == 0 then 0 else 2 * Xor(x / 2, y / 2) + One((x % 2 == 1) != (y % 2 == 1))
  }

  function Shr(x: nat, k: nat): nat {
    if k == 0 then x else Shr(x / 2, k - 1)
  }

  /** The number of bits up to the highest one that is set. */
  function Length(x: nat): nat {
    if x == 0 then 0 else 1 + Length(x / 2)
  }

  lemma {:induction false} BitOr(x: nat, y: nat, i: nat)
    ensures Bit(Or(x, y), i) <==> Bit(x, i) || Bit(y, i)
    decreases i
  {
    if x == 0 && y == 0 {
      BitZero(i);
    } else {
      var half, bit := Or(x / 2, y / 2), One(x % 2 == 1 || y % 2 == 1);
      assert Or(x, y) == 2 * half + bit && (2 * half + bit) / 2 == half && (2 * half + bit) % 2 == bit;
      if i > 0 {
        BitOr(x / 2, y / 2, i - 1);
      }
    }
  }

  lemma {:induction false} BitXor(x: nat, y: nat, i: nat)
    ensures Bit(Xor(x, y), i) <==> Bit(x, i) != Bit(y, i)
    decreases i
  {
    if x == 0 && y == 0 {
      BitZero(i);
    } else {
      var half, bit := Xor(x / 2, y / 2), One((x % 2 == 1) != (y % 2 == 1));
      assert Xor(x, y) == 2 * half + bit && (2 * half + bit) / 2 == half && (2 * half + bit) % 2 == bit;
      if i > 0 {
        BitXor(x / 2, y / 2, i - 1);
      }
    }
  }

  lemma {:induction false} BitZero(i: nat)
    ensures !Bit(0, i)
  {
    if i > 0 {
      BitZero(i - 1);
    }
  }

  lemma {:induction false} BitShr(x: nat, k: nat, i: nat)
    ensures Bit(Shr(x, k), i) == Bit(x, i + k)
    decreases k
  {
    if k > 0 {
      BitShr(x / 2, k - 1, i);
    }
  }

  lemma {:induction false} BitLength(x: nat, i: nat)
    ensures i >= Length(x) ==> !Bit(x, i)
    ensures i + 1 == Length(x) ==> Bit(x, i)
    decreases i
  {
    if x == 0 {
      BitZero(i);
    } else if i > 0 {
      BitLength(x / 2, i - 1);
    } else if Length(x) <= 1 {
      assert x == 1;
    }
  }

  lemma {:induction false} LengthBounds(x: nat)
    ensures x < Pow2(Length(x))
    ensures x > 0 ==> Pow2(Length(x) - 1) <= x
  {
    if x > 1 {
      LengthBounds(x / 2);
    } else if x == 1 {
      assert Length(1) == 1 + Length(0);
    }
  }

  lemma {:induction false} OnesBits(n: nat, i: nat)
    ensures Bit(Pow2(n) - 1, i) <==> i < n
    decreases n
  {
    if n == 0 {
      BitZero(i);
    } else {
      assert (Pow2(n) - 1) / 2 == Pow2(n - 1) - 1 && (Pow2(n) - 1) % 2 == 1;
      if i > 0 {
        OnesBits(n - 1, i - 1);
      }
    }
  }

  /** A number is determined by its bits. */
  lemma {:induction false} BitsDetermine(x: nat, y: nat)
    requires forall i: nat :: Bit(x, i) == Bit(y, i)
    ensures x == y
    decreases x + y
  {
    if x != 0 || y != 0 {
      assert Bit(x, 0) == Bit(y, 0);
      forall i: nat ensures Bit(x / 2, i) == Bit(y / 2, i) {
        assert Bit(x, i + 1) == Bit(y, i + 1);
      }
      BitsDetermine(x / 2, y / 2);
    }
  }

  /** Masking with one less than a power of two is the remainder modulo that power. */
  lemma {:induction false} MaskIsMod(x: nat, k: nat)
    ensures And(x, Pow2(k) - 1) == x % Pow2(k)
    decreases k
  {
    var p := Pow2(k);
    if k == 0 {
      assert And(x, 0) == 0 == x % 1;
    } else if x == 0 {
      assert And(0, p - 1) == 0 == 0 % p;
    } else {
      MaskIsMod(x / 2, k - 1);
      MaskStep(x, Pow2(k - 1));
    }
  }

  lemma MaskStep(x: nat, p: nat)
    requires x > 0 && p > 0 && And(x / 2, p - 1) == x / 2 % p
    ensures And(x, 2 * p - 1) == x % (2 * p)
  {
    assert (2 * p - 1) / 2 == p - 1 && (2 * p - 1) % 2 == 1;
    ModHalf(x, p);
  }

  lemma ModHalf(x: nat, p: nat)
    requires p > 0
    ensures x % (2 * p) == 2 * (x / 2 % p) + x % 2
  {
    var h := x / 2;
    var q, r := h / p, 2 * (h % p) + x % 2;
    assert h == p * q + h % p;
    assert x == 2 * p * q + r && 0 <= r < 2 * p;
    ModUnique(x, 2 * p, q, r);
  }

  lemma ModUnique(x: int, d: nat, q: int, r: nat)
    requires d > 0 && x == d * q + r && r < d
    ensures x % d == r
  {
    var q', r' := x / d, x % d;
    assert x == d * q' + r';
    assert d * (q - q') == d * q - d * q' && d * (q' - q) == d * q' - d * q;
    if q > q' {
      MulMonotone(d, 1, q - q');
    } else if q < q' {
      MulMonotone(d, 1, q' - q);
    }
  }

  /** abs() of the difference of two 32-bit unsigned numbers, taken as a signed one. The most negative
      number is its own absolute value, as it is on two's complement machines. */
  function AbsDifference(a: int, b: int): int {
    var d := (a - b) % U32;
    if d < U32 / 2 then d else if d == U32 / 2 then -(U32 / 2) else U32 - d
  }

  /** Adding a remainder is adding the number, modulo m. */
  lemma ModSum(s: int, a: int, b: int, m: nat)
    requires m > 0 && s % m == a % m
    ensures (s + b % m) % m == (a + b) % m
  {
    var qs, qa, qb, q, r := s / m, a / m, b / m, (a + b) / m, (a + b) % m;
    assert s + b % m == m * qs + m * q - m * qa - m * qb + r;
    assert m * qs + m * q - m * qa - m * qb == m * (qs + q - qa - qb);
    ModUnique(s + b % m, m, qs + q - qa - qb, r);
  }

  /** Subtracting l leaves the remainder exactly if l has none. */
  lemma SameRemainder(v: int, l: int, m: nat)
    requires m > 0
    ensures (v - l) % m == v % m <==> l % m == 0
  {
    var q, r := v / m, v % m;
    if l % m == 0 {
      assert v - l == m * q - m * (l / m) + r && m * q - m * (l / m) == m * (q - l / m);
      ModUnique(v - l, m, q - l / m, r);
    } else if (v - l) % m == r {
      var p := (v - l) / m;
      assert l == m * q - m * p && m * q - m * p == m * (q - p);
      ModUnique(l, m, q - p, 0);
    }
  }

  lemma {:induction false} MulMonotone(d: nat, a: nat, b: nat)
    ensures a <= b ==> d * a <= d * b
    decreases b
  {
    if a < b {
      MulMonotone(d, a, b - 1);
      assert d * b == d * (b - 1) + d;
    }
  }

  lemma {:induction false} Pow2Monotone(a: nat, b: nat)
    ensures a < b ==> Pow2(a) < Pow2(b)
    ensures a <= b ==> Pow2(a) <= Pow2(b)
    decreases b
  {
    if a < b {
      Pow2Monotone(a, b - 1);
    }
  }
}
