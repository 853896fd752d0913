/** Bucket numbers: how lib/hash.c sizes a table and maps a key to a bucket. */
module HashIndex {
  import opened CStrings
  import opened Words

  type Key = seq<byte>

  const FNV_64_PRIME: nat := 0x100000001b3

  /** The 64-bit FNV-1a hash of the key, from offset basis 0. */
  function Fnv(key: Key): (h: nat)
    ensures h < U64
  {
    if key == [] then 0
    else FnvStep(Fnv(key[..|key| - 1]), key[|key| - 1])
  }

  function FnvStep(seed: nat, b: byte): (h: nat)
    ensures h < U64
  {
    Xor(seed, b) * FNV_64_PRIME % U64
  }

  method HashKey(key: Key, seed: nat) returns (h: nat)
    requires seed == 0
    ensures h == Fnv(key)
  {
    h := seed;
    var bp := 0;
    while bp < |key|
      invariant 0 <= bp <= |key|
      invariant h == Fnv(key[..bp])
    {
      assert key[..bp + 1][..bp] == key[..bp];
      h := Xor(h, key[bp]);
      h := h * FNV_64_PRIME % U64;
      bp := bp + 1;
    }
    assert key[..bp] == key;
  }

  /** One more byte flips the bits it has set, and the result is multiplied by 2^40 + 435, modulo 2^64. */
  lemma FnvByte(key: Key, b: byte) returns (x: nat)
    ensures Fnv([]) == 0 && Fnv(key + [b]) == x * 1099511628211 % 18446744073709551616
    ensures forall i: nat :: Bit(x, i) <==> Bit(Fnv(key), i) != Bit(b, i)
  {
    assert (key + [b])[..|key|] == key;
    x := Xor(Fnv(key), b);
    forall i: nat ensures Bit(x, i) <==> Bit(Fnv(key), i) != Bit(b, i) { BitXor(Fnv(key), b, i); }
  }

  function HashVal(key: Key, size: nat): nat
    requires size > 0
  {
    And(Fnv(key), size - 1)
  }

  /** x with every set bit copied to the bits below it, in the strides of hash_create. */
  function Smear(x: nat): nat {
    var a := Or(x, Shr(x, 1));
    var b := Or(a, Shr(a, 2));
    var c := Or(b, Shr(b, 4));
    var d := Or(c, Shr(c, 8));
    Or(d, Shr(d, 16))
  }

  /** The table size hash_create chooses; size is a size_t, so both ends wrap. */
  function Rounded(size: nat): nat {
    (Smear((size + U64 - 1) % U64) + 1) % U64
  }

  method RoundSize(size0: nat) returns (size: nat)
    requires size0 < U64
    ensures size == Rounded(size0)
    ensures LeastPow2AtLeast(size, size0) <==> 1 <= size0 <= U64 / 2 && NoGap(size0 - 1)
  {
    size := (size0 + U64 - 1) % U64;
    size := Or(size, Shr(size, 1));
    size := Or(size, Shr(size, 2));
    size := Or(size, Shr(size, 4));
    size := Or(size, Shr(size, 8));
    size := Or(size, Shr(size, 16));
    size := (size + 1) % U64;
    RoundingExact(size0);
  }

  ghost predicate IsPow2(p: nat) {
    exists k: nat :: p == Pow2(k)
  }

  ghost predicate LeastPow2AtLeast(p: nat, size: nat) {
    IsPow2(p) && p >= size && forall k: nat :: Pow2(k) >= size ==> p <= Pow2(k)
  }

  /** Some bit among the w bits of x that start at bit i is set. */
  ghost predicate Window(x: nat, i: nat, w: nat) {
    exists j: nat :: i <= j < i + w && Bit(x, j)
  }

  ghost predicate Smeared(a: nat, x: nat, w: nat) {
    forall i: nat :: Bit(a, i) <==> Window(x, i, w)
  }

  /** No run of 32 zero bits below the highest set bit of x. */
  ghost predicate NoGap(x: nat) {
    forall i: nat :: i < Length(x) ==> Window(x, i, 32)
  }

  lemma SmearDoubles(a: nat, x: nat, w: nat)
    requires Smeared(a, x, w)
    ensures Smeared(Or(a, Shr(a, w)), x, 2 * w)
  {
    forall i: nat
      ensures Bit(Or(a, Shr(a, w)), i) <==> Window(x, i, 2 * w)
    {
      BitOr(a, Shr(a, w), i);
      BitShr(a, w, i);
      assert Bit(a, i) <==> Window(x, i, w);
      assert Bit(a, i + w) <==> Window(x, i + w, w);
      if Window(x, i, 2 * w) {
        var j: nat :| i <= j < i + 2 * w && Bit(x, j);
        assert j < i + w || i + w <= j < i + w + w;
      }
    }
  }

  lemma SmearWindow(x: nat)
    ensures Smeared(Smear(x), x, 32)
  {
    forall i: nat ensures Bit(x, i) <==> Window(x, i, 1) {}
    SmearDoubles(x, x, 1);
    var a := Or(x, Shr(x, 1));
    SmearDoubles(a, x, 2);
    var b := Or(a, Shr(a, 2));
    SmearDoubles(b, x, 4);
    var c := Or(b, Shr(b, 4));
    SmearDoubles(c, x, 8);
    var d := Or(c, Shr(c, 8));
    SmearDoubles(d, x, 16);
  }

  lemma SmearIsAllOnes(x: nat)
    ensures Smear(x) == Pow2(Length(x)) - 1 <==> NoGap(x)
    ensures Length(Smear(x)) <= Length(x)
  {
    var s, n := Smear(x), Length(x);
    SmearWindow(x);
    forall i: nat ensures Bit(s, i) <==> Window(x, i, 32) {}
    forall i: nat | i >= n
      ensures !Bit(s, i)
    {
      forall j: nat | i <= j ensures !Bit(x, j) { BitLength(x, j); }
    }
    if Length(s) > n {
      BitLength(s, Length(s) - 1);
    }
    var ones: nat := Pow2(n) - 1;
    forall i: nat ensures Bit(ones, i) <==> i < n { OnesBits(n, i); }
    if NoGap(x) {
      BitsDetermine(s, ones);
    }
  }

  /** The least power of two at or above x + 1. */
  lemma LeastAbove(x: nat, p: nat)
    ensures LeastPow2AtLeast(p, x + 1) <==> p == Pow2(Length(x))
  {
    LengthBounds(x);
    forall k: nat | Pow2(k) >= x + 1
      ensures Pow2(Length(x)) <= Pow2(k)
    {
      if k < Length(x) {
        Pow2Monotone(k, Length(x) - 1);
      } else {
        Pow2Monotone(Length(x), k);
      }
    }
  }

  lemma Pow2Add(a: nat, b: nat)
    ensures Pow2(a + b) == Pow2(a) * Pow2(b)
    decreases b
  {
    if b > 0 {
      Pow2Add(a, b - 1);
    }
  }

  lemma WordSizes()
    ensures Pow2(64) == U64 && Pow2(63) == U64 / 2 && Pow2(32) == U32
  {
    Pow2Of16();
    Pow2Add(16, 16);
    Pow2Add(32, 31);
    Pow2Add(16, 15);
    Pow2Add(32, 32);
  }

  lemma Pow2Of16()
    ensures Pow2(16) == 0x1_0000 && Pow2(15) == 0x8000 && Pow2(8) == 0x100
  {
    assert Pow2(4) == 16;
    Pow2Add(4, 4);
    Pow2Add(8, 7);
    Pow2Add(8, 8);
  }

  /** What rounding by any smear s of x does in words of n bits. */
  lemma RoundingCore(x: nat, s: nat, n: nat)
    requires n > 0 && x < Pow2(n) && Length(s) <= Length(x)
    ensures LeastPow2AtLeast((s + 1) % Pow2(n), x + 1) <==>
            x < Pow2(n - 1) && s == Pow2(Length(x)) - 1
  {
    var m := Length(x);
    LeastAbove(x, (s + 1) % Pow2(n));
    LengthBounds(x);
    LengthBounds(s);
    Pow2Monotone(Length(s), m);
    if m > n {
      Pow2Monotone(n, m - 1);
      assert false;
    }
    if m < n {
      Pow2Monotone(m, n - 1);
      Pow2Monotone(n - 1, n);
    }
    FitsWord(x, s, Pow2(m), Pow2(n - 1), Pow2(n), m == n);
  }

  lemma FitsWord(x: nat, s: nat, top: nat, half: nat, word: nat, full: bool)
    requires 0 < half < word && s < top && x < top
    requires if full then top == word && x >= half else top <= half
    ensures (s + 1) % word == top <==> x < half && s == top - 1
  {
    if s + 1 == word {
      assert (s + 1) % word == 0;
    } else {
      assert (s + 1) % word == s + 1;
    }
  }

  /** The rounding is right for a size_t exactly when the result fits and size - 1 has no run of 32
      zero bits below its highest set bit: the strides add up to a window of 32 bits only. */
  lemma RoundingExact(size: nat)
    requires size < U64
    ensures LeastPow2AtLeast(Rounded(size), size) <==>
            1 <= size <= U64 / 2 && NoGap(size - 1)
  {
    WordSizes();
    if size == 0 {
      RoundedZero(size, 64);
    } else {
      RoundingOf(size, 64);
    }
  }

  lemma RoundingOf(size: nat, n: nat)
    requires n > 0 && Pow2(n) == U64 && 1 <= size < U64
    ensures LeastPow2AtLeast(Rounded(size), size) <==> size <= Pow2(n - 1) && NoGap(size - 1)
  {
    var x := size - 1;
    assert (size + U64 - 1) % U64 == x;
    SmearIsAllOnes(x);
    RoundingCore(x, Smear(x), n);
  }

  lemma RoundedZero(size: nat, n: nat)
    requires size == 0 && Pow2(n) == U64
    ensures Rounded(size) == 0
  {
    SmearOnes(n);
    assert (size + U64 - 1) % U64 == Pow2(n) - 1;
  }

  lemma SmearOnes(n: nat)
    ensures Smear(Pow2(n) - 1) == Pow2(n) - 1
  {
    var x: nat := Pow2(n) - 1;
    forall i: nat ensures Bit(x, i) <==> i < n { OnesBits(n, i); }
    BitLength(x, Length(x));
    if Length(x) > 0 {
      BitLength(x, Length(x) - 1);
    }
    assert Length(x) == n;
    forall i: nat | i < n ensures Window(x, i, 32) { assert Bit(x, i); }
    SmearIsAllOnes(x);
  }

  /** Every size up to 2^32 is rounded to the least power of two that holds it. */
  lemma RoundingUpTo32Bits(size: nat)
    requires 1 <= size <= U32
    ensures LeastPow2AtLeast(Rounded(size), size)
  {
    var x := size - 1;
    WordSizes();
    ShortHasNoGap(x, 32);
    RoundingExact(size);
  }

  lemma ShortHasNoGap(x: nat, n: nat)
    requires n <= 32 && x < Pow2(n)
    ensures NoGap(x)
  {
    LengthBounds(x);
    if Length(x) > n {
      Pow2Monotone(n, Length(x) - 1);
      assert false;
    }
    if x > 0 {
      BitLength(x, Length(x) - 1);
    }
  }

  /** A size whose rounding fails: 2^40 + 1. */
  lemma RoundingFailsBeyond()
    ensures !LeastPow2AtLeast(Rounded(0x100_0000_0001), 0x100_0000_0001)
  {
    WordSizes();
    Pow2Of16();
    Pow2Add(8, 32);
    PowerHasGap(40);
    RoundingExact(0x100_0000_0001);
  }

  lemma PowerHasGap(k: nat)
    requires k >= 32
    ensures !NoGap(Pow2(k))
  {
    forall j: nat | j < k ensures !Bit(Pow2(k), j) { BitPow2(k, j); }
    LengthPow2(k);
    assert !Window(Pow2(k), 0, 32);
  }

  lemma {:induction false} BitPow2(k: nat, j: nat)
    requires j < k
    ensures !Bit(Pow2(k), j)
  {
    if j > 0 {
      BitPow2(k - 1, j - 1);
    }
  }

  lemma {:induction false} LengthPow2(k: nat)
    ensures Length(Pow2(k)) == k + 1
  {
    if k > 0 {
      LengthPow2(k - 1);
    } else {
      assert Length(1) == 1 + Length(0);
    }
  }

  /** In a table of a rounded size the mask picks the remainder, hence a bucket of the table. */
  lemma HashValIsMod(key: Key, size: nat)
    requires IsPow2(size)
    ensures HashVal(key, size) == Fnv(key) % size < size
  {
    var k: nat :| size == Pow2(k);
    MaskIsMod(Fnv(key), k);
  }

  // ---- Key comparison ----

  /** strncmp(a, b, n) == 0: equal up to n bytes or up to a common NUL. */
  predicate StrNCmpEq(a: Key, b: Key, n: nat)
    requires n <= |a| && n <= |b|
  {
    n == 0 || (a[0] == b[0] && (a[0] == 0 || StrNCmpEq(a[1..], b[1..], n - 1)))
  }

  predicate KeyCmp(a: Key, b: Key) {
    |a| == |b| && StrNCmpEq(a, b, |a|)
  }

  /** hash_keycmp compares lengths and what precedes the first NUL, no more. */
  lemma {:induction false} KeyCmpExact(a: Key, b: Key)
    ensures KeyCmp(a, b) <==> |a| == |b| && CString(a) == CString(b)
  {
    if |a| == |b| && |a| > 0 {
      KeyCmpExact(a[1..], b[1..]);
      assert CString(a) != [] ==> CString(a)[0] == a[0] && CString(a)[1..] == CString(a[1..]);
      assert CString(b) != [] ==> CString(b)[0] == b[0] && CString(b)[1..] == CString(b[1..]);
    }
  }

  /** The keys gmetad uses: a string without NUL and its terminator. */
  predicate IsCString(a: Key) {
    |a| > 0 && a[|a| - 1] == 0 && forall i | 0 <= i < |a| - 1 :: a[i] != 0
  }

  lemma {:induction false} BeforeTerminator(a: Key)
    requires IsCString(a)
    ensures a == CString(a) + [0]
  {
    if |a| > 1 {
      BeforeTerminator(a[1..]);
    }
  }

  /** On such keys hash_keycmp is equality. */
  lemma KeyCmpIsEquality(a: Key, b: Key)
    requires IsCString(a) && IsCString(b)
    ensures KeyCmp(a, b) <==> a == b
  {
    KeyCmpExact(a, b);
    BeforeTerminator(a);
    BeforeTerminator(b);
  }
}
