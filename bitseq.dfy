/**
 * Fixed-width unsigned integers and their bit patterns.
 *
 * The C code works on uint8_t .. uint64_t values with shifts, casts and `|`.
 * Here a value is an integer of the matching range, a right shift by s is s
 * halvings (`Shr`, which is a division by Pow2(s)), a left shift into a byte
 * is s doublings kept to the low byte (`Shl8`),
 * a cast to a narrower type is `% Pow2(width)`, and `|` is `Or`.  The bits of
 * a value are read through `Field(v, n)`: its low n bits, most significant
 * first, which is the order in which the bit stream stores them.
 */
module BitSeq {

  newtype uint8 = x: int | 0 <= x < 0x100
  newtype uint16 = x: int | 0 <= x < 0x1_0000
  newtype uint32 = x: int | 0 <= x < 0x1_0000_0000
  newtype uint64 = x: int | 0 <= x < 0x1_0000_0000_0000_0000

  /** Positive integers: the type of powers of two, so that dividing by one needs no proof. */
  type pos = x: int | x >= 1 witness 1

  function Pow2(n: nat): (r: pos)
  {
    if n == 0 then 1 else 2 * Pow2(n - 1)
  }

  /** The C right shift `v >> s` of a non-negative value. */
  function Shr(v: nat, s: nat): nat
  {
    if s == 0 then v else Shr(v / 2, s - 1)
  }

  /** The C truncation of v to its low s bits (`v % 2^s`, see LowMod). */
  function Low(v: nat, s: nat): nat
  {
    if s == 0 then 0 else 2 * Low(v / 2, s - 1) + v % 2
  }

  /** The low n bits of v, most significant bit first. */
  function Field(v: nat, n: nat): (r: seq<bool>)
    ensures |r| == n
  {
    if n == 0 then [] else Field(v / 2, n - 1) + [v % 2 == 1]
  }

  function Zeros(n: nat): (r: seq<bool>)
    ensures |r| == n && forall k :: 0 <= k < n ==> !r[k]
  {
    seq(n, _ => false)
  }

  /** Bitwise or of two naturals (the C `|`). */
  function Or(a: nat, b: nat): nat
    decreases a + b
  {
    if a == 0 && b == 0 then 0
    else 2 * Or(a / 2, b / 2) + (if a % 2 == 1 || b % 2 == 1 then 1 else 0)
  }

  /** Position-wise or of two bit sequences of equal length. */
  function OrSeq(s: seq<bool>, t: seq<bool>): (r: seq<bool>)
    requires |s| == |t|
    ensures |r| == |s|
  {
    seq(|s|, k requires 0 <= k < |s| => s[k] || t[k])
  }

  /** Or `t` into the last |t| bits of `s`. */
  function OrSuffix(s: seq<bool>, t: seq<bool>): (r: seq<bool>)
    requires |t| <= |s|
    ensures |r| == |s|
  {
    s[..|s| - |t|] + OrSeq(s[|s| - |t|..], t)
  }

  /** Joining sequences does not depend on how they are grouped. */
  lemma ConcatAssoc<T>(a: seq<T>, b: seq<T>, c: seq<T>)
    ensures a + (b + c) == a + b + c
  {
  }

  // ---------------------------------------------------------------------------
  // Arithmetic facts about powers of two

  lemma MulNonNegative(a: int, b: int)
    requires a >= 0 && b >= 0
    ensures a * b >= 0
  {
  }

  lemma MulSmall(d: int, k: int)
    requires d > 0 && -d < d * k < d
    ensures k == 0
  {
    if k >= 1 {
      MulNonNegative(d, k - 1);
    } else if k <= -1 {
      MulNonNegative(d, -k - 1);
    }
  }

  /** Quotient and remainder are determined by x == d * q + r with 0 <= r < d. */
  lemma DivUnique(x: nat, d: nat, q: int, r: nat)
    requires 0 <= r < d && x == d * q + r
    ensures x / d == q && x % d == r
  {
    var q', r' := x / d, x % d;
    assert d * (q' - q) == r - r';
    MulSmall(d, q' - q);
  }

  lemma {:induction false} Pow2Add(a: nat, b: nat)
    ensures Pow2(a + b) == Pow2(a) * Pow2(b)
  {
    if b > 0 {
      Pow2Add(a, b - 1);
      calc {
        Pow2(a + b);
        2 * Pow2(a + b - 1);
        2 * (Pow2(a) * Pow2(b - 1));
        Pow2(a) * (2 * Pow2(b - 1));
      }
    }
  }

  lemma Pow2Values()
    ensures Pow2(8) == 0x100 && Pow2(16) == 0x1_0000 && Pow2(32) == 0x1_0000_0000
    ensures Pow2(64) == 0x1_0000_0000_0000_0000
  {
    assert Pow2(2) == 4;
    assert Pow2(4) == 16 by { Pow2Add(2, 2); }
    assert Pow2(8) == 0x100 by { Pow2Add(4, 4); }
    Pow2Add(8, 8);
    Pow2Add(16, 16);
    Pow2Add(32, 32);
  }

  lemma {:induction false} Pow2Monotone(a: nat, b: nat)
    requires a <= b
    ensures Pow2(a) <= Pow2(b)
  {
    if a < b {
      Pow2Monotone(a, b - 1);
    }
  }

  /** The step of Decompose, with every product spelled out. */
  lemma DecomposeStep(v: nat, bigP: int, p: int, bigS: int, h: int, bigL: int, l: int)
    requires bigP == 2 * p && bigS == h && bigL == 2 * l + v % 2 && v / 2 == p * h + l
    ensures v == bigP * bigS + bigL
  {
    assert bigP * bigS == 2 * (p * h);
  }

  /** v is its bits above position s followed by its low s bits. */
  lemma {:induction false} Decompose(v: nat, s: nat)
    ensures v == Pow2(s) * Shr(v, s) + Low(v, s)
  {
    if s > 0 {
      Decompose(v / 2, s - 1);
      DecomposeStep(v, Pow2(s), Pow2(s - 1), Shr(v, s), Shr(v / 2, s - 1), Low(v, s), Low(v / 2, s - 1));
    }
  }

  /** Truncating to s bits is taking the remainder by 2^s. */
  lemma LowMod(v: nat, s: nat)
    ensures v % Pow2(s) == Low(v, s)
  {
    Decompose(v, s);
    LowBound(v, s);
    DivUnique(v, Pow2(s), Shr(v, s), Low(v, s));
  }

  lemma {:induction false} LowBound(v: nat, s: nat)
    ensures Low(v, s) < Pow2(s)
  {
    if s > 0 {
      LowBound(v / 2, s - 1);
    }
  }

  /** Truncating to a bits after truncating to b >= a bits is truncating to a bits. */
  lemma {:induction false} LowLow(x: nat, a: nat, b: nat)
    requires a <= b
    ensures Low(Low(x, b), a) == Low(x, a)
  {
    if a > 0 {
      LowLow(x / 2, a - 1, b - 1);
    }
  }

  /** Shifting a truncated value right is truncating the shifted value. */
  lemma {:induction false} ShrLow(v: nat, m: nat, a: nat)
    requires m <= a
    ensures Shr(Low(v, a), m) == Low(Shr(v, m), a - m)
  {
    if m > 0 {
      ShrLow(v / 2, m - 1, a - 1);
    }
  }

  /** A value below 2^n shifted right by n is zero. */
  lemma {:induction false} ShrSmall(v: nat, n: nat)
    requires v < Pow2(n)
    ensures Shr(v, n) == 0
  {
    if n > 0 {
      ShrSmall(v / 2, n - 1);
    }
  }

  /** Shifting right never increases a value. */
  lemma {:induction false} ShrLe(v: nat, s: nat)
    ensures Shr(v, s) <= v
  {
    if s > 0 {
      ShrLe(v / 2, s - 1);
    }
  }

  lemma {:induction false} DivPow2(x: nat, a: nat, b: nat)
    ensures Shr(Shr(x, a), b) == Shr(x, a + b)
  {
    if a > 0 {
      DivPow2(x / 2, a - 1, b);
    }
  }

  /** Truncating to a narrower width after a wider one is truncating once. */
  lemma ModMod(x: nat, a: nat, b: nat)
    requires a <= b
    ensures x % Pow2(b) % Pow2(a) == x % Pow2(a)
  {
    LowMod(x, b);
    LowMod(x % Pow2(b), a);
    LowMod(x, a);
    LowLow(x, a, b);
  }

  /** Shifting a truncated value is truncating the shifted value. */
  lemma ShrMod(v: nat, m: nat, a: nat)
    requires m <= a
    ensures Shr(v % Pow2(a), m) == Shr(v, m) % Pow2(a - m)
  {
    LowMod(v, a);
    ShrLow(v, m, a);
    LowMod(Shr(v, m), a - m);
  }

  // ---------------------------------------------------------------------------
  // Bit patterns

  lemma {:induction false} FieldZero(n: nat)
    ensures Field(0, n) == Zeros(n)
  {
    if n > 0 {
      FieldZero(n - 1);
    }
  }

  /** The low a + b bits are the a bits above position b followed by the low b bits. */
  lemma {:induction false} FieldSplit(v: nat, a: nat, b: nat)
    ensures Field(v, a + b) == Field(Shr(v, b), a) + Field(v, b)
  {
    if b > 0 {
      var h := v / 2;
      FieldSplit(h, a, b - 1);
      assert Field(v, a + b) == Field(h, a + b - 1) + [v % 2 == 1];
      assert Field(v, b) == Field(h, b - 1) + [v % 2 == 1];
    }
  }

  lemma {:induction false} FieldLow(v: nat, m: nat, n: nat)
    requires n <= m
    ensures Field(Low(v, m), n) == Field(v, n)
  {
    if n > 0 {
      FieldLow(v / 2, m - 1, n - 1);
    }
  }

  /** Truncating to m bits does not change the low n <= m bits. */
  lemma FieldMod(v: nat, m: nat, n: nat)
    requires n <= m
    ensures Field(v % Pow2(m), n) == Field(v, n)
  {
    LowMod(v, m);
    FieldLow(v, m, n);
  }

  /** A value below 2^n has only zeros above its low n bits. */
  lemma FieldFits(v: nat, n: nat, a: nat)
    requires v < Pow2(n)
    ensures Field(v, a + n) == Zeros(a) + Field(v, n)
  {
    ShrSmall(v, n);
    FieldSplit(v, a, n);
    FieldZero(a);
  }

  /** Every bit set in v % 2^p is set in v. */
  lemma ModBitsSubset(v: nat, p: nat, n: nat, k: nat)
    requires k < n
    ensures Field(v % Pow2(p), n)[k] ==> Field(v, n)[k]
  {
    if n <= p {
      FieldMod(v, p, n);
    } else {
      var low := v % Pow2(p);
      LowMod(v, p);
      LowBound(v, p);
      ShrSmall(low, p);
      FieldSplit(low, n - p, p);
      FieldZero(n - p);
      assert Field(low, n) == Zeros(n - p) + Field(low, p);
      FieldSplit(v, n - p, p);
      FieldMod(v, p, p);
      assert Field(v, n) == Field(Shr(v, p), n - p) + Field(low, p);
    }
  }

  lemma {:induction false} FieldOr(a: nat, b: nat, n: nat)
    ensures Field(Or(a, b), n) == OrSeq(Field(a, n), Field(b, n))
  {
    if n > 0 {
      FieldOr(a / 2, b / 2, n - 1);
      if a == 0 && b == 0 {
        FieldZero(n);
        FieldZero(n - 1);
      }
    }
  }

  lemma {:induction false} OrBound(a: nat, b: nat, n: nat)
    requires a < Pow2(n) && b < Pow2(n)
    ensures Or(a, b) < Pow2(n)
  {
    if n > 0 && !(a == 0 && b == 0) {
      OrBound(a / 2, b / 2, n - 1);
    }
  }

  /** Or-ing bits that are already set changes nothing. */
  lemma Absorb(pre: seq<bool>, hi: seq<bool>, stray: seq<bool>)
    requires |stray| <= |hi|
    requires forall k :: 0 <= k < |stray| ==> stray[k] ==> hi[|hi| - |stray| + k]
    ensures OrSuffix(pre + hi, stray) == pre + hi
  {
  }

  // ---------------------------------------------------------------------------
  // Byte operations of the C code

  /** `(uint8_t)(x << s)`: shift left and keep the low byte. */
  function Shl8(x: nat, s: nat): uint8
    decreases s
  {
    if s == 0 then (x % 0x100) as uint8 else Shl8(2 * x, s - 1)
  }

  /** Shifting left by s <= 8 inside a byte drops the top s bits and fills with zeros. */
  lemma {:induction false} Shl8Field(x: nat, s: nat)
    requires s <= 8
    ensures Field(Shl8(x, s) as nat, 8) == Field(x, 8 - s) + Zeros(s)
    decreases s
  {
    if s == 0 {
      Pow2Values();
      FieldMod(x, 8, 8);
    } else {
      Shl8Field(2 * x, s - 1);
      assert Field(2 * x, 9 - s) == Field(x, 8 - s) + [false];
    }
  }

  /** `a | b` on bytes. */
  function Or8(a: uint8, b: uint8): uint8
  {
    Pow2Values();
    OrBound(a as nat, b as nat, 8);
    Or(a as nat, b as nat) as uint8
  }

  lemma Or8Field(a: uint8, b: uint8)
    ensures Field(Or8(a, b) as nat, 8) == OrSeq(Field(a as nat, 8), Field(b as nat, 8))
  {
    FieldOr(a as nat, b as nat, 8);
  }

  lemma OrSeqConcat(a: seq<bool>, b: seq<bool>, c: seq<bool>, d: seq<bool>)
    requires |a| == |c| && |b| == |d|
    ensures OrSeq(a + b, c + d) == OrSeq(a, c) + OrSeq(b, d)
  {
  }

  lemma OrZeros(a: seq<bool>)
    ensures OrSeq(a, Zeros(|a|)) == a && OrSeq(Zeros(|a|), a) == a
  {
  }
}
