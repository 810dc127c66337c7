/**
 * The bit stream of src/bitstream.c: a fixed-capacity byte buffer that bits
 * are appended to, most significant bit of each byte first.
 *
 * The abstract view of a stream is the sequence of bits written so far
 * (`content`); every write operation is specified by its effect on that
 * sequence.  bitstream_write_8 ORs the shifted data into the buffer without
 * masking it, so a data byte with bits set above its low `num_bits` also
 * sets bits that were already written: `Written` states that effect exactly,
 * and `WrittenFits` shows that it is a plain append whenever the data fits.
 */
module Bitstream {
  import opened BitSeq

  // ---------------------------------------------------------------------------
  // Bits of a byte buffer

  /** The bits of whole bytes, each byte most significant bit first. */
  function BytesBits(s: seq<uint8>): (r: seq<bool>)
    ensures |r| == 8 * |s|
  {
    if |s| == 0 then [] else BytesBits(s[..|s| - 1]) + Field(s[|s| - 1] as nat, 8)
  }

  /** Whether (byte, bit) is a cursor position inside a buffer of |s| bytes. */
  predicate Cursor(s: seq<uint8>, byteOff: nat, bitOff: nat)
  {
    bitOff < 8 && byteOff <= |s| && (byteOff == |s| ==> bitOff == 0)
  }

  /** The bits before the cursor: the whole bytes, then the top bitOff bits of the current byte. */
  function StreamBits(s: seq<uint8>, byteOff: nat, bitOff: nat): (r: seq<bool>)
    requires Cursor(s, byteOff, bitOff)
    ensures |r| == 8 * byteOff + bitOff
  {
    BytesBits(s[..byteOff]) + (if byteOff < |s| then Field(s[byteOff] as nat, 8)[..bitOff] else [])
  }

  /** Nothing has been written at or after the cursor. */
  predicate ZeroTail(s: seq<uint8>, byteOff: nat, bitOff: nat)
    requires Cursor(s, byteOff, bitOff)
  {
    (forall k :: byteOff < k < |s| ==> s[k] == 0) &&
    (byteOff < |s| ==> Field(s[byteOff] as nat, 8)[bitOff..] == Zeros(8 - bitOff))
  }

  /** The invariant of a stream: the cursor is in the buffer, size counts the bits before it, and nothing follows it. */
  predicate Consistent(s: seq<uint8>, byteOff: nat, bitOff: nat, size: nat)
  {
    Cursor(s, byteOff, bitOff) && size == 8 * byteOff + bitOff && ZeroTail(s, byteOff, bitOff)
  }

  /**
   * The effect of bitstream_write_8 on the written bits: the low n bits of d
   * are appended, and the bits of d above them are OR-ed into the last
   * |bits| % 8 bits already written (those sharing the current byte).
   */
  function Written8(bits: seq<bool>, d: nat, n: nat): (r: seq<bool>)
    requires n <= 8
    ensures |r| == |bits| + n
  {
    OrSuffix(bits, Field(Shr(d % 0x100, n), |bits| % 8)) + Field(d, n)
  }

  /**
   * The effect of every bitstream_write_N on the written bits, for N >= the
   * width of v: a write of at most 8 bits goes through bitstream_write_8 with
   * the low byte of v; a longer write appends exactly the low n bits of v.
   */
  function Written(bits: seq<bool>, v: nat, n: nat): (r: seq<bool>)
    ensures |r| == |bits| + n
  {
    if n <= 8 then Written8(bits, v % 0x100, n) else bits + Field(v, n)
  }

  // ---------------------------------------------------------------------------
  // Lemmas about the bits of a buffer

  /** k whole bytes end on a byte boundary (kept apart: it is nonlinear arithmetic). */
  lemma WholeBytes(k: nat)
    ensures (8 * k) % 8 == 0
  {
  }

  lemma BytesBitsSnoc(s: seq<uint8>, k: nat)
    requires k < |s|
    ensures BytesBits(s[..k + 1]) == BytesBits(s[..k]) + Field(s[k] as nat, 8)
  {
    assert s[..k + 1][..k] == s[..k];
  }

  /** While byte byteOff is being filled: the bytes before it, and the first bitOff bits of it. */
  lemma StreamBitsPartial(s: seq<uint8>, byteOff: nat, bitOff: nat)
    requires Cursor(s, byteOff, bitOff) && byteOff < |s|
    ensures StreamBits(s, byteOff, bitOff) == BytesBits(s[..byteOff]) + Field(s[byteOff] as nat, 8)[..bitOff]
  {
  }

  /** A written-bits view in which the current byte is complete. */
  lemma StreamBitsFull(s: seq<uint8>, byteOff: nat)
    requires byteOff < |s|
    ensures StreamBits(s, byteOff + 1, 0) == BytesBits(s[..byteOff]) + Field(s[byteOff] as nat, 8)
  {
    BytesBitsSnoc(s, byteOff);
  }

  lemma FieldPrefixZeros(x: seq<bool>, o: nat)
    requires |x| == 8 && o <= 8 && x[o..] == Zeros(8 - o)
    ensures x == x[..o] + Zeros(8 - o)
  {
    assert x == x[..o] + x[o..];
  }

  /** The part of a write of at most 8 bits that lands in the current byte. */
  lemma Written8Split(pre: seq<bool>, p: seq<bool>, d: nat, n: nat)
    requires |pre| % 8 == 0 && |p| < 8 && n <= 8 && d < 0x100
    ensures Written(pre + p, d, n) == pre + OrSeq(p, Field(Shr(d, n), |p|)) + Field(d, n)
  {
    assert d % 0x100 == d;
    var bits := pre + p;
    assert |bits| % 8 == |p|;
    assert bits[..|bits| - |p|] == pre;
    assert bits[|bits| - |p|..] == p;
    assert OrSuffix(bits, Field(Shr(d, n), |p|)) == pre + OrSeq(p, Field(Shr(d, n), |p|));
  }

  /** OR-ing into a byte whose low bits are still zero. */
  lemma OrIntoByte(p: seq<bool>, hi: seq<bool>, rest: seq<bool>)
    requires |p| == |hi| && |p| + |rest| == 8
    ensures OrSeq(p + Zeros(|rest|), hi + rest) == OrSeq(p, hi) + rest
  {
    OrSeqConcat(p, Zeros(|rest|), hi, rest);
    OrZeros(rest);
  }

  /** The current byte after bitstream_write_8 ORs d << (8 - n - o) into it. */
  lemma ByteAfterWithin(x: seq<bool>, o: nat, d: nat, n: nat)
    requires |x| == 8 && o + n <= 8 && x[o..] == Zeros(8 - o)
    ensures OrSeq(x, Field(d, n + o) + Zeros(8 - n - o)) ==
            OrSeq(x[..o], Field(Shr(d, n), o)) + Field(d, n) + Zeros(8 - n - o)
  {
    FieldPrefixZeros(x, o);
    FieldSplit(d, o, n);
    OrIntoByte(x[..o], Field(Shr(d, n), o), Field(d, n) + Zeros(8 - n - o));
  }

  /**
   * bitstream.c:47-58: the write fits in the current byte.  The byte is
   * OR-ed with d shifted to just below the bits already written (its new
   * bits are y); here the byte is not filled.
   */
  lemma WriteWithinByte(s: seq<uint8>, byteOff: nat, bitOff: nat, d: nat, n: nat, y: uint8, s': seq<uint8>)
    requires Cursor(s, byteOff, bitOff) && ZeroTail(s, byteOff, bitOff)
    requires byteOff < |s| && bitOff + n < 8 && d < 0x100
    requires Field(y as nat, 8) == OrSeq(Field(s[byteOff] as nat, 8), Field(d, n + bitOff) + Zeros(8 - n - bitOff))
    requires s' == s[byteOff := y]
    ensures Cursor(s', byteOff, bitOff + n) && ZeroTail(s', byteOff, bitOff + n)
    ensures StreamBits(s', byteOff, bitOff + n) == Written(StreamBits(s, byteOff, bitOff), d, n)
  {
    var o := bitOff;
    var p := Field(s[byteOff] as nat, 8)[..o];
    var hi := Field(Shr(d, n), o);
    var pre := BytesBits(s[..byteOff]);
    var z := Field(y as nat, 8);
    assert z == OrSeq(p, hi) + Field(d, n) + Zeros(8 - n - o) by {
      ByteAfterWithin(Field(s[byteOff] as nat, 8), o, d, n);
    }
    assert z[..o + n] == OrSeq(p, hi) + Field(d, n);
    assert z[o + n..] == Zeros(8 - (o + n));
    assert StreamBits(s', byteOff, o + n) == pre + z[..o + n] by {
      assert s'[..byteOff] == s[..byteOff];
      StreamBitsPartial(s', byteOff, o + n);
    }
    assert Written(StreamBits(s, byteOff, o), d, n) == pre + OrSeq(p, hi) + Field(d, n) by {
      StreamBitsPartial(s, byteOff, o);
      Pow2Values();
      WholeBytes(byteOff);
      Written8Split(pre, p, d, n);
    }
    ConcatAssoc(pre, OrSeq(p, hi), Field(d, n));
  }

  /** bitstream.c:47-58 when the write fills the current byte: the cursor moves to the next byte. */
  lemma WriteFillsByte(s: seq<uint8>, byteOff: nat, bitOff: nat, d: nat, n: nat, y: uint8, s': seq<uint8>)
    requires Cursor(s, byteOff, bitOff) && ZeroTail(s, byteOff, bitOff)
    requires byteOff < |s| && bitOff + n == 8 && d < 0x100
    requires Field(y as nat, 8) == OrSeq(Field(s[byteOff] as nat, 8), Field(d, n + bitOff) + Zeros(8 - n - bitOff))
    requires s' == s[byteOff := y]
    ensures Cursor(s', byteOff + 1, 0) && ZeroTail(s', byteOff + 1, 0)
    ensures StreamBits(s', byteOff + 1, 0) == Written(StreamBits(s, byteOff, bitOff), d, n)
  {
    var o := bitOff;
    var p := Field(s[byteOff] as nat, 8)[..o];
    var hi := Field(Shr(d, n), o);
    var pre := BytesBits(s[..byteOff]);
    var z := Field(y as nat, 8);
    assert z == OrSeq(p, hi) + Field(d, n) by {
      ByteAfterWithin(Field(s[byteOff] as nat, 8), o, d, n);
    }
    assert StreamBits(s', byteOff + 1, 0) == pre + z by {
      assert s'[..byteOff] == s[..byteOff];
      StreamBitsFull(s', byteOff);
    }
    assert Written(StreamBits(s, byteOff, o), d, n) == pre + OrSeq(p, hi) + Field(d, n) by {
      StreamBitsPartial(s, byteOff, o);
      Pow2Values();
      WholeBytes(byteOff);
      Written8Split(pre, p, d, n);
    }
    ConcatAssoc(pre, OrSeq(p, hi), Field(d, n));
    if byteOff + 1 < |s| {
      FieldZero(8);
    }
  }

  /** The current byte after bitstream_write_8 ORs d >> overlap into it. */
  lemma ByteAfterLeft(x: seq<bool>, o: nat, d: nat, n: nat)
    requires |x| == 8 && o < 8 && n <= 8 && 8 < o + n && d < 0x100
    requires x[o..] == Zeros(8 - o)
    ensures OrSeq(x, Field(Shr(d, o + n - 8), 8)) ==
            OrSeq(x[..o], Field(Shr(d, n), o)) + Field(Shr(d, o + n - 8), 8 - o)
  {
    var left := Shr(d, o + n - 8);
    FieldPrefixZeros(x, o);
    FieldSplit(left, o, 8 - o);
    DivPow2(d, o + n - 8, 8 - o);
    OrIntoByte(x[..o], Field(Shr(d, n), o), Field(left, 8 - o));
  }

  lemma StreamBitsTwoBytes(s: seq<uint8>, byteOff: nat, bitOff: nat)
    requires byteOff + 1 < |s| && bitOff < 8
    ensures StreamBits(s, byteOff + 1, bitOff) ==
            BytesBits(s[..byteOff]) + Field(s[byteOff] as nat, 8) + Field(s[byteOff + 1] as nat, 8)[..bitOff]
  {
    BytesBitsSnoc(s, byteOff);
    StreamBitsPartial(s, byteOff + 1, bitOff);
  }

  /**
   * bitstream.c:31-46: the write crosses into the next byte.  The current
   * byte is OR-ed with d >> overlap (its new bits are y1) and the next,
   * still empty, byte with d << (8 - overlap) (its new bits are y2).
   */
  lemma WriteAcrossBytes(s: seq<uint8>, byteOff: nat, bitOff: nat, d: nat, n: nat,
                         y1: uint8, y2: uint8, s2: seq<uint8>)
    requires Cursor(s, byteOff, bitOff) && ZeroTail(s, byteOff, bitOff)
    requires byteOff + 1 < |s| && 8 < bitOff + n && n <= 8 && d < 0x100
    requires Field(y1 as nat, 8) == OrSeq(Field(s[byteOff] as nat, 8), Field(Shr(d, bitOff + n - 8), 8))
    requires Field(y2 as nat, 8) ==
             OrSeq(Field(s[byteOff + 1] as nat, 8), Field(d, bitOff + n - 8) + Zeros(16 - bitOff - n))
    requires s2 == s[byteOff := y1][byteOff + 1 := y2]
    ensures Cursor(s2, byteOff + 1, bitOff + n - 8) && ZeroTail(s2, byteOff + 1, bitOff + n - 8)
    ensures StreamBits(s2, byteOff + 1, bitOff + n - 8) == Written(StreamBits(s, byteOff, bitOff), d, n)
  {
    var overlap := bitOff + n - 8;
    var low := Field(d, overlap);
    var pre := BytesBits(s[..byteOff]);
    var x := Field(s[byteOff] as nat, 8);
    assert Field(y2 as nat, 8) == low + Zeros(8 - overlap) by {
      assert s[byteOff + 1] == 0;
      FieldZero(8);
      OrZeros(low + Zeros(8 - overlap));
    }
    assert StreamBits(s2, byteOff + 1, overlap) == pre + Field(y1 as nat, 8) + Field(y2 as nat, 8)[..overlap] by {
      assert s2[..byteOff] == s[..byteOff];
      StreamBitsTwoBytes(s2, byteOff, overlap);
    }
    assert StreamBits(s, byteOff, bitOff) == pre + x[..bitOff] by {
      StreamBitsPartial(s, byteOff, bitOff);
    }
    WholeBytes(byteOff);
    AcrossBytesBits(pre, x, Field(y1 as nat, 8), Field(y2 as nat, 8), bitOff, d, n);
  }

  /** WriteAcrossBytes on the bits alone: pre are the whole bytes, x the cursor byte. */
  lemma AcrossBytesBits(pre: seq<bool>, x: seq<bool>, z1: seq<bool>, z2: seq<bool>, o: nat, d: nat, n: nat)
    requires |pre| % 8 == 0 && |x| == 8 && o < 8 && n <= 8 && 8 < o + n && d < 0x100
    requires x[o..] == Zeros(8 - o)
    requires z1 == OrSeq(x, Field(Shr(d, o + n - 8), 8))
    requires z2 == Field(d, o + n - 8) + Zeros(16 - o - n)
    ensures pre + z1 + z2[..o + n - 8] == Written(pre + x[..o], d, n)
  {
    var overlap := o + n - 8;
    var p := x[..o];
    var hi := Field(Shr(d, n), o);
    var mid := Field(Shr(d, overlap), 8 - o);
    var low := Field(d, overlap);
    assert z1 == OrSeq(p, hi) + mid by {
      ByteAfterLeft(x, o, d, n);
    }
    assert z2[..overlap] == low;
    assert Written(pre + p, d, n) == pre + OrSeq(p, hi) + Field(d, n) by {
      Written8Split(pre, p, d, n);
    }
    assert Field(d, n) == mid + low by {
      FieldSplit(d, 8 - o, overlap);
    }
    Regroup(pre, OrSeq(p, hi), mid, low, z1, z2, Field(d, n));
  }

  /** Regrouping the pieces of a write that crosses a byte boundary. */
  lemma Regroup(pre: seq<bool>, a: seq<bool>, mid: seq<bool>, low: seq<bool>, z1: seq<bool>, z2: seq<bool>, f: seq<bool>)
    requires z1 == a + mid && |low| <= |z2| && z2[..|low|] == low && f == mid + low
    ensures pre + z1 + z2[..|low|] == pre + a + f
  {
  }

  lemma OrSuffixZeros(bits: seq<bool>, k: nat)
    requires k <= |bits|
    ensures OrSuffix(bits, Zeros(k)) == bits
  {
    assert bits == bits[..|bits| - k] + bits[|bits| - k..];
    OrZeros(bits[|bits| - k..]);
  }

  /** When d fits in n bits, bitstream_write_8 appends exactly its n bits. */
  lemma WrittenFits(bits: seq<bool>, v: nat, n: nat)
    requires v < Pow2(n)
    ensures Written(bits, v, n) == bits + Field(v, n)
  {
    if n <= 8 {
      var k := |bits| % 8;
      assert k <= |bits|;
      assert v % 0x100 == v && v % 0x100 % 0x100 == v by {
        Pow2Values();
        Pow2Monotone(n, 8);
      }
      ShrSmall(v, n);
      FieldZero(k);
      OrSuffixZeros(bits, k);
    }
  }

  /**
   * The bits of the low byte of v above position m that bitstream_write_8
   * ORs into the current byte are already set there, when the bits of v
   * above position m have just been written (at least a byte of them).
   */
  lemma StrayAbsorbed(pre: seq<bool>, v: nat, h: nat, m: nat)
    requires 8 <= h && m <= 8
    ensures var bits := pre + Field(Shr(v, m), h);
            OrSuffix(bits, Field(Shr(v % 0x100, m), |bits| % 8)) == bits
  {
    var bits := pre + Field(Shr(v, m), h);
    var k := |bits| % 8;
    var high := Shr(v, m);
    var stray := Field(Shr(v % 0x100, m), k);
    var written := Field(high, h);
    assert stray == Field(high % Pow2(8 - m), k) by {
      Pow2Values();
      ShrMod(v, m, 8);
    }
    assert written[h - k..] == Field(high, k) by {
      FieldSplit(high, h - k, k);
    }
    forall i | 0 <= i < k && stray[i]
      ensures written[h - k + i]
    {
      ModBitsSubset(high, 8 - m, k, i);
    }
    Absorb(pre, written, stray);
  }

  /**
   * The second half of a split write: after the bits of v above position m
   * have been written (at least a byte of them), writing the low m bits of
   * v, truncated to w >= m bits, completes the low h + m bits of v.
   */
  lemma SplitWrite(pre: seq<bool>, v: nat, h: nat, m: nat, w: nat)
    requires 8 <= h && m <= w && 8 <= w
    ensures Written(pre + Field(Shr(v, m), h), v % Pow2(w), m) == pre + Field(v, h + m)
  {
    Pow2Values();
    FieldSplit(v, h, m);
    var written := Field(Shr(v, m), h);
    if m <= 8 {
      var bits := pre + written;
      var low := v % Pow2(w) % 0x100;
      ModMod(v, 8, w);
      ModMod(v, 8, 8);
      assert low % 0x100 == v % 0x100;
      FieldMod(v, 8, m);
      StrayAbsorbed(pre, v, h, m);
      assert Written(bits, v % Pow2(w), m) == bits + Field(low, m);
    } else {
      FieldMod(v, w, m);
    }
    ConcatAssoc(pre, written, Field(v, m));
  }

  /** Writing the top 8 bits of an n-bit value appends them unchanged. */
  lemma HighByte(bits: seq<bool>, v: nat, c: nat)
    ensures Written(bits, Shr(v, c) % 0x100, 8) == bits + Field(Shr(v, c), 8)
  {
    Pow2Values();
    WrittenFits(bits, Shr(v, c) % 0x100, 8);
    FieldMod(Shr(v, c), 8, 8);
  }

  /** Writing the top w bits (w = 16 or 32) of an n-bit value appends them unchanged. */
  lemma HighPart(bits: seq<bool>, v: nat, c: nat, w: nat)
    requires 8 < w
    ensures Written(bits, Shr(v, c) % Pow2(w), w) == bits + Field(Shr(v, c), w)
  {
    FieldMod(Shr(v, c), w, w);
  }

  /** WriteN with a value truncated to w >= n bits writes what it would write with the whole value. */
  lemma WrittenMod(bits: seq<bool>, v: nat, n: nat, w: nat)
    requires 8 <= w && n <= w
    ensures Written(bits, v % Pow2(w), n) == Written(bits, v, n)
  {
    Pow2Values();
    if n <= 8 {
      ModMod(v, 8, w);
    } else {
      FieldMod(v, w, n);
    }
  }

  /** A write of at most w bits (w = 8, 16, 32) goes through the narrower write with the value cast to w bits. */
  lemma NarrowWrite(bits: seq<bool>, v: nat, n: nat)
    ensures n <= 8 ==> Written(bits, v % 0x100, n) == Written(bits, v, n)
    ensures n <= 16 ==> Written(bits, v % 0x1_0000, n) == Written(bits, v, n)
    ensures n <= 32 ==> Written(bits, v % 0x1_0000_0000, n) == Written(bits, v, n)
  {
    Pow2Values();
    if n <= 8 {
      WrittenMod(bits, v, n, 8);
    }
    if n <= 16 {
      WrittenMod(bits, v, n, 16);
    }
    if n <= 32 {
      WrittenMod(bits, v, n, 32);
    }
  }

  /** bitstream.c:73-75: the high byte, then the remaining low bits, make up the n-bit write. */
  lemma Write16Steps(bits: seq<bool>, v: nat, n: nat)
    requires 8 < n <= 16
    ensures Written(Written(bits, Shr(v, n - 8) % 0x100, 8), v % 0x100, n - 8) == Written(bits, v, n)
  {
    var high := Written(bits, Shr(v, n - 8) % 0x100, 8);
    assert high == bits + Field(Shr(v, n - 8), 8) by {
      HighByte(bits, v, n - 8);
    }
    assert Written(high, v % 0x100, n - 8) == bits + Field(v, n) by {
      SplitWrite(bits, v, 8, n - 8, 8);
      Pow2Values();
    }
  }

  /** bitstream.c:89-91: the high 16 bits, then the remaining low bits, make up the n-bit write. */
  lemma Write32Steps(bits: seq<bool>, v: nat, n: nat)
    requires 16 < n <= 32
    ensures Written(Written(bits, Shr(v, n - 16) % 0x1_0000, 16), v % 0x1_0000, n - 16) == Written(bits, v, n)
  {
    var high := Written(bits, Shr(v, n - 16) % 0x1_0000, 16);
    assert high == bits + Field(Shr(v, n - 16), 16) by {
      HighPart(bits, v, n - 16, 16);
      Pow2Values();
    }
    assert Written(high, v % 0x1_0000, n - 16) == bits + Field(v, n) by {
      SplitWrite(bits, v, 16, n - 16, 16);
      Pow2Values();
    }
  }

  /** bitstream.c:105-107 with a 32-bit low half: the high 32 bits, then the remaining low bits. */
  lemma Write64Steps(bits: seq<bool>, v: nat, n: nat)
    requires 32 < n <= 64
    ensures Written(Written(bits, Shr(v, n - 32) % 0x1_0000_0000, 32), v % 0x1_0000_0000, n - 32) == Written(bits, v, n)
  {
    var high := Written(bits, Shr(v, n - 32) % 0x1_0000_0000, 32);
    assert high == bits + Field(Shr(v, n - 32), 32) by {
      HighPart(bits, v, n - 32, 32);
      Pow2Values();
    }
    assert Written(high, v % 0x1_0000_0000, n - 32) == bits + Field(v, n) by {
      SplitWrite(bits, v, 32, n - 32, 32);
      Pow2Values();
    }
  }

  /**
   * The effect of bitstream_write_64 as written (bitstream.c:94-108): up to
   * 32 bits it is one 32-bit write; beyond, the high 32 bits are written and
   * then the low part, cast to uint16_t (line 107).
   */
  function Written64AsWritten(bits: seq<bool>, v: nat, n: nat): (r: seq<bool>)
    requires n <= 64
    ensures |r| == |bits| + n
  {
    if n <= 32 then Written(bits, v % 0x1_0000_0000, n) else WrittenHalvesAsWritten(bits, v, n)
  }

  /** The two 32-bit writes of bitstream_write_64 beyond 32 bits, as written. */
  function WrittenHalvesAsWritten(bits: seq<bool>, v: nat, n: nat): (r: seq<bool>)
    requires 32 < n <= 64
    ensures |r| == |bits| + n
  {
    Written(Written(bits, Shr(v, n - 32) % 0x1_0000_0000, 32), v % 0x1_0000, n - 32)
  }

  /** Up to 48 bits, bitstream_write_64 as written is correct. */
  lemma Written64AsWrittenUpTo48(bits: seq<bool>, v: nat, n: nat)
    requires n <= 48
    ensures Written64AsWritten(bits, v, n) == Written(bits, v, n)
  {
    Pow2Values();
    if n <= 32 {
      WrittenMod(bits, v, n, 32);
    } else {
      HighPart(bits, v, n - 32, 32);
      SplitWrite(bits, v, 32, n - 32, 16);
    }
  }

  /**
   * Above 48 bits it loses the bits of the low half above bit 16: writing
   * 0x1_0000 in 49 bits appends only zeros after the first 32 bits, where
   * bit 16 of the value should appear.
   */
  lemma Written64AsWrittenLosesBits(bits: seq<bool>)
    ensures Written64AsWritten(bits, 0x1_0000, 49) != Written(bits, 0x1_0000, 49)
  {
    var v := 0x1_0000;
    Pow2Values();
    var hi := Field(Shr(v, 17), 32);
    HighPart(bits, v, 17, 32);
    FieldZero(17);
    assert Written64AsWritten(bits, v, 49) == bits + hi + Zeros(17);
    FieldSplit(v, 32, 17);
    assert Written(bits, v, 49) == bits + (hi + Field(v, 17));
    FieldSplit(v, 1, 16);
    assert Shr(v, 16) == 1 by {
      Decompose(v, 16);
      LowBound(v, 16);
    }
    assert Field(v, 17)[0];
    assert Written(bits, v, 49)[|bits| + 32];
    assert !Written64AsWritten(bits, v, 49)[|bits| + 32];
  }

  /** The characters dec_to_hex produces, indexed by digit value. */
  const HexDigits: string := "0123456789ABCDEF"

  /** bitstream.c:135-156: the upper-case hexadecimal digit of d. */
  function DecToHex(d: uint8): (c: char)
    requires d <= 15
    ensures c == HexDigits[d]
  {
    if d == 10 then 'A'
    else if d == 11 then 'B'
    else if d == 12 then 'C'
    else if d == 13 then 'D'
    else if d == 14 then 'E'
    else if d == 15 then 'F'
    else (d as int + '0' as int) as char
  }

  /** Distinct digits have distinct characters, so the hex dump can be read back. */
  lemma DecToHexInjective(d: uint8, e: uint8)
    requires d <= 15 && e <= 15 && d != e
    ensures DecToHex(d) != DecToHex(e)
  {
  }

  /**
   * bitstream_write_8 when the bits span two bytes, on the buffer's value:
   * OR-ing the bits above the overlap into the cursor byte and the overlap,
   * shifted to the top, into the next byte appends the write.
   */
  lemma SpanningWrite(s: seq<uint8>, byteOff: nat, bitOff: nat, d: uint8, n: nat, left: uint8, right: uint8)
    requires Cursor(s, byteOff, bitOff) && ZeroTail(s, byteOff, bitOff)
    requires byteOff + 1 < |s| && 8 < bitOff + n && n <= 8
    requires left as nat == Shr(d as nat, bitOff + n - 8) && right == Shl8(d as nat, 16 - bitOff - n)
    ensures var t := s[byteOff := Or8(s[byteOff], left)][byteOff + 1 := Or8(s[byteOff + 1], right)];
      Cursor(t, byteOff + 1, bitOff + n - 8) && ZeroTail(t, byteOff + 1, bitOff + n - 8) &&
      StreamBits(t, byteOff + 1, bitOff + n - 8) == Written(StreamBits(s, byteOff, bitOff), d as nat, n)
  {
    var y1, y2 := Or8(s[byteOff], left), Or8(s[byteOff + 1], right);
    Or8Field(s[byteOff], left);
    Or8Field(s[byteOff + 1], right);
    Shl8Field(d as nat, 16 - bitOff - n);
    WriteAcrossBytes(s, byteOff, bitOff, d as nat, n, y1, y2, s[byteOff := y1][byteOff + 1 := y2]);
  }

  /**
   * bitstream_write_8 when the bits fit in the cursor byte, on the buffer's
   * value: OR-ing them in, shifted against the bits already there, appends
   * the write; the cursor moves to the next byte when the byte is full.
   */
  lemma InByteWrite(s: seq<uint8>, byteOff: nat, bitOff: nat, d: uint8, n: nat, y: uint8)
    requires Cursor(s, byteOff, bitOff) && ZeroTail(s, byteOff, bitOff)
    requires byteOff < |s| && bitOff + n <= 8
    requires y == Shl8(d as nat, 8 - n - bitOff)
    ensures var t := s[byteOff := Or8(s[byteOff], y)];
      bitOff + n < 8 ==>
        Cursor(t, byteOff, bitOff + n) && ZeroTail(t, byteOff, bitOff + n) &&
        StreamBits(t, byteOff, bitOff + n) == Written(StreamBits(s, byteOff, bitOff), d as nat, n)
    ensures var t := s[byteOff := Or8(s[byteOff], y)];
      bitOff + n == 8 ==>
        Cursor(t, byteOff + 1, 0) && ZeroTail(t, byteOff + 1, 0) &&
        StreamBits(t, byteOff + 1, 0) == Written(StreamBits(s, byteOff, bitOff), d as nat, n)
  {
    var z := Or8(s[byteOff], y);
    Or8Field(s[byteOff], y);
    Shl8Field(d as nat, 8 - n - bitOff);
    if bitOff + n < 8 {
      WriteWithinByte(s, byteOff, bitOff, d as nat, n, z, s[byteOff := z]);
    } else {
      WriteFillsByte(s, byteOff, bitOff, d as nat, n, z, s[byteOff := z]);
    }
  }

  // ---------------------------------------------------------------------------
  // The stream

  /** bitstream_t: a zero-initialised buffer and the cursor after the last written bit. */
  class BitStream {
    const stream: array<uint8>
    var byteOffset: nat
    var bitOffset: nat
    var size: nat

    /** The bits written so far, in order. */
    ghost var content: seq<bool>

    ghost predicate Valid()
      reads this, stream
    {
      Consistent(stream[..], byteOffset, bitOffset, size) &&
      content == StreamBits(stream[..], byteOffset, bitOffset)
    }

    /**
     * What a write of n bits needs: the byte under the cursor exists (every
     * write ORs into it) and the n bits fit in the buffer, which never grows.
     */
    predicate HasRoom(n: nat)
      reads this, stream
    {
      size < 8 * stream.Length && size + n <= 8 * stream.Length
    }

    /** bitstream.c:7-16: a stream with room for initSize zero bytes and nothing written. */
    constructor (initSize: nat)
      ensures Valid() && content == []
      ensures stream.Length == initSize && fresh(stream)
    {
      stream := new uint8[initSize](_ => 0);
      byteOffset, bitOffset, size := 0, 0, 0;
      content := [];
      new;
      FieldZero(8);
    }

    /** bitstream.c:24-60: append the low numBits bits of data (see Written). */
    method Write8(data: uint8, numBits: nat)
      requires Valid() && numBits <= 8 && HasRoom(numBits)
      modifies this, stream
      ensures Valid()
      ensures size == old(size) + numBits
      ensures content == Written(old(content), data as nat, numBits)
    {
      if bitOffset + numBits > 8 {
        WriteSpanning(data, numBits);
      } else {
        WriteInByte(data, numBits);
      }
    }

    /** bitstream.c:32-46: the bits overlap into the next byte. */
    method WriteSpanning(data: uint8, numBits: nat)
      requires Valid() && numBits <= 8 && HasRoom(numBits) && bitOffset + numBits > 8
      modifies this, stream
      ensures Valid()
      ensures size == old(size) + numBits
      ensures content == Written(old(content), data as nat, numBits)
    {
      ghost var s := stream[..];
      ghost var b, o := byteOffset, bitOffset;
      var spaceLeft := 8 - bitOffset;
      var bitOverlap := numBits - spaceLeft;
      ShrLe(data as nat, bitOverlap);
      var leftByteBits := Shr(data as nat, bitOverlap) as uint8;
      var rightByteBits := Shl8(data as nat, 8 - bitOverlap);
      SpanningWrite(s, b, o, data, numBits, leftByteBits, rightByteBits);
      stream[byteOffset] := Or8(stream[byteOffset], leftByteBits);
      byteOffset := byteOffset + 1;
      stream[byteOffset] := Or8(stream[byteOffset], rightByteBits);
      bitOffset := bitOverlap;
      size := size + numBits;
      content := Written(content, data as nat, numBits);
      assert stream[..] == s[b := Or8(s[b], leftByteBits)][b + 1 := Or8(s[b + 1], rightByteBits)];
    }

    /** bitstream.c:47-58: the bits fit in the current byte, which they may fill. */
    method WriteInByte(data: uint8, numBits: nat)
      requires Valid() && numBits <= 8 && HasRoom(numBits) && bitOffset + numBits <= 8
      modifies this, stream
      ensures Valid()
      ensures size == old(size) + numBits
      ensures content == Written(old(content), data as nat, numBits)
    {
      ghost var s := stream[..];
      ghost var b, o := byteOffset, bitOffset;
      var bits := Shl8(data as nat, 8 - numBits - bitOffset);
      InByteWrite(s, b, o, data, numBits, bits);
      stream[byteOffset] := Or8(stream[byteOffset], bits);
      assert stream[..] == s[b := Or8(s[b], bits)];
      bitOffset := bitOffset + numBits;
      if bitOffset >= 8 {
        assert bitOffset == 8;  // the byte is full
        bitOffset := bitOffset % 8;
        byteOffset := byteOffset + 1;
      }
      size := size + numBits;
      content := Written(content, data as nat, numBits);
    }

    /** bitstream.c:62-76: append the low numBits bits of a 16-bit value, high byte first. */
    method Write16(bits: uint16, numBits: nat)
      requires Valid() && numBits <= 16 && HasRoom(numBits)
      modifies this, stream
      ensures Valid()
      ensures size == old(size) + numBits
      ensures content == Written(old(content), bits as nat, numBits)
    {
      ghost var c := content;
      ghost var target := Written(c, bits as nat, numBits);
      if numBits <= 8 {
        Write8((bits as nat % 0x100) as uint8, numBits);
        assert content == target by {
          NarrowWrite(c, bits as nat, numBits);
        }
      } else {
        var a := (Shr(bits as nat, numBits - 8) % 0x100) as uint8;
        Write8(a, 8);
        Write8((bits as nat % 0x100) as uint8, numBits - 8);
        assert content == target by {
          Write16Steps(c, bits as nat, numBits);
        }
      }
      // one fact per path, so that the final state need not be split by cases
      assert numBits <= 8 ==> content == target;
      assert numBits > 8 ==> content == target;
    }

    /** bitstream.c:78-92: append the low numBits bits of a 32-bit value, high 16 bits first. */
    method Write32(bits: uint32, numBits: nat)
      requires Valid() && numBits <= 32 && HasRoom(numBits)
      modifies this, stream
      ensures Valid()
      ensures size == old(size) + numBits
      ensures content == Written(old(content), bits as nat, numBits)
    {
      ghost var c := content;
      ghost var target := Written(c, bits as nat, numBits);
      if numBits <= 16 {
        Write16((bits as nat % 0x1_0000) as uint16, numBits);
        assert content == target by {
          NarrowWrite(c, bits as nat, numBits);
        }
      } else {
        var a := (Shr(bits as nat, numBits - 16) % 0x1_0000) as uint16;
        Write16(a, 16);
        Write16((bits as nat % 0x1_0000) as uint16, numBits - 16);
        assert content == target by {
          Write32Steps(c, bits as nat, numBits);
        }
      }
      // one fact per path, so that the final state need not be split by cases
      assert numBits <= 16 ==> content == target;
      assert numBits > 16 ==> content == target;
    }

    /**
     * bitstream.c:94-108 with the low half cast to uint32_t: append the low
     * numBits bits of a 64-bit value, high 32 bits first.
     */
    method Write64(bits: uint64, numBits: nat)
      requires Valid() && numBits <= 64 && HasRoom(numBits)
      modifies this, stream
      ensures Valid()
      ensures size == old(size) + numBits
      ensures content == Written(old(content), bits as nat, numBits)
    {
      ghost var c := content;
      ghost var target := Written(c, bits as nat, numBits);
      if numBits <= 32 {
        Write32((bits as nat % 0x1_0000_0000) as uint32, numBits);
        assert content == target by {
          NarrowWrite(c, bits as nat, numBits);
        }
      } else {
        var a := (Shr(bits as nat, numBits - 32) % 0x1_0000_0000) as uint32;
        Write32(a, 32);
        Write32((bits as nat % 0x1_0000_0000) as uint32, numBits - 32);
        assert content == target by {
          Write64Steps(c, bits as nat, numBits);
        }
      }
      // one fact per path, so that the final state need not be split by cases
      assert numBits <= 32 ==> content == target;
      assert numBits > 32 ==> content == target;
    }

    /** bitstream.c:94-108 as written: the low half is cast to uint16_t (line 107). */
    method Write64AsWritten(bits: uint64, numBits: nat)
      requires Valid() && numBits <= 64 && HasRoom(numBits)
      modifies this, stream
      ensures Valid()
      ensures size == old(size) + numBits
      ensures content == Written64AsWritten(old(content), bits as nat, numBits)
    {
      if numBits <= 32 {
        Write32((bits as nat % 0x1_0000_0000) as uint32, numBits);
      } else {
        WriteHalvesAsWritten(bits, numBits);
      }
    }

    /** bitstream.c:104-107: beyond 32 bits, the high 32 bits, then the low part cast to uint16_t. */
    method WriteHalvesAsWritten(bits: uint64, numBits: nat)
      requires Valid() && 32 < numBits <= 64 && HasRoom(numBits)
      modifies this, stream
      ensures Valid()
      ensures size == old(size) + numBits
      ensures content == WrittenHalvesAsWritten(old(content), bits as nat, numBits)
    {
      var a := (Shr(bits as nat, numBits - 32) % 0x1_0000_0000) as uint32;
      Write32(a, 32);
      Write32((bits as nat % 0x1_0000) as uint32, numBits - 32);
    }

    /** bitstream.c:183-186: the number of bits written. */
    function Size(): (r: nat)
      requires Valid()
      reads this, stream
      ensures r == |content|
    {
      size
    }

    /** bitstream.c:188-191: the number of whole bytes written. */
    function ByteOffset(): (r: nat)
      requires Valid()
      reads this, stream
      ensures r == |content| / 8
    {
      byteOffset
    }

    /** bitstream.c:193-196: the number of bits written into the current byte. */
    function BitOffset(): (r: nat)
      requires Valid()
      reads this, stream
      ensures r == |content| % 8
    {
      bitOffset
    }

    /** bitstream.c:198-204: the bit of the buffer at the cursor. */
    function ReadBit(): (r: uint8)
      requires byteOffset < stream.Length && bitOffset < 8
      reads this, stream
      ensures r <= 1
      ensures r == 1 <==> Field(stream[byteOffset] as nat, 8)[bitOffset]
    {
      var x := stream[byteOffset] as nat;
      FieldSplit(x, bitOffset + 1, 7 - bitOffset);
      (Shr(x, 7 - bitOffset) % 2) as uint8
    }

    /**
     * The cursor of a stream always sits after the written bits, and no
     * operation moves it back, so bitstream_read_bit reads a bit that has
     * not been written yet.
     */
    lemma ReadBitAfterWrites()
      requires Valid() && byteOffset < stream.Length
      ensures ReadBit() == 0
    {
      assert Field(stream[byteOffset] as nat, 8)[bitOffset..][0] == Zeros(8 - bitOffset)[0];
    }
  }
}
