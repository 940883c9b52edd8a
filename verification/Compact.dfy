/** The lossy compact encoding of targets (`nBits`): the byte-level encoder and decoder, their
    meaning on numbers, and the law that decoding an encoding rounds down to the nearest
    representable target. */
module Compact {
  import opened Arith
  import opened Words
  import opened Bytes

  // ---- meaning on numbers ----

  /** Number of bytes up to the most significant nonzero one. */
  function ByteLength(t: nat): (n: nat)
    ensures t < Pow256(n)
    ensures n > 0 ==> Pow256(n - 1) <= t
  {
    if t == 0 then 0 else 1 + ByteLength(t / 256)
  }

  /** The top three significant bytes, left-aligned when there are fewer. */
  function TopThree(t: nat): (m: nat)
    ensures m < 0x100_0000
  {
    var n := ByteLength(t);
    TopThreeBound(t);
    if n <= 3 then t * Pow256(3 - n) else t / Pow256(n - 3)
  }

  lemma TopThreeBound(t: nat)
    ensures var n := ByteLength(t);
            (if n <= 3 then t * Pow256(3 - n) else t / Pow256(n - 3)) < 0x100_0000
  {
    hide Pow256;
    var n := ByteLength(t);
    Pow256Values();
    if n <= 3 {
      Pow256Adds(n, 3 - n);
      MulMono(t + 1, Pow256(n), Pow256(3 - n));
      Distribute(t, 1, Pow256(3 - n));
    } else {
      Pow256Adds(3, n - 3);
      DivBound(t, Pow256(n - 3), 0x100_0000);
    }
  }

  /** The compact form: exponent byte over a 23-bit mantissa; a mantissa whose top bit would be
      set is shortened by a byte. */
  function CompactOf(t: u256): (bits: u32) {
    var n, m := ByteLength(t), TopThree(t);
    LengthBound(t);
    if n == 0 then 0
    else if m >= 0x80_0000 then (n + 1) * 0x100_0000 + m / 256
    else n * 0x100_0000 + m
  }

  lemma LengthBound(t: u256)
    ensures ByteLength(t) <= 32
  {
    Pow256Values();
    hide Pow256, ByteLength;
    var n := ByteLength(t);
    Pow256Mono(32, if n > 32 then n - 1 else 32);
  }

  /** The target a compact form expands to; bytes above the 32nd are dropped. */
  function ExpandOf(bits: u32): (t: u256) {
    var size, mantissa := bits / 0x100_0000, bits % 0x80_0000;
    if size <= 3
    then SmallExpansion(mantissa, Pow256(3 - size)); mantissa / Pow256(3 - size)
    else Wrap256(mantissa * Pow256(size - 3))
  }

  lemma SmallExpansion(m: nat, p: nat)
    requires p > 0
    ensures 0 <= m / p <= m
  {
    DivAnti(m, 1, p);
  }

  /** The target that survives a round trip through the compact form. */
  function Norm(t: u256): u256 { ExpandOf(CompactOf(t)) }

  // ---- rounding down ----

  /** Smallest number of low bytes to drop so that the rest fits in 23 bits. */
  function Scale(t: nat): (k: nat)
    ensures t / Pow256(k) < 0x80_0000
    ensures k > 0 ==> t >= 0x80_0000 * Pow256(k - 1)
    decreases t
  {
    if t < 0x80_0000 then
      0
    else
      var k := Scale(t / 256);
      DivDiv(t, 256, Pow256(k));
      ScaleStep(t, k);
      k + 1
  }

  lemma ScaleStep(t: nat, k: nat)
    requires t >= 0x80_0000 && (k > 0 ==> t / 256 >= 0x80_0000 * Pow256(k - 1))
    ensures t >= 0x80_0000 * Pow256(k)
  {
    if k > 0 {
      var p := Pow256(k - 1);
      DivMod(t, 256);
      MulMono(0x80_0000 * p, t / 256, 256);
      assert 0x80_0000 * Pow256(k) == 0x80_0000 * p * 256;
    } else {
      assert Pow256(0) == 1;
    }
  }

  lemma ScaleIs(t: nat, k: nat)
    requires t / Pow256(k) < 0x80_0000
    requires k > 0 ==> t >= 0x80_0000 * Pow256(k - 1)
    ensures Scale(t) == k
  {
    hide Pow256, Scale;
    var j := Scale(t);
    DivBound(t, Pow256(k), 0x80_0000);
    DivBound(t, Pow256(j), 0x80_0000);
    if j < k {
      Pow256Mono(j, k - 1);
    } else if k < j {
      Pow256Mono(k, j - 1);
    }
  }

  /** `t` with its low `k` bytes cleared. */
  function FloorTo(t: nat, k: nat): (f: nat)
    ensures f <= t
  {
    FloorBelow(t, Pow256(k));
    t / Pow256(k) * Pow256(k)
  }

  lemma FloorBelow(t: nat, p: nat)
    requires p > 0
    ensures 0 <= t / p * p <= t
  {
    DivMod(t, p);
    DivBound(t, p, 0);
    MulMono(0, t / p, p);
  }

  /** The round trip clears exactly the bytes that do not fit the mantissa. */
  lemma NormClearsLowBytes(t: u256)
    ensures Norm(t) == FloorTo(t, Scale(t))
  {
    hide Pow256, Scale, Wrap256;
    var n, m := ByteLength(t), TopThree(t);
    LengthBound(t);
    Pow256Values();
    if n == 0 {
      ScaleIs(t, 0);
      SmallExpansion(0, Pow256(3));
    } else if n <= 3 {
      NormOfShort(t);
    } else {
      NormOfLong(t);
    }
  }

  lemma NormOfShort(t: u256)
    requires 1 <= ByteLength(t) <= 3
    ensures Norm(t) == FloorTo(t, Scale(t))
  {
    Pow256Values();
    hide Pow256, Scale, Wrap256, ByteLength;
    var n, m := ByteLength(t), TopThree(t);
    if m < 0x80_0000 {
      ScaleIs(t, 0);
      SplitBits(n, m);
      QuotientIs(m, t, Pow256(3 - n), 0);
    } else if n <= 2 {
      ScaleIs(t, 0);
      SplitBits(n + 1, m / 256);
      ShortenTwice(t, m, n);
    } else {
      ScaleIs(t, 1);
      SplitBits(4, m / 256);
      DivMod(t, 256);
      WrapIs(t / 256 * 256, 0, t / 256 * 256);
    }
  }

  lemma ShortenTwice(t: nat, m: nat, n: nat)
    requires 1 <= n <= 2 && m == t * Pow256(3 - n)
    ensures m / 256 / Pow256(2 - n) == t
  {
    hide Pow256;
    Pow256Adds(1, 2 - n);
    Pow256Values();
    DivDiv(m, 256, Pow256(2 - n));
    QuotientIs(m, t, Pow256(3 - n), 0);
  }

  lemma NormOfLong(t: u256)
    requires ByteLength(t) > 3
    ensures Norm(t) == FloorTo(t, Scale(t))
  {
    LengthBound(t);
    Pow256Values();
    hide Pow256, Scale, Wrap256, ByteLength, ExpandOf;
    var n, m := ByteLength(t), TopThree(t);
    var k := if m < 0x80_0000 then n - 3 else n - 2;
    if m < 0x80_0000 {
      Pow256Adds(3, n - 4);
      ExpandLong(n, m);
    } else {
      DivBound(t, Pow256(n - 3), 0x80_0000);
      Pow256Adds(n - 3, 1);
      DivDiv(t, Pow256(n - 3), 256);
      ExpandLong(n + 1, m / 256);
    }
    ScaleIs(t, k);
    WrapIs(FloorTo(t, k), 0, FloorTo(t, k));
  }

  lemma ExpandLong(size: nat, mantissa: nat)
    requires mantissa < 0x80_0000 && 3 < size < 256
    ensures ExpandOf(size * 0x100_0000 + mantissa) == Wrap256(mantissa * Pow256(size - 3))
  {
    hide Wrap256, Pow256;
    SplitBits(size, mantissa);
  }

  lemma SplitBits(size: nat, mantissa: nat)
    requires mantissa < 0x80_0000 && size < 256
    ensures var bits := size * 0x100_0000 + mantissa;
            bits / 0x100_0000 == size && bits % 0x80_0000 == mantissa
  {}

  /** Every expansion is a 23-bit number times a power of 256. */
  lemma ExpansionShape(bits: u32) returns (m: nat, e: nat)
    ensures m < 0x80_0000 && ExpandOf(bits) == m * Pow256(e)
  {
    hide Wrap256, Pow256;
    Pow256Values();
    var size, mantissa := bits / 0x100_0000, bits % 0x80_0000;
    if size <= 3 {
      SmallExpansion(mantissa, Pow256(3 - size));
      m, e := mantissa / Pow256(3 - size), 0;
    } else if size <= 35 {
      e := size - 3;
      m := mantissa % Pow256(32 - e);
      WrapKeepsLow(mantissa, 32 - e, e);
    } else {
      m, e := 0, 0;
      WrapDropsHigh(mantissa, size - 35);
    }
  }

  lemma WrapKeepsLow(m: nat, k: nat, e: nat)
    requires k + e == 32
    ensures m % Pow256(k) <= m && Wrap256(m * Pow256(e)) == Pow256(e) * (m % Pow256(k))
  {
    Pow256Adds(k, e);
    Pow256Values();
    hide Wrap256, Pow256;
    WrapProduct(m, Pow256(k), Pow256(e));
  }

  lemma WrapProduct(m: nat, q: nat, p: nat)
    requires q > 0 && p > 0 && q * p == TWO_256
    ensures m % q <= m && Wrap256(m * p) == m % q * p
  {
    hide Wrap256;
    DivMod(m, q);
    MulMono(0, m / q, q);
    MulMono(0, m % q, p);
    MulMono(0, m, p);
    Distribute(m / q * q, m % q, p);
    MulAssoc(m / q, q, p);
    MulMono(m % q + 1, q, p);
    Distribute(m % q, 1, p);
    WrapIs(m * p, m / q, m % q * p);
  }

  lemma WrapDropsHigh(m: nat, e: nat)
    ensures Wrap256(m * Pow256(e + 32)) == 0
  {
    hide Wrap256, Pow256;
    Pow256Adds(e, 32);
    Pow256Values();
    MulAssoc(m, Pow256(e), TWO_256);
    MulMono(0, m, Pow256(e));
    WrapIs(m * Pow256(e + 32), m * Pow256(e), 0);
  }

  /** No compact form expands to 2^256 - 1, so the work of an expanded target always exists. */
  lemma ExpansionIsNeverMax(bits: u32)
    ensures ExpandOf(bits) != MAX_U256
  {
    var m, e := ExpansionShape(bits);
    hide ExpandOf;
    if e > 0 {
      MulAssoc(m, 256, Pow256(e - 1));
      assert m * Pow256(e) == 256 * (m * Pow256(e - 1));
    }
  }

  /** A representable value not above `t` is not above `t` with its low bytes cleared. */
  lemma FloorIsBest(t: nat, m: nat, e: nat)
    requires m < 0x80_0000 && m * Pow256(e) <= t
    ensures m * Pow256(e) <= FloorTo(t, Scale(t))
  {
    hide Pow256, Scale;
    var k := Scale(t);
    var p := Pow256(k);
    if e >= k {
      Pow256Adds(e - k, k);
      MulAssoc(m, Pow256(e - k), p);
      DivBound(t, p, m * Pow256(e - k));
      MulMono(m * Pow256(e - k), t / p, p);
    } else {
      Pow256Values();
      Pow256Adds(1, k - 1);
      Pow256Mono(e, k - 1);
      MulMono(m, 0x80_0000, Pow256(e));
      DivBound(t, p, 0x8000);
      MulMono(0x8000, t / p, p);
    }
  }

  /** Decoding an encoded target gives the largest representable target not above it. */
  lemma NormIsFloor(t: u256, bits: u32)
    ensures Norm(t) <= t
    ensures ExpandOf(bits) <= t ==> ExpandOf(bits) <= Norm(t)
  {
    hide *;
    NormClearsLowBytes(t);
    var m, e := ExpansionShape(bits);
    if ExpandOf(bits) <= t {
      FloorIsBest(t, m, e);
    }
  }

  lemma NormIsMonotone(a: u256, b: u256)
    requires a <= b
    ensures Norm(a) <= Norm(b)
  {
    hide CompactOf, ExpandOf;
    NormIsFloor(a, 0);
    NormIsFloor(b, CompactOf(a));
  }

  /** Normalised targets are the expansions, and normalising again changes nothing. */
  lemma NormFixesExpansions(t: u256, bits: u32)
    ensures Norm(ExpandOf(bits)) == ExpandOf(bits)
    ensures Norm(Norm(t)) == Norm(t)
  {
    hide CompactOf, ExpandOf;
    NormIsFloor(ExpandOf(bits), bits);
    NormIsFloor(Norm(t), CompactOf(t));
  }

  // ---- canonical forms ----

  /** Zero, or a mantissa without sign bit whose top nine bits are not all zero, at an exponent where
      expanding it drops nothing. */
  predicate Canonical(bits: u32) {
    var size, m := bits / 0x100_0000, bits % 0x100_0000;
    bits == 0 ||
    (&& 0x8000 <= m < 0x80_0000 && size >= 1
     && (if size <= 3 then m % Pow256(3 - size) == 0 else m * Pow256(size - 3) < TWO_256))
  }

  /** The encoder gives only canonical forms. */
  lemma CompactIsCanonical(t: u256)
    ensures Canonical(CompactOf(t))
  {
    LengthBound(t);
    hide ByteLength, Pow256, Canonical;
    var n, m := ByteLength(t), TopThree(t);
    if n == 0 {
      ZeroIsCanonical();
    } else {
      TopThreeLow(t);
      if n <= 3 {
        ShortForm(t, n, m);
      } else {
        LongForm(t, n, m);
      }
    }
  }

  lemma ZeroIsCanonical()
    ensures Canonical(0)
  {}

  /** The leading one of the top three bytes is nonzero. */
  lemma TopThreeLow(t: nat)
    requires ByteLength(t) > 0
    ensures TopThree(t) >= 0x1_0000
  {
    var n := ByteLength(t);
    hide Pow256, ByteLength;
    Pow256Values();
    if n <= 3 {
      Pow256Adds(n - 1, 3 - n);
      MulMono(Pow256(n - 1), t, Pow256(3 - n));
    } else {
      Pow256Adds(2, n - 3);
      DivBound(t, Pow256(n - 3), 0x1_0000);
    }
  }

  lemma ShortForm(t: u256, n: nat, m: nat)
    requires 1 <= n <= 3 && m == t * Pow256(3 - n) && 0x1_0000 <= m < 0x100_0000
    ensures m < 0x80_0000 ==> Canonical(n * 0x100_0000 + m)
    ensures m >= 0x80_0000 ==> Canonical((n + 1) * 0x100_0000 + m / 256)
  {
    hide Pow256, Canonical;
    Pow256Values();
    QuotientIs(m, t, Pow256(3 - n), 0);
    if m < 0x80_0000 {
      CanonicalForm(n, m);
    } else {
      if n <= 2 {
        Pow256Adds(1, 2 - n);
        MulAssoc(256, Pow256(2 - n), t);
        QuotientIs(m / 256, t, Pow256(2 - n), 0);
      }
      CanonicalForm(n + 1, m / 256);
    }
  }

  lemma LongForm(t: u256, n: nat, m: nat)
    requires 3 < n <= 32 && m == t / Pow256(n - 3) && 0x1_0000 <= m < 0x100_0000
    ensures m < 0x80_0000 ==> Canonical(n * 0x100_0000 + m)
    ensures m >= 0x80_0000 ==> Canonical((n + 1) * 0x100_0000 + m / 256)
  {
    hide Pow256, Canonical;
    FloorBelow(t, Pow256(n - 3));
    if m < 0x80_0000 {
      CanonicalForm(n, m);
    } else {
      Pow256Adds(n - 3, 1);
      Pow256Values();
      DivDiv(t, Pow256(n - 3), 256);
      FloorBelow(t, Pow256(n - 2));
      CanonicalForm(n + 1, m / 256);
    }
  }

  lemma CanonicalForm(size: nat, m: nat)
    requires 0x8000 <= m < 0x80_0000 && 1 <= size < 256
    requires if size <= 3 then m % Pow256(3 - size) == 0 else m * Pow256(size - 3) < TWO_256
    ensures Canonical(size * 0x100_0000 + m)
  {
    hide Pow256;
    SplitWhole(size, m);
  }

  lemma SplitWhole(size: nat, m: nat)
    requires m < 0x100_0000
    ensures var bits := size * 0x100_0000 + m; bits / 0x100_0000 == size && bits % 0x100_0000 == m
  {}

  /** A compact form is the encoding of its expansion exactly when it is canonical, so a target has
      one encoding among the forms that expand to what survives of it. */
  lemma CanonicalExactly(bits: u32)
    ensures CompactOf(ExpandOf(bits)) == bits <==> Canonical(bits)
  {
    hide CompactOf, ExpandOf, Canonical;
    CompactIsCanonical(ExpandOf(bits));
    if Canonical(bits) {
      CanonicalEncodes(bits);
    }
  }

  lemma CanonicalEncodes(bits: u32)
    requires Canonical(bits)
    ensures CompactOf(ExpandOf(bits)) == bits
  {
    hide Pow256, ByteLength, TopThree, Wrap256;
    Pow256Values();
    var size, m := bits / 0x100_0000, bits % 0x100_0000;
    SplitWhole(size, m);
    if bits == 0 {
      SmallExpansion(0, Pow256(3));
      ByteLengthIs(0, 0);
    } else {
      assert bits % 0x80_0000 == m by { SplitBits(size, m); }
      var t := ExpandOf(bits);
      if size <= 3 {
        ShortExpansion(size, m, t);
      } else {
        WrapIs(m * Pow256(size - 3), 0, m * Pow256(size - 3));
        LongExpansion(size, m, t);
      }
    }
  }

  /** Length and top bytes of a short canonical form's expansion. */
  lemma ShortExpansion(size: nat, m: nat, t: nat)
    requires 1 <= size <= 3 && 0x8000 <= m < 0x80_0000
    requires m % Pow256(3 - size) == 0 && t == m / Pow256(3 - size)
    ensures m >= 0x1_0000 ==> ByteLength(t) == size && TopThree(t) == m
    ensures m < 0x1_0000 ==> ByteLength(t) == size - 1 && TopThree(t) == m * 256
  {
    hide Pow256, ByteLength;
    Pow256Values();
    DivMod(m, Pow256(3 - size));
    ByteLengthIs(t, if m >= 0x1_0000 then size else size - 1);
  }

  lemma LongExpansion(size: nat, m: nat, t: nat)
    requires size > 3 && 0x8000 <= m < 0x80_0000 && t == m * Pow256(size - 3)
    ensures m >= 0x1_0000 ==> ByteLength(t) == size && TopThree(t) == m
    ensures m < 0x1_0000 ==> ByteLength(t) == size - 1 && TopThree(t) == m * 256
  {
    hide Pow256, ByteLength;
    Pow256Values();
    var p := Pow256(size - 3);
    if m >= 0x1_0000 {
      Pow256Adds(2, size - 3);
      Pow256Adds(3, size - 3);
      MulMono(0x1_0000, m, p);
      MulMono(m + 1, 0x100_0000, p);
      Distribute(m, 1, p);
      ByteLengthIs(t, size);
      QuotientIs(t, m, p, 0);
    } else {
      Pow256Adds(1, size - 3);
      Pow256Adds(2, size - 3);
      MulMono(0x100, m, p);
      MulMono(m + 1, 0x1_0000, p);
      Distribute(m, 1, p);
      ByteLengthIs(t, size - 1);
      if size == 4 {
        assert t == m * 256;
      } else {
        Pow256Adds(1, size - 4);
        MulAssoc(m, 256, Pow256(size - 4));
        QuotientIs(t, m * 256, Pow256(size - 4), 0);
      }
    }
  }

  // ---- the byte-level encoder and decoder ----

  /** `target_to_bits`. */
  method TargetToBits(target: Limbs) returns (bits: u32)
    ensures bits == CompactOf(Val(target))
  {
    hide *;
    ghost var t := Val(target);
    var bytes := ToLeBytes(target);
    BytesOf(t);
    var nbytes := 32;
    assert bytes[nbytes..] == [];
    while nbytes > 0 && bytes[nbytes - 1] == 0
      invariant 0 <= nbytes <= 32
      invariant forall i :: nbytes <= i < 32 ==> bytes[i] == 0
    {
      nbytes := nbytes - 1;
    }
    SignificantBytes(bytes, nbytes, t);
    if nbytes == 0 {
      CompactOfZero(t);
      return 0;
    }

    var compact: nat;
    if nbytes <= 3 {
      var value: nat := 0;
      EmptyTail(bytes[..nbytes]);
      for i := nbytes downto 0
        invariant value == LeNat(bytes[..nbytes][i..])
      {
        PrependByte(bytes[..nbytes], i);
        value := value * 256 + bytes[i];
      }
      assert bytes[..nbytes][0..] == bytes[..nbytes];
      compact := value * ShiftBytes(3 - nbytes);
      ShortCompact(bytes, nbytes, t, compact);
    } else {
      compact := ThreeBytes(bytes[nbytes - 1], bytes[nbytes - 2], bytes[nbytes - 3]);
      LongCompact(bytes, nbytes, t, compact);
    }

    bits := PackBits(t, nbytes, compact);
  }

  /** The tail of the encoder: move an occupied sign bit into the exponent. */
  method PackBits(ghost t: u256, nbytes: nat, compact: nat) returns (bits: u32)
    requires nbytes == ByteLength(t) > 0 && compact == TopThree(t)
    ensures bits == CompactOf(t)
  {
    hide Pow256, ByteLength, TopThree;
    LengthBound(t);
    var m, n := compact, nbytes;
    if m / 0x80_0000 % 2 != 0 {
      m := m / 256;
      n := n + 1;
    }
    bits := n * 0x100_0000 + m % 0x80_0000;
  }

  /** `1 << (8 * k)`. */
  function ShiftBytes(k: nat): (p: nat)
    requires k <= 3
    ensures p == Pow256(k)
  {
    Pow256Values();
    match k case 0 => 1 case 1 => 0x100 case 2 => 0x1_0000 case _ => 0x100_0000
  }

  lemma BytesOf(t: u256)
    ensures LeNat(LeBytes(t, 32)) == t
  {
    hide Pow256, LeBytes, LeNat;
    Pow256Values();
    LeRoundTrip(t, 32);
  }

  lemma SignificantBytes(bytes: Bytes32, n: nat, t: u256)
    requires LeNat(bytes) == t && n <= 32
    requires n > 0 ==> bytes[n - 1] != 0
    requires forall i :: n <= i < 32 ==> bytes[i] == 0
    ensures ByteLength(t) == n
    ensures LeNat(bytes[..n]) == t
  {
    hide Pow256, LeNat, ByteLength;
    LeNatZeros(bytes[n..]);
    LeNatSplit(bytes, n);
    LeNatBound(bytes[..n]);
    if n > 0 {
      LeNatSplit(bytes[..n], n - 1);
      assert bytes[..n][n - 1..] == [bytes[n - 1]];
      SingleByte(bytes[n - 1]);
      MulMono(1, bytes[n - 1], Pow256(n - 1));
    }
    ByteLengthIs(t, n);
  }

  lemma SingleByte(b: u8)
    ensures LeNat([b]) == b
  {}

  lemma ByteLengthIs(t: nat, n: nat)
    requires t < Pow256(n) && (n > 0 ==> Pow256(n - 1) <= t)
    ensures ByteLength(t) == n
  {
    hide Pow256, ByteLength;
    var k := ByteLength(t);
    if k < n {
      Pow256Mono(k, n - 1);
    } else if n < k {
      Pow256Mono(n, k - 1);
    }
  }

  lemma CompactOfZero(t: u256)
    requires ByteLength(t) == 0
    ensures CompactOf(t) == 0
  {}

  lemma EmptyTail(b: seq<u8>)
    ensures LeNat(b[|b|..]) == 0
  {}

  lemma PrependByte(b: seq<u8>, i: nat)
    requires i < |b|
    ensures LeNat(b[i..]) == 256 * LeNat(b[i + 1..]) + b[i]
  {
    assert b[i..][1..] == b[i + 1..];
  }

  lemma ShortCompact(bytes: Bytes32, n: nat, t: u256, compact: nat)
    requires n == ByteLength(t) <= 3 && LeNat(bytes[..n]) == t
    requires compact == LeNat(bytes[..n]) * Pow256(3 - n)
    ensures compact == TopThree(t)
  {}

  lemma LongCompact(bytes: Bytes32, n: nat, t: u256, compact: nat)
    requires n == ByteLength(t) && 3 < n <= 32 && LeNat(bytes[..n]) == t
    requires compact == ThreeBytes(bytes[n - 1], bytes[n - 2], bytes[n - 3])
    ensures compact == TopThree(t)
  {
    hide Pow256, ByteLength, LeNat;
    LeNatSplit(bytes[..n], n - 3);
    var top := bytes[..n][n - 3..];
    assert top == [bytes[n - 3], bytes[n - 2], bytes[n - 1]];
    ThreeBytesValue(bytes[n - 3], bytes[n - 2], bytes[n - 1]);
  }

  /** `(a << 16) | (b << 8) | c`. */
  function ThreeBytes(a: nat, b: nat, c: nat): nat {
    a * 0x1_0000 + b * 0x100 + c
  }

  lemma ThreeBytesValue(a: u8, b: u8, c: u8)
    ensures LeNat([a, b, c]) == ThreeBytes(c, b, a)
  {
    assert [a, b, c][1..] == [b, c] && [b, c][1..] == [c];
    assert LeNat([c]) == c;
  }

  lemma SmallBytes(b: Bytes32, value: u32)
    requires b[..4] == LeBytes(value, 4)
    requires forall i :: 4 <= i < 32 ==> b[i] == 0
    ensures LeNat(b) == value
  {
    hide Pow256, LeNat, LeBytes;
    Pow256Values();
    LeNatSplit(b, 4);
    LeNatZeros(b[4..]);
    LeRoundTrip(value, 4);
  }

  /** The mantissa bytes sit at `offset` and above; everything else is zero. */
  ghost predicate Placed(b: Bytes32, offset: nat, m: nat) {
    forall i :: 0 <= i < 32 ==>
      b[i] == if i == offset then m % 0x100
              else if i == offset + 1 then m / 0x100 % 0x100
              else if i == offset + 2 then m / 0x1_0000 % 0x100
              else 0
  }

  lemma PlacedBytes(b: Bytes32, offset: nat, m: nat)
    requires Placed(b, offset, m) && m < 0x80_0000
    ensures LeNat(b) == Wrap256(m * Pow256(offset))
  {
    hide *;
    if offset >= 32 {
      AllZero(b, offset, m);
      WrapDropsHigh(m, offset - 32);
    } else {
      LeNatSplit(b, offset);
      ZeroBelow(b, offset, m);
      PlacedTail(b, offset, m);
      WrapKeepsLow(m, 32 - offset, offset);
    }
  }

  lemma AllZero(b: Bytes32, offset: nat, m: nat)
    requires Placed(b, offset, m) && offset >= 32
    ensures LeNat(b) == 0
  {
    hide LeNat;
    LeNatZeros(b);
  }

  lemma ZeroBelow(b: Bytes32, offset: nat, m: nat)
    requires Placed(b, offset, m) && offset < 32
    ensures LeNat(b[..offset]) == 0
  {
    hide LeNat;
    LeNatZeros(b[..offset]);
  }

  lemma PlacedTail(b: Bytes32, offset: nat, m: nat)
    requires Placed(b, offset, m) && m < 0x80_0000 && offset < 32
    ensures LeNat(b[offset..]) == m % Pow256(32 - offset)
  {
    hide Pow256, LeNat, ThreeBytes;
    Pow256Values();
    MantissaBytes(m);
    var tail := b[offset..];
    if offset == 31 {
      assert tail == [m % 0x100];
      SingleByte(m % 0x100);
    } else if offset == 30 {
      assert tail == [m % 0x100, m / 0x100 % 0x100];
      TwoBytes(m % 0x100, m / 0x100 % 0x100);
    } else {
      LeNatSplit(tail, 3);
      assert tail[..3] == [m % 0x100, m / 0x100 % 0x100, m / 0x1_0000 % 0x100];
      ThreeBytesValue(m % 0x100, m / 0x100 % 0x100, m / 0x1_0000 % 0x100);
      LeNatZeros(tail[3..]);
      Pow256Mono(3, 32 - offset);
      SmallRemainder(m, Pow256(32 - offset));
    }
  }

  lemma MantissaBytes(m: nat)
    requires m < 0x80_0000
    ensures ThreeBytes(m / 0x1_0000 % 0x100, m / 0x100 % 0x100, m % 0x100) == m
    ensures ThreeBytes(0, m / 0x100 % 0x100, m % 0x100) == m % 0x1_0000
  {
    DivDiv(m, 0x100, 0x100);
    BytePairs(m / 0x1_0000, m / 0x100 % 0x100, m % 0x100, m);
  }

  lemma BytePairs(a: nat, b: nat, c: nat, m: nat)
    requires a < 0x80 && b < 0x100 && c < 0x100 && m == ThreeBytes(a, b, c)
    ensures a % 0x100 == a && m % 0x1_0000 == ThreeBytes(0, b, c)
  {}

  lemma SmallRemainder(m: nat, p: nat)
    requires m < p
    ensures m % p == m
  {
    QuotientIs(m, 0, p, m);
  }

  lemma TwoBytes(a: u8, b: u8)
    ensures LeNat([a, b]) == ThreeBytes(0, b, a)
  {
    assert [a, b][1..] == [b];
    SingleByte(b);
  }

  /** The three mantissa bytes written at their place, those past the end lost. */
  method PlaceMantissa(bytes: array<u8>, offset: nat, mantissa: nat)
    requires bytes.Length == 32 && forall i :: 0 <= i < 32 ==> bytes[i] == 0
    modifies bytes
    ensures Placed(bytes[..], offset, mantissa)
  {
    if offset < 32 {
      bytes[offset] := mantissa % 0x100;
    }
    if offset + 1 < 32 {
      bytes[offset + 1] := mantissa / 0x100 % 0x100;
    }
    if offset + 2 < 32 {
      bytes[offset + 2] := mantissa / 0x1_0000 % 0x100;
    }
  }

  /** `target_from_bits`. */
  method TargetFromBits(bits: u32) returns (target: Limbs)
    ensures Val(target) == ExpandOf(bits)
  {
    hide LeNat, LeBytes, Pow256, Wrap256, Placed, Val;
    var size, mantissa := bits / 0x100_0000, bits % 0x80_0000;
    var bytes := new u8[32](_ => 0);
    if size <= 3 {
      SmallExpansion(mantissa, Pow256(3 - size));
      var value: u32 := mantissa / ShiftBytes(3 - size);
      CopyAt(bytes, 0, LeBytes(value, 4));
      SmallBytes(bytes[..], value);
    } else {
      PlaceMantissa(bytes, size - 3, mantissa);
      PlacedBytes(bytes[..], size - 3, mantissa);
    }
    target := FromLeBytes(bytes[..]);
  }
}
