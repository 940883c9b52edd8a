/** Proof-of-work units of a target: the bit-serial long division of `work_from_target`. */
module Work {
  import opened Arith
  import opened Words
  import opened LimbArithmetic

  datatype Result<+T, +E> = Ok(value: T) | Err(error: E)

  datatype TargetError = TargetTooLarge

  /** Expected hashes per block at a target: floor(2^256 / (target + 1)), kept to 256 bits. */
  function WorkOf(target: u256): (w: u256) {
    Wrap256(TWO_256 / (target + 1))
  }

  /** The stored work is the exact quotient for every target but 0, whose quotient 2^256 needs a
      257th bit and is stored as 0. */
  lemma WorkIsExactUnlessZero(target: u256)
    ensures target > 0 ==> WorkOf(target) == TWO_256 / (target + 1) > 0
    ensures target == 0 ==> WorkOf(target) == 0 && TWO_256 / (target + 1) == TWO_256
  {
    hide Wrap256;
    if target > 0 {
      DivBound(TWO_256, target + 1, 1);
      DivAnti(TWO_256, 2, target + 1);
      WrapIs(TWO_256 / (target + 1), 0, TWO_256 / (target + 1));
    } else {
      WrapIs(TWO_256, 1, 0);
    }
  }

  /** A larger target is easier: among positive targets work never grows with the target. */
  lemma WorkIsAntitone(low: u256, high: u256)
    requires 0 < low <= high
    ensures WorkOf(high) <= WorkOf(low)
  {
    WorkIsExactUnlessZero(low);
    WorkIsExactUnlessZero(high);
    hide WorkOf;
    DivAnti(TWO_256, low + 1, high + 1);
  }

  function Pow2(k: nat): (p: nat)
    ensures p > 0
  {
    if k == 0 then 1 else 2 * Pow2(k - 1)
  }

  lemma {:induction false} PowAdds(a: nat, b: nat)
    ensures Pow2(a + b) == Pow2(a) * Pow2(b)
  {
    if a == 0 {
    } else {
      PowAdds(a - 1, b);
      assert Pow2(a) * Pow2(b) == 2 * (Pow2(a - 1) * Pow2(b));
    }
  }

  lemma PowWord()
    ensures Pow2(64) == TWO_64 && Pow2(256) == TWO_256
    ensures Pow2(128) == 0x1_0000_0000_0000_0000_0000_0000_0000_0000
    ensures Pow2(192) == 0x1_0000_0000_0000_0000_0000_0000_0000_0000_0000_0000_0000_0000
  {
    assert Pow2(8) == 0x100;
    hide Pow2;
    PowSquares(8, 0x100);
    PowSquares(16, 0x1_0000);
    PowSquares(32, 0x1_0000_0000);
    PowSquares(64, 0x1_0000_0000_0000_0000);
    PowSquares(128, 0x1_0000_0000_0000_0000_0000_0000_0000_0000);
    PowAdds(64, 128);
  }

  lemma PowSquares(k: nat, p: nat)
    requires Pow2(k) == p
    ensures Pow2(2 * k) == p * p
  {
    PowAdds(k, k);
  }

  // ---- single bits of a word ----

  predicate BitSet(x: u64, k: nat)
    requires k < 64
  {
    x / Pow2(k) % 2 == 1
  }

  /** `x | (1 << k)`. */
  function SetBit(x: u64, k: nat): (r: u64)
    requires k < 64
  {
    if BitSet(x, k) then x else SetBitFits(x, k); x + Pow2(k)
  }

  lemma SetBitFits(x: u64, k: nat)
    requires k < 64 && !BitSet(x, k)
    ensures x + Pow2(k) < 0x1_0000_0000_0000_0000
  {
    PowWord();
    PowAdds(k + 1, 63 - k);
    BitRoom(x, Pow2(k), Pow2(63 - k));
  }

  lemma BitRoom(x: nat, p: nat, q: nat)
    requires p > 0 && x / p % 2 == 0 && x < 2 * p * q
    ensures x + p < 2 * p * q
  {
    DivMod(x, p);
    var c := x / p / 2;
    assert x / p == 2 * c;
    MulAssoc(2, c, p);
    assert x < 2 * (c * p) + p && 2 * (c * p) <= x;
    if c >= q {
      MulMono(q, c, p);
      MulAssoc(2, p, q);
      assert false;
    }
    MulMono(c + 1, q, p);
    Distribute(c, 1, p);
    MulAssoc(2, p, q);
    assert p * q == q * p;
  }

  /** Every bit of the limbs below position `bit` is zero. */
  ghost predicate ClearBelow(s: Limbs, bit: nat) {
    forall j :: 0 <= j < 4 ==> LimbClear(s[j], j, bit)
  }

  ghost predicate LimbClear(x: u64, j: nat, bit: nat) {
    && (64 * j + 64 <= bit ==> x == 0)
    && (64 * j < bit < 64 * j + 64 ==> x % Pow2(bit - 64 * j) == 0)
  }

  lemma HalfMultiple(x: nat, k: nat)
    requires x % Pow2(k + 1) == 0
    ensures x % Pow2(k) == 0
    ensures x / Pow2(k) % 2 == 0
    ensures (x + Pow2(k)) % Pow2(k) == 0
  {
    HalfMultipleOf(x, Pow2(k));
  }

  lemma HalfMultipleOf(x: nat, p: nat)
    requires p > 0 && x % (2 * p) == 0
    ensures x % p == 0 && x / p % 2 == 0 && (x + p) % p == 0
  {
    var c := x / (2 * p);
    DivMod(x, 2 * p);
    assert x == c * (2 * p) == 2 * c * p;
    QuotientIs(x, 2 * c, p, 0);
    Distribute(2 * c, 1, p);
    QuotientIs(x + p, 2 * c + 1, p, 0);
  }

  lemma LimbStaysClear(x: u64, j: nat, bit: nat)
    requires LimbClear(x, j, bit + 1)
    ensures LimbClear(x, j, bit)
  {
    if 64 * j < bit < 64 * j + 64 {
      if bit == 64 * j + 63 {
        QuotientIs(0, 0, Pow2(63), 0);
      } else {
        HalfMultiple(x, bit - 64 * j);
      }
    }
  }

  lemma StaysClear(s: Limbs, bit: nat)
    requires ClearBelow(s, bit + 1)
    ensures ClearBelow(s, bit)
  {
    forall j | 0 <= j < 4 ensures LimbClear(s[j], j, bit) {
      LimbStaysClear(s[j], j, bit);
    }
  }

  /** `quotient[bit / 64] |= 1 << (bit % 64)`, where no bit that low was set before. */
  method SetQuotientBit(quotient: array<u64>, bit: nat)
    requires quotient.Length == 4 && bit < 256
    requires ClearBelow(quotient[..], bit + 1)
    modifies quotient
    ensures ClearBelow(quotient[..], bit)
    ensures Val(quotient[..]) == old(Val(quotient[..])) + Pow2(bit)
  {
    ghost var s: Limbs := quotient[..];
    var i, k := bit / 64, bit % 64;
    quotient[i] := SetBit(quotient[i], k);
    ghost var t: Limbs := quotient[..];
    SetBitValue(s, t, i, k);
  }

  lemma SetBitValue(s: Limbs, t: Limbs, i: nat, k: nat)
    requires i < 4 && k < 64 && ClearBelow(s, 64 * i + k + 1)
    requires t == s[i := SetBit(s[i], k)]
    ensures ClearBelow(t, 64 * i + k)
    ensures Val(t) == Val(s) + Pow2(64 * i + k)
  {
    hide Pow2, SetBit, Val;
    SetLimbClear(s[i], i, k);
    forall j | 0 <= j < 4 ensures LimbClear(t[j], j, 64 * i + k) {
      if j != i {
        LimbStaysClear(s[j], j, 64 * i + k);
      }
    }
    PowAdds(64 * i, k);
    PowWord();
    LimbBump(s, t, i, Pow2(k));
    PowZero();
  }

  lemma PowZero()
    ensures Pow2(0) == 1
  {}

  lemma SetLimbClear(x: u64, i: nat, k: nat)
    requires k < 64 && LimbClear(x, i, 64 * i + k + 1)
    ensures SetBit(x, k) == x + Pow2(k) as int
    ensures LimbClear(SetBit(x, k), i, 64 * i + k)
  {
    hide Pow2;
    if k == 63 {
      QuotientIs(0, 0, Pow2(64), 0);
    }
    HalfMultiple(x, k);
  }

  lemma LimbBump(s: Limbs, t: Limbs, i: nat, p: nat)
    requires i < 4 && t == s[i := t[i]] && t[i] == p + s[i]
    ensures Val(t) == Val(s) + p * [1, 0x1_0000_0000_0000_0000, 0x1_0000_0000_0000_0000_0000_0000_0000_0000,
                                    0x1_0000_0000_0000_0000_0000_0000_0000_0000_0000_0000_0000_0000][i]
  {
    if i == 0 {
    } else if i == 1 {
    } else if i == 2 {
    } else {
    }
  }

  // ---- the division ----

  /** The dividend 2^256 with its low `bit` bits cut off. */
  function Prefix(bit: nat): nat
    requires bit <= 257
  {
    if bit == 257 then 0 else Pow2(256 - bit)
  }

  /** `q << bit`. */
  function Shifted(q: nat, bit: nat): nat {
    MulMono(0, q, Pow2(bit));
    q * Pow2(bit)
  }

  /** Quotient so far `q`, remainder `rem`, and the bits of `q` already stored. */
  ghost predicate Dividing(q: nat, d: nat, rem: nat, stored: u256, bit: nat)
    requires bit <= 257
  {
    && q * d + rem == Prefix(bit)
    && rem < d
    && stored == Wrap256(Shifted(q, bit))
  }

  /** One bit of the division, on numbers: what the loop does to the remainder and to the stored
      quotient keeps the division identity. */
  lemma DivideStep(q: nat, d: nat, rem: nat, stored: u256, bit: nat, rem': nat, stored': u256, b: nat)
    requires bit <= 256 && Dividing(q, d, rem, stored, bit + 1)
    requires b == QuotientBit(rem, d, bit)
    requires rem' == 2 * rem + Injected(bit) - b * d
    requires stored' == stored + (if bit < 256 then b * Pow2(bit) else 0)
    ensures Dividing(2 * q + b, d, rem', stored', bit)
  {
    PrefixStep(bit);
    DivisionInts(q, d, rem, Prefix(bit + 1), Injected(bit), b);
    StoredStep(q, d, rem, stored, bit, stored', b);
  }

  /** Bit 256 is the only one bit of the dividend. */
  function Injected(bit: nat): nat { if bit == 256 then 1 else 0 }

  /** The next bit of the quotient. */
  function QuotientBit(rem: nat, d: nat, bit: nat): (b: nat) {
    if 2 * rem + Injected(bit) >= d then 1 else 0
  }

  lemma StoredStep(q: nat, d: nat, rem: nat, stored: u256, bit: nat, stored': u256, b: nat)
    requires bit <= 256 && b <= 1 && Dividing(q, d, rem, stored, bit + 1)
    requires stored' == stored + (if bit < 256 then b * Pow2(bit) else 0)
    ensures stored' == Wrap256(Shifted(2 * q + b, bit))
  {
    hide Pow2, Wrap256, Prefix;
    PowStep(bit);
    ShiftedProduct(q, b, Pow2(bit));
    if bit == 256 {
      MulMono(0, q, d);
      NothingBefore(q, d, rem, bit);
      if q > 0 {
        MulMono(1, q, d);
        assert false;
      }
      PowWord();
      WrapIs(0, 0, 0);
      WrapIs(b * TWO_256, b, 0);
    } else {
      WrapAdds(2 * (q * Pow2(bit)), b * Pow2(bit));
    }
  }

  lemma PowStep(k: nat)
    ensures Pow2(k + 1) == 2 * Pow2(k)
  {}

  lemma ShiftedProduct(q: nat, b: nat, p: nat)
    ensures q * (2 * p) == 2 * (q * p)
    ensures (2 * q + b) * p == 2 * (q * p) + b * p
    ensures q * p >= 0 && b * p >= 0
  {
    MulMono(0, q, p);
    MulMono(0, b, p);
  }

  lemma PrefixStep(bit: nat)
    requires bit <= 256
    ensures Prefix(bit) == 2 * Prefix(bit + 1) + Injected(bit)
  {}

  /** The integer core of one step. */
  lemma DivisionInts(q: nat, d: nat, rem: nat, prefix: nat, inj: nat, b: nat)
    requires q * d + rem == prefix && rem < d && inj <= 1
    requires b == if 2 * rem + inj >= d then 1 else 0
    ensures (2 * q + b) * d + (2 * rem + inj - b * d) == 2 * prefix + inj
    ensures 0 <= 2 * rem + inj - b * d < d
  {
    Distribute(2 * q, b, d);
    MulAssoc(2, q, d);
  }

  lemma WrapAdds(x: nat, y: nat)
    requires Wrap256(x) + y < TWO_256
    ensures Wrap256(x + y) == Wrap256(x) + y
  {
    var q := x / 0x1_0000_0000_0000_0000_0000_0000_0000_0000_0000_0000_0000_0000_0000_0000_0000_0000;
    WrapIs(x + y, q, Wrap256(x) + y);
  }

  lemma DivideDone(q: nat, target: u256, rem: nat, stored: u256)
    requires Dividing(q, target + 1, rem, stored, 0)
    ensures stored == WorkOf(target)
  {
    PowWord();
    PowZero();
    hide Pow2, Wrap256;
    QuotientIs(TWO_256, q, target + 1, rem);
  }

  lemma NothingBefore(q: nat, d: nat, rem: nat, bit: nat)
    requires bit <= 256 && q * d + rem == Prefix(bit + 1)
    ensures bit == 256 ==> rem == 0 && q * d == 0
  {
    MulMono(0, q, d);
  }

  /** Shift the remainder and inject the leading one of 2^256 at bit 256. */
  method ShiftInDividendBit(remainder: array<u64>, bit: nat) returns (carry: bool)
    requires remainder.Length == 4
    requires bit == 256 ==> Val(remainder[..]) == 0
    modifies remainder
    ensures carry <==> 2 * old(Val(remainder[..])) >= TWO_256
    ensures Val(remainder[..]) == 2 * old(Val(remainder[..])) + Injected(bit) - (if carry then TWO_256 else 0)
  {
    hide Pow2, Poly, Val, SetBit, BitSet;
    carry := ShlOneWithCarry(remainder);
    if bit == 256 {
      LimbsOf(0);
      LimbsAreUnique(remainder[..], [0, 0, 0, 0]);
      SetLowestBit();
      remainder[0] := SetBit(remainder[..][0], 0);
      LimbsOf(1);
      assert remainder[..] == [1, 0, 0, 0];
    }
  }

  lemma LimbsOf(n: u64)
    ensures Val([n, 0, 0, 0]) == n
  {}

  lemma SetLowestBit()
    ensures SetBit(0, 0) == 1
  {
    PowZero();
  }

  /** One turn of the division loop. */
  method DivideBit(remainder: array<u64>, quotient: array<u64>, divisor: Limbs, bit: nat, ghost q: nat)
    returns (ghost q': nat)
    requires remainder.Length == 4 && quotient.Length == 4 && remainder != quotient && bit <= 256
    requires Dividing(q, Val(divisor), Val(remainder[..]), Val(quotient[..]), bit + 1)
    requires ClearBelow(quotient[..], bit + 1)
    modifies remainder, quotient
    ensures Dividing(q', Val(divisor), Val(remainder[..]), Val(quotient[..]), bit)
    ensures ClearBelow(quotient[..], bit)
  {
    hide Pow2, Wrap256, Prefix, Poly, Val, SetBit, BitSet, ClearBelow, LimbClear;
    ghost var d: nat := Val(divisor);
    ghost var rem: nat, stored: u256 := Val(remainder[..]), Val(quotient[..]);
    ghost var b := QuotientBit(rem, d, bit);
    NothingBefore(q, d, rem, bit);
    StaysClear(quotient[..], bit);
    var carry := ShiftInDividendBit(remainder, bit);
    var order := Compare(remainder[..], divisor);
    if carry || !order.Less? {
      var _ := SubAssign(remainder, divisor);
      if bit < 256 {
        SetQuotientBit(quotient, bit);
      }
    }
    DivideStep(q, d, rem, stored, bit, Val(remainder[..]), Val(quotient[..]), b);
    q' := 2 * q + b;
  }

  lemma StartDividing(d: nat)
    requires d > 0
    ensures var zero := [0, 0, 0, 0]; Dividing(0, d, Val(zero), Val(zero), 257) && ClearBelow(zero, 257)
  {
    hide Pow2, Wrap256, Val, Poly;
    LimbsOf(0);
    WrapIs(0, 0, 0);
    assert 0 * Pow2(257) == 0;
  }

  /** Long division over the 257 bits of 2^256. The shifted remainder may need 257 bits; then
      only `carry` records the top one. The quotient bit 256 has no place to be stored. */
  method WorkFromTarget(target: Limbs) returns (r: Result<Limbs, TargetError>)
    ensures r.Err? <==> Val(target) == MAX_U256
    ensures r.Ok? ==> Val(r.value) == WorkOf(Val(target))
  {
    hide *;
    var divisor := new u64[4](i requires 0 <= i < 4 => target[i]);
    assert divisor[..] == target;
    var incremented := IncrementTarget(divisor);
    if !incremented {
      return Err(TargetTooLarge);
    }
    var remainder := new u64[4](_ => 0);
    var quotient := new u64[4](_ => 0);
    ghost var q := 0;
    assert remainder[..] == quotient[..] == [0, 0, 0, 0];
    StartDividing(Val(divisor[..]));
    for bit := 257 downto 0
      invariant Val(divisor[..]) == Val(target) + 1
      invariant Dividing(q, Val(divisor[..]), Val(remainder[..]), Val(quotient[..]), bit)
      invariant ClearBelow(quotient[..], bit)
    {
      q := DivideBit(remainder, quotient, divisor[..], bit, q);
    }
    DivideDone(q, Val(target), Val(remainder[..]), Val(quotient[..]));
    return Ok(quotient[..]);
  }
}
