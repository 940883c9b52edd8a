/** The difficulty adjustment of `calculate_next_target_required`. */
module Retarget {
  import opened Arith
  import opened Words
  import opened Bytes
  import opened LimbArithmetic
  import opened Compact

  const EPOCH_LENGTH: nat := 2016
  const EXPECTED_TIMESPAN: nat := 1209600
  const MIN_TIMESPAN: nat := 302400
  const MAX_TIMESPAN: nat := 4838400

  const GENESIS_NBITS: u32 := 0x1d00ffff

  /** The easiest target: limbs 0, 0, 0, 0xffff0000. */
  const GENESIS_LIMBS: Limbs := [0, 0, 0, 0xffff_0000]
  const GENESIS_TARGET: u256 := 0xffff_0000_0000_0000_0000_0000_0000_0000_0000_0000_0000_0000_0000_0000

  lemma GenesisTargetValue()
    ensures Val(GENESIS_LIMBS) == GENESIS_TARGET
  {}

  // ---- meaning on numbers ----

  function Clamp(elapsed: int): (c: nat)
    ensures MIN_TIMESPAN <= c <= MAX_TIMESPAN
  {
    if elapsed < MIN_TIMESPAN then MIN_TIMESPAN
    else if elapsed > MAX_TIMESPAN then MAX_TIMESPAN
    else elapsed
  }

  function Min(a: nat, b: nat): nat { if a <= b then a else b }

  /** The unclamped new target as the limbs compute it: the product is kept to 256 bits. */
  function RawTarget(prior: u256, elapsed: int): (t: u256) {
    SmallExpansion(Wrap256(prior * Clamp(elapsed)), EXPECTED_TIMESPAN);
    Wrap256(prior * Clamp(elapsed)) / EXPECTED_TIMESPAN
  }

  function NextBits(prior: u256, elapsed: int): (bits: u32) {
    CompactOf(Min(RawTarget(prior, elapsed), GENESIS_TARGET))
  }

  function NextTarget(prior: u256, elapsed: int): (t: u256) {
    ExpandOf(NextBits(prior, elapsed))
  }

  // ---- properties of the adjustment ----

  /** No adjustment, whatever the old target, goes above the easiest target. */
  lemma NextTargetCapped(prior: u256, elapsed: int)
    ensures NextTarget(prior, elapsed) <= GENESIS_TARGET < MAX_U256
  {
    hide RawTarget, CompactOf, ExpandOf;
    NormIsFloor(Min(RawTarget(prior, elapsed), GENESIS_TARGET), 0);
  }

  /** From any target up to the easiest one the product fits, so the adjustment is the exact
      consensus formula, normalised. */
  lemma NothingIsLost(prior: u256, elapsed: int)
    requires prior <= GENESIS_TARGET
    ensures RawTarget(prior, elapsed) == prior * Clamp(elapsed) / EXPECTED_TIMESPAN
    ensures NextTarget(prior, elapsed) == Norm(Min(prior * Clamp(elapsed) / EXPECTED_TIMESPAN, GENESIS_TARGET))
  {
    hide Wrap256, CompactOf, ExpandOf;
    var c := Clamp(elapsed);
    MulMono(0, prior, c);
    MulMono(prior, GENESIS_TARGET, c);
    MulMono(c, MAX_TIMESPAN, GENESIS_TARGET);
    assert GENESIS_TARGET * c == c * GENESIS_TARGET;
    WrapIs(prior * c, 0, prior * c);
  }

  /** A larger old target or a longer epoch never gives a harder target. */
  lemma RetargetIsMonotone(a: u256, b: u256, short: int, long: int)
    requires a <= b <= GENESIS_TARGET && short <= long
    ensures NextTarget(a, short) <= NextTarget(b, long)
  {
    NothingIsLost(a, short);
    NothingIsLost(b, long);
    hide RawTarget, NextTarget, Norm;
    MulMonoBoth(a, b, Clamp(short), Clamp(long));
    DivMono(a * Clamp(short), b * Clamp(long), EXPECTED_TIMESPAN);
    NormIsMonotone(Min(RawTarget(a, short), GENESIS_TARGET), Min(RawTarget(b, long), GENESIS_TARGET));
  }

  /** One adjustment moves the target by at most a factor of four either way. */
  lemma RetargetIsBounded(prior: u256, elapsed: int)
    requires prior <= GENESIS_TARGET
    ensures Norm(prior / 4) <= NextTarget(prior, elapsed) <= Min(4 * prior, GENESIS_TARGET)
  {
    NothingIsLost(prior, elapsed);
    NextTargetCapped(prior, elapsed);
    hide RawTarget, NextTarget, Norm;
    var c := Clamp(elapsed);
    var raw := prior * c / EXPECTED_TIMESPAN;
    MulMono(MIN_TIMESPAN, c, prior);
    MulMono(c, MAX_TIMESPAN, prior);
    assert c * prior == prior * c;
    DivMono(prior * MIN_TIMESPAN, prior * c, EXPECTED_TIMESPAN);
    DivMono(prior * c, prior * MAX_TIMESPAN, EXPECTED_TIMESPAN);
    assert prior * MIN_TIMESPAN / EXPECTED_TIMESPAN == prior / 4;
    assert prior * MAX_TIMESPAN / EXPECTED_TIMESPAN == 4 * prior;
    NormIsMonotone(prior / 4, Min(raw, GENESIS_TARGET));
    NormIsFloor(Min(raw, GENESIS_TARGET), 0);
  }

  /** The adjustment in full, by the time the epoch took: proportional from a quarter of the expected
      time to four times it, a division by four below, a multiplication by four above. */
  lemma RetargetByElapsed(prior: u256, elapsed: int)
    requires prior <= GENESIS_TARGET
    ensures 302400 <= elapsed <= 4838400 ==>
              prior * elapsed >= 0 && NextTarget(prior, elapsed) == Norm(Min(prior * elapsed / 1209600, GENESIS_TARGET))
    ensures elapsed <= 302400 ==> NextTarget(prior, elapsed) == Norm(prior / 4)
    ensures elapsed >= 4838400 ==> NextTarget(prior, elapsed) == Norm(Min(4 * prior, GENESIS_TARGET))
  {
    NothingIsLost(prior, elapsed);
    hide RawTarget, NextTarget, Norm;
    if 302400 <= elapsed <= 4838400 {
      MulMono(0, prior, elapsed);
    }
    assert prior * 302400 / 1209600 == prior / 4;
    assert prior * 4838400 / 1209600 == 4 * prior;
  }

  /** The two results agree: the compact form is that of the expanded target. */
  lemma BitsAreOfTarget(prior: u256, elapsed: int)
    ensures CompactOf(NextTarget(prior, elapsed)) == NextBits(prior, elapsed)
  {
    hide RawTarget, CompactOf, ExpandOf, Canonical;
    CompactIsCanonical(Min(RawTarget(prior, elapsed), GENESIS_TARGET));
    CanonicalExactly(NextBits(prior, elapsed));
  }

  /** An epoch is 2016 blocks of ten minutes; the clamp is a factor of four either way. */
  lemma EpochTimespans()
    ensures EPOCH_LENGTH * 600 == EXPECTED_TIMESPAN
    ensures 4 * MIN_TIMESPAN == EXPECTED_TIMESPAN && MAX_TIMESPAN == 4 * EXPECTED_TIMESPAN
  {}

  /** An epoch of exactly the expected length leaves a normalised target alone. */
  lemma OnTimeKeepsTarget(prior: u256)
    requires prior <= GENESIS_TARGET && Norm(prior) == prior
    ensures NextTarget(prior, EXPECTED_TIMESPAN) == prior
  {
    NothingIsLost(prior, EXPECTED_TIMESPAN);
    hide RawTarget, NextTarget, Norm;
    QuotientIs(prior * EXPECTED_TIMESPAN, prior, EXPECTED_TIMESPAN, 0);
  }

  lemma GenesisBits()
    ensures ExpandOf(GENESIS_NBITS) == GENESIS_TARGET && CompactOf(GENESIS_TARGET) == GENESIS_NBITS
  {
    GenesisExpands();
    hide ExpandOf, CompactOf, Pow256;
    Pow256Adds(24, 2);
    Pow256Values();
    CanonicalExactly(GENESIS_NBITS);
  }

  lemma GenesisExpands()
    ensures ExpandOf(GENESIS_NBITS) == GENESIS_TARGET
  {
    Pow256Values();
    hide Pow256, Wrap256;
    Pow256Adds(24, 2);
    assert GENESIS_NBITS / 0x100_0000 == 29 && GENESIS_NBITS % 0x80_0000 == 0xffff;
    WrapIs(0xffff * Pow256(26), 0, GENESIS_TARGET);
  }

  // ---- the limb loops ----

  lemma {:induction false} DigitsUpdate(s: seq<nat>, t: seq<nat>, i: nat, k: nat)
    requires i < k <= |s| == |t| && t == s[i := t[i]]
    ensures Digits(t, k) == Digits(s, k) + (t[i] as int - s[i]) * Weight(i)
  {
    if k == i + 1 {
      DigitsAgree(s, t, i);
      Distribute(t[i], s[i], Weight(i));
    } else {
      DigitsUpdate(s, t, i, k - 1);
    }
  }

  /** Every limb at or above `i` is divided; `rem` is what is carried down into limb `i - 1`. */
  ghost predicate DividedDown(product: Limbs, limbs: Limbs, i: nat, rem: nat)
    requires i <= 4
  {
    && limbs[..i] == product[..i]
    && rem < EXPECTED_TIMESPAN
    && Digits(product, 4) - Digits(product, i)
       == EXPECTED_TIMESPAN * (Digits(limbs, 4) - Digits(limbs, i)) + rem * Weight(i)
  }

  lemma DivideDownStep(product: Limbs, limbs: Limbs, next: Limbs, i: nat, rem: nat)
    requires i < 4 && DividedDown(product, limbs, i + 1, rem)
    requires var value := rem * 0x1_0000_0000_0000_0000 + limbs[i];
             next == limbs[i := next[i]] && next[i] == value / EXPECTED_TIMESPAN
    ensures DividedDown(product, next, i, (rem * 0x1_0000_0000_0000_0000 + limbs[i]) % EXPECTED_TIMESPAN)
  {
    assert limbs[i] == limbs[..i + 1][i] == product[i];
    assert limbs[..i] == limbs[..i + 1][..i] == product[..i];
    assert next[..i] == limbs[..i];
    DigitsSnoc(product, i);
    DigitsSnoc(limbs, i);
    DigitsUpdate(limbs, next, i, 4);
    DigitsAgree(limbs, next, i);
    hide Digits, Weight;
    DivideDownInts(rem, limbs[i], next[i], Weight(i), Digits(limbs, 4) - Digits(limbs, i),
                   Digits(product, 4) - Digits(product, i));
  }

  lemma DivideDownInts(rem: nat, limb: nat, q: nat, w: nat, high: int, owed: int)
    requires q == (rem * 0x1_0000_0000_0000_0000 + limb) / 1209600
    requires owed - limb * w == 1209600 * (high - limb * w) + rem * (0x1_0000_0000_0000_0000 * w)
    ensures owed == 1209600 * (high + (q - limb) * w) + (rem * 0x1_0000_0000_0000_0000 + limb) % 1209600 * w
  {
    var value := rem * 0x1_0000_0000_0000_0000 + limb;
    DivMod(value, 1209600);
    calc {
      rem * (0x1_0000_0000_0000_0000 * w) + limb * w;
      { MulAssoc(rem, 0x1_0000_0000_0000_0000, w); Distribute(rem * 0x1_0000_0000_0000_0000, limb, w); }
      (q * 1209600 + value % 1209600) * w;
      { Distribute(q * 1209600, value % 1209600, w); MulAssoc(1209600, q, w); }
      1209600 * (q * w) + value % 1209600 * w;
    }
    Distribute(q, limb, w);
  }

  lemma QuotientLimbFits(rem: nat, limb: u64)
    requires rem < EXPECTED_TIMESPAN
    ensures 0 <= (rem * 0x1_0000_0000_0000_0000 + limb) / EXPECTED_TIMESPAN < 0x1_0000_0000_0000_0000
  {}

  /** Multiply the four limbs in place, dropping the final carry. */
  method ScaleLimbs(limbs: array<u64>, m: nat)
    requires limbs.Length == 4
    modifies limbs
    ensures Val(limbs[..]) == Wrap256(old(Val(limbs[..])) * m)
  {
    hide *;
    ghost var x: Limbs := limbs[..];
    ghost var owed := LimbProducts(x, m);
    var carry: nat := 0;
    assert Digits(limbs[..], 0) + carry * Weight(0) == Digits(owed, 0) by { StartDigits(limbs[..], owed); }
    for i := 0 to 4
      invariant limbs[i..] == x[i..]
      invariant Digits(limbs[..], i) + carry * Weight(i) == Digits(owed, i)
    {
      assert limbs[i] == limbs[i..][0] == x[i];
      CarryStep(limbs[..], limbs[..][i := Lo64(carry + owed[i])], owed, i, carry);
      var product: nat := carry + limbs[i] * m;
      limbs[i] := Lo64(product);
      carry := Hi64(product);
    }
    FinishCarry(limbs[..], owed, carry);
    LimbProductsValue(x, m);
  }

  /** Divide the four limbs in place by the expected timespan, top limb first. */
  method DivideLimbs(limbs: array<u64>)
    requires limbs.Length == 4
    modifies limbs
    ensures Val(limbs[..]) == old(Val(limbs[..])) / EXPECTED_TIMESPAN
  {
    hide *;
    ghost var product: Limbs := limbs[..];
    var remainder: nat := 0;
    StartDown(product);
    for i := 4 downto 0
      invariant DividedDown(product, limbs[..], i, remainder)
    {
      ghost var before: Limbs := limbs[..];
      RemainderBound(product, before, i + 1, remainder);
      QuotientLimbFits(remainder, limbs[i]);
      var value: nat := remainder * 0x1_0000_0000_0000_0000 + limbs[i];
      limbs[i] := value / EXPECTED_TIMESPAN;
      DivideDownStep(product, before, limbs[..], i, remainder);
      remainder := value % EXPECTED_TIMESPAN;
    }
    DividedAll(product, limbs[..], remainder);
  }

  lemma RemainderBound(product: Limbs, limbs: Limbs, i: nat, rem: nat)
    requires i <= 4 && DividedDown(product, limbs, i, rem)
    ensures rem < EXPECTED_TIMESPAN && EXPECTED_TIMESPAN > 0
  {}

  lemma StartDown(product: Limbs)
    ensures DividedDown(product, product, 4, 0)
  {
    hide Digits, Weight;
  }

  lemma DividedAll(product: Limbs, limbs: Limbs, rem: nat)
    requires DividedDown(product, limbs, 0, rem)
    ensures Val(limbs) == Val(product) / EXPECTED_TIMESPAN
  {
    StartDigits(product, limbs);
    assert Weight(0) == 1;
    hide Digits, Weight;
    DigitsOfLimbs(product);
    DigitsOfLimbs(limbs);
    QuotientIs(Val(product), Val(limbs), EXPECTED_TIMESPAN, rem);
  }

  /** The compact and expanded target required at a difficulty boundary. */
  method CalculateNextTargetRequired(oldTarget: Limbs, epochStart: u32, previous: u32)
    returns (bits: u32, target: Limbs)
    ensures bits == NextBits(Val(oldTarget), (previous as int) - epochStart)
    ensures Val(target) == NextTarget(Val(oldTarget), (previous as int) - epochStart)
  {
    hide Val, Poly, Wrap256, CompactOf, ExpandOf;
    var actual: int := (previous as int) - epochStart;
    var clamped := Clamp(actual);
    var limbs := new u64[4](i requires 0 <= i < 4 => oldTarget[i]);
    assert limbs[..] == oldTarget;
    ScaleLimbs(limbs, clamped);
    DivideLimbs(limbs);
    GenesisTargetValue();
    var order := Compare(limbs[..], GENESIS_LIMBS);
    var capped: Limbs := if order.Greater? then GENESIS_LIMBS else limbs[..];
    bits := TargetToBits(capped);
    target := TargetFromBits(bits);
  }
}
