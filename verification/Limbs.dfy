/** The limb loops of `lib.rs`: wrapping add and small multiply of chain work, and the three
    in-place helpers of the long division. Each is proved against the value of its limbs. */
module LimbArithmetic {
  import opened Words

  /** `ChainWork + ChainWork`: the carry out of the top limb is dropped. */
  method AddWork(a: Limbs, b: Limbs) returns (r: Limbs)
    ensures Val(r) == Wrap256(Val(a) + Val(b))
  {
    hide *;
    ghost var owed := LimbSums(a, b);
    var result := new u64[4](_ => 0);
    var carry: nat := 0;
    assert Digits(result[..], 0) + carry * Weight(0) == Digits(owed, 0) by { StartDigits(result[..], owed); }
    for i := 0 to 4
      invariant Digits(result[..], i) + carry * Weight(i) == Digits(owed, i)
    {
      CarryStep(result[..], result[..][i := Lo64(carry + owed[i])], owed, i, carry);
      var sum: nat := carry + a[i] + b[i];
      result[i] := Lo64(sum);
      carry := Hi64(sum);
    }
    r := result[..];
    FinishCarry(r, owed, carry);
    LimbSumsValue(a, b);
  }

  function LimbSums(a: Limbs, b: Limbs): (s: seq<nat>)
    ensures |s| == 4 && forall i :: 0 <= i < 4 ==> s[i] == (a[i] as int) + b[i]
  {
    seq(4, i requires 0 <= i < 4 => (a[i] as int) + b[i])
  }

  function LimbProducts(a: Limbs, m: nat): (s: seq<nat>)
    ensures |s| == 4 && forall i :: 0 <= i < 4 ==> s[i] == a[i] * m
  {
    seq(4, i requires 0 <= i < 4 => a[i] * m)
  }

  lemma LimbSumsValue(a: Limbs, b: Limbs)
    ensures Digits(LimbSums(a, b), 4) == Val(a) + Val(b)
  {
    hide Digits, Weight;
    DigitsOfLimbs(LimbSums(a, b));
  }

  lemma LimbProductsValue(a: Limbs, m: nat)
    ensures Digits(LimbProducts(a, m), 4) == Val(a) * m
  {
    hide Digits, Weight;
    DigitsOfLimbs(LimbProducts(a, m));
  }

  lemma StartDigits(s: seq<nat>, t: seq<nat>)
    ensures Digits(s, 0) == Digits(t, 0) == 0
  {}

  /** After four limbs the final carry is what wrapping drops. */
  lemma FinishCarry(r: Limbs, owed: seq<nat>, carry: nat)
    requires |owed| == 4
    requires Digits(r, 4) + carry * Weight(4) == Digits(owed, 4)
    ensures Val(r) == Wrap256(Digits(owed, 4))
    ensures Digits(owed, 4) == Val(r) + carry * TWO_256
  {
    hide Digits, Weight;
    DigitsOfLimbs(r);
    WrapIs(Digits(owed, 4), carry, Val(r));
  }

  /** `ChainWork * u32`: the carry out of the top limb is dropped. */
  method MulWork(a: Limbs, m: u32) returns (r: Limbs)
    ensures Val(r) == Wrap256(Val(a) * m)
  {
    hide *;
    ghost var owed := LimbProducts(a, m);
    var result := new u64[4](_ => 0);
    var carry: nat := 0;
    assert Digits(result[..], 0) + carry * Weight(0) == Digits(owed, 0) by { StartDigits(result[..], owed); }
    for i := 0 to 4
      invariant Digits(result[..], i) + carry * Weight(i) == Digits(owed, i)
    {
      CarryStep(result[..], result[..][i := Lo64(carry + owed[i])], owed, i, carry);
      var product: nat := carry + a[i] * m;
      result[i] := Lo64(product);
      carry := Hi64(product);
    }
    r := result[..];
    FinishCarry(r, owed, carry);
    LimbProductsValue(a, m);
  }

  /** `u64::overflowing_sub`: the wrapped difference and the borrow flag. */
  function OverflowingSub(a: u64, b: u64): (r: (u64, bool))
    ensures r.0 == (a as int) - b + (if r.1 then 0x1_0000_0000_0000_0000 else 0)
    ensures r.1 <==> a < b
  {
    if a < b then ((a as int) - b + 0x1_0000_0000_0000_0000, true) else (a - b, false)
  }

  function Flag(b: bool): (n: u64) { if b then 1 else 0 }

  /** One limb of the subtraction: minus the other limb, minus the incoming borrow. */
  method SubLimb(x: u64, y: u64, borrow: bool) returns (z: u64, out: bool)
    ensures z == (x as int) - y - Flag(borrow) + (if out then 0x1_0000_0000_0000_0000 else 0)
    ensures out <==> (x as int) - y - Flag(borrow) < 0
  {
    var (a, b1) := OverflowingSub(x, y);
    var (c, b2) := OverflowingSub(a, Flag(borrow));
    z, out := c, b1 || b2;
  }

  /** In-place subtraction; the result reports the borrow out of the top limb. */
  method SubAssign(lhs: array<u64>, rhs: Limbs) returns (borrow: bool)
    requires lhs.Length == 4
    modifies lhs
    ensures borrow <==> old(Val(lhs[..])) < Val(rhs)
    ensures Val(lhs[..]) == old(Val(lhs[..])) - Val(rhs) + (if borrow then TWO_256 else 0)
  {
    ghost var x := lhs[..];
    borrow := false;
    lhs[0], borrow := SubLimb(lhs[0], rhs[0], borrow);
    lhs[1], borrow := SubLimb(lhs[1], rhs[1], borrow);
    lhs[2], borrow := SubLimb(lhs[2], rhs[2], borrow);
    lhs[3], borrow := SubLimb(lhs[3], rhs[3], borrow);
    assert Poly(lhs[0], lhs[1], lhs[2], lhs[3], if borrow then -1 else 0)
        == Poly(x[0], x[1], x[2], x[3], 0) - Poly(rhs[0], rhs[1], rhs[2], rhs[3], 0);
  }

  /** In-place increment; false is the `TargetTooLarge` error, met only at 2^256 - 1. */
  method IncrementTarget(target: array<u64>) returns (ok: bool)
    requires target.Length == 4
    modifies target
    ensures ok <==> old(Val(target[..])) != MAX_U256
    ensures ok ==> Val(target[..]) == old(Val(target[..])) + 1
  {
    ghost var x := target[..];
    for i := 0 to 4
      invariant i < 4
      invariant target[i..] == x[i..]
      invariant forall j :: 0 <= j < i ==> x[j] == TWO_64 - 1 && target[j] == 0
    {
      if target[i] < TWO_64 - 1 {
        target[i] := target[i] + 1;
        IncrementAt(x, target[..], i);
        return true;
      }
      if i == 3 {
        return false;
      }
      target[i] := 0;
    }
    ok := true;
  }

  lemma IncrementAt(x: Limbs, y: Limbs, i: nat)
    requires i < 4 && y[i] == (x[i] as int) + 1
    requires forall j :: 0 <= j < i ==> x[j] == TWO_64 - 1 && y[j] == 0
    requires forall j :: i < j < 4 ==> x[j] == y[j]
    ensures Val(y) == Val(x) + 1
  {
    if i == 0 {
    } else if i == 1 {
    } else if i == 2 {
    } else {
    }
  }

  /** In-place left shift by one; the result is the evicted top bit. */
  method ShlOneWithCarry(value: array<u64>) returns (evicted: bool)
    requires value.Length == 4
    modifies value
    ensures evicted <==> 2 * old(Val(value[..])) >= TWO_256
    ensures Val(value[..]) == 2 * old(Val(value[..])) - (if evicted then TWO_256 else 0)
  {
    hide Digits, Weight, Hi64, Lo64, Poly, LimbProducts, ShiftIn;
    ghost var x: Limbs := value[..];
    ghost var owed := LimbProducts(x, 2);
    var carry: u64 := 0;
    assert Digits(value[..], 0) + carry * Weight(0) == Digits(owed, 0) by { StartDigits(value[..], owed); }
    for i := 0 to 4
      invariant carry <= 1
      invariant value[i..] == x[i..]
      invariant Digits(value[..], i) + carry * Weight(i) == Digits(owed, i)
    {
      assert value[i] == value[i..][0] == x[i];
      CarryStep(value[..], value[..][i := Lo64(carry + owed[i])], owed, i, carry);
      ShiftInIsSum(value[i], carry);
      var nextCarry: u64 := value[i] / 0x8000_0000_0000_0000;
      value[i] := ShiftIn(value[i], carry);
      carry := nextCarry;
    }
    evicted := carry > 0;
    FinishCarry(value[..], owed, carry);
    LimbProductsValue(x, 2);
  }

  /** `(limb << 1) | carry` in 64 bits: the shifted limb is even, so the or sets its low bit. */
  function ShiftIn(limb: u64, carry: u64): (r: u64)
    requires carry <= 1
  {
    var shifted: nat := (2 * (limb as nat)) % 0x1_0000_0000_0000_0000;
    if shifted % 2 == 0 then shifted + carry else shifted
  }

  lemma ShiftInIsSum(limb: u64, carry: u64)
    requires carry <= 1
    ensures ShiftIn(limb, carry) == Lo64(carry + (limb as nat) * 2)
    ensures Hi64(carry + (limb as nat) * 2) == limb / 0x8000_0000_0000_0000 <= 1
  {}
}
