/** Machine words and the 256-bit integer of `types.rs`: four little-endian 64-bit limbs,
    their numeric value, and the in-place limb operations every other module rests on. */
module Words {

  const TWO_32: nat := 0x1_0000_0000
  const TWO_64: nat := 0x1_0000_0000_0000_0000
  const TWO_256: nat := 0x1_0000_0000_0000_0000_0000_0000_0000_0000_0000_0000_0000_0000_0000_0000_0000_0000
  const MAX_U256: nat := TWO_256 - 1

  type u8 = n: nat | n < 0x100
  type u32 = n: nat | n < 0x1_0000_0000
  type u64 = n: nat | n < 0x1_0000_0000_0000_0000
  type u256 = n: nat | n < 0x1_0000_0000_0000_0000_0000_0000_0000_0000_0000_0000_0000_0000_0000_0000_0000_0000

  /** The four little-endian limbs of a `u256`. */
  type Limbs = s: seq<u64> | |s| == 4 witness [0, 0, 0, 0]

  datatype Option<+T> = None | Some(value: T)

  datatype Ordering = Less | Equal | Greater

  /** Positional value of base-2^64 digits. A digit may be any integer, so that a carry or a
      borrow can stand in the place it belongs to. */
  function Poly(x0: int, x1: int, x2: int, x3: int, x4: int): int {
    x0
    + 0x1_0000_0000_0000_0000 * x1
    + 0x1_0000_0000_0000_0000_0000_0000_0000_0000 * x2
    + 0x1_0000_0000_0000_0000_0000_0000_0000_0000_0000_0000_0000_0000 * x3
    + 0x1_0000_0000_0000_0000_0000_0000_0000_0000_0000_0000_0000_0000_0000_0000_0000_0000 * x4
  }

  /** The number a limb array stands for. */
  function Val(x: Limbs): (n: u256) {
    Poly(x[0], x[1], x[2], x[3], 0)
  }

  /** Weight of limb `i`. */
  function Weight(i: nat): (w: nat)
    ensures w > 0
  {
    if i == 0 then 1 else 0x1_0000_0000_0000_0000 * Weight(i - 1)
  }

  /** Value of the first `k` of a sequence of digits, whatever their size. */
  function Digits(s: seq<nat>, k: nat): nat
    requires k <= |s|
  {
    if k == 0 then 0 else Digits(s, k - 1) + s[k - 1] * Weight(k - 1)
  }

  lemma DigitsOfLimbs(s: seq<nat>)
    requires |s| == 4
    ensures Digits(s, 4) == Poly(s[0], s[1], s[2], s[3], 0)
    ensures Weight(4) == TWO_256
  {
    assert Weight(1) == 0x1_0000_0000_0000_0000;
    assert Weight(2) == 0x1_0000_0000_0000_0000_0000_0000_0000_0000;
    assert Weight(3) == 0x1_0000_0000_0000_0000_0000_0000_0000_0000_0000_0000_0000_0000;
    assert Digits(s, 1) == s[0];
    assert Digits(s, 2) == Digits(s, 1) + s[1] * Weight(1);
    assert Digits(s, 3) == Digits(s, 2) + s[2] * Weight(2);
  }

  lemma DigitsAgree(s: seq<nat>, t: seq<nat>, k: nat)
    requires k <= |s| && k <= |t| && s[..k] == t[..k]
    ensures Digits(s, k) == Digits(t, k)
  {
    if k == 0 {
    } else {
      assert s[k - 1] == s[..k][k - 1] == t[..k][k - 1] == t[k - 1];
      assert s[..k - 1] == s[..k][..k - 1] == t[..k][..k - 1] == t[..k - 1];
      DigitsAgree(s, t, k - 1);
    }
  }

  /** One limb of a loop that adds `digit` to the running carry, keeps the low word and carries
      the rest: what is stored plus the new carry is what was owed. */
  lemma CarryStep(stored: seq<u64>, next: seq<u64>, owed: seq<nat>, i: nat, carry: nat)
    requires i < |stored| == |next| && i < |owed|
    requires next == stored[i := Lo64(carry + owed[i])]
    requires Digits(stored, i) + carry * Weight(i) == Digits(owed, i)
    ensures Digits(next, i + 1) + Hi64(carry + owed[i]) * Weight(i + 1) == Digits(owed, i + 1)
  {
    DigitsAgree(stored, next, i);
    DigitsSnoc(next, i);
    DigitsSnoc(owed, i);
    hide *;
    var sum := carry + owed[i];
    CarrySplits(Lo64(sum), Hi64(sum), carry, owed[i], Weight(i));
  }

  lemma DigitsSnoc(s: seq<nat>, i: nat)
    requires i < |s|
    ensures Digits(s, i + 1) == Digits(s, i) + s[i] * Weight(i)
    ensures Weight(i + 1) == 0x1_0000_0000_0000_0000 * Weight(i)
  {}

  lemma CarrySplits(lo: nat, hi: nat, carry: nat, digit: nat, w: nat)
    requires carry + digit == lo + 0x1_0000_0000_0000_0000 * hi
    ensures lo * w + hi * (0x1_0000_0000_0000_0000 * w) == carry * w + digit * w
  {
    calc {
      lo * w + hi * (0x1_0000_0000_0000_0000 * w);
      (lo + 0x1_0000_0000_0000_0000 * hi) * w;
      (carry + digit) * w;
    }
  }

  /** Reduction of an unbounded natural into 256 bits. */
  function Wrap256(n: nat): (r: u256) {
    n % 0x1_0000_0000_0000_0000_0000_0000_0000_0000_0000_0000_0000_0000_0000_0000_0000_0000
  }

  /** Low word of a double-width value: the `as u64` cast. */
  function Lo64(n: nat): (r: u64)
    ensures n == r + 0x1_0000_0000_0000_0000 * Hi64(n)
  {
    n % 0x1_0000_0000_0000_0000
  }

  /** High part of a double-width value: `>> 64`. */
  function Hi64(n: nat): nat {
    n / 0x1_0000_0000_0000_0000
  }

  lemma LimbsAreUnique(x: Limbs, y: Limbs)
    requires Val(x) == Val(y)
    ensures x == y
  {
    assert x[0] == y[0] && x[1] == y[1] && x[2] == y[2] && x[3] == y[3];
  }

  lemma WrapIs(n: nat, q: nat, r: nat)
    requires n == r + 0x1_0000_0000_0000_0000_0000_0000_0000_0000_0000_0000_0000_0000_0000_0000_0000_0000 * q
    requires r < TWO_256
    ensures Wrap256(n) == r
  {}

  lemma WrapTail(x: nat, q: nat)
    ensures Wrap256(x + q * TWO_256) == Wrap256(x)
  {
    WrapIs(x + q * TWO_256, x / TWO_256 + q, Wrap256(x));
  }

  /** Wrapping a summand first makes no difference. */
  lemma WrapAbsorbs(a: nat, b: nat)
    ensures Wrap256(a + Wrap256(b)) == Wrap256(a + b)
    ensures Wrap256(Wrap256(b) + a) == Wrap256(b + a)
  {
    WrapIs(b, b / TWO_256, Wrap256(b));
    WrapTail(a + Wrap256(b), b / TWO_256);
  }

  /** Magnitude comparison, top limb first. */
  method Compare(a: Limbs, b: Limbs) returns (o: Ordering)
    ensures o.Less? <==> Val(a) < Val(b)
    ensures o.Equal? <==> a == b
    ensures o.Greater? <==> Val(a) > Val(b)
  {
    var i := 4;
    while i > 0
      invariant 0 <= i <= 4
      invariant forall j :: i <= j < 4 ==> a[j] == b[j]
    {
      i := i - 1;
      if a[i] < b[i] {
        CompareAt(a, b, i);
        return Less;
      } else if a[i] > b[i] {
        CompareAt(b, a, i);
        return Greater;
      }
    }
    assert a == b;
    return Equal;
  }

  lemma CompareAt(a: Limbs, b: Limbs, i: nat)
    requires i < 4 && a[i] < b[i]
    requires forall j :: i < j < 4 ==> a[j] == b[j]
    ensures Val(a) < Val(b)
  {
    if i == 0 {
    } else if i == 1 {
    } else if i == 2 {
    } else {
    }
  }
}
