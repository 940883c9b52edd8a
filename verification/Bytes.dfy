/** Little-endian bytes: the number a byte string stands for, the bytes of a number, and the
    32-byte form of a limb array (`types.rs`). */
module Bytes {
  import opened Arith
  import opened Words

  type Bytes32 = s: seq<u8> | |s| == 32 witness seq(32, _ => 0)

  function Pow256(k: nat): (p: nat)
    ensures p > 0
  {
    if k == 0 then 1 else 256 * Pow256(k - 1)
  }

  lemma {:induction false} Pow256Adds(a: nat, b: nat)
    ensures Pow256(a + b) == Pow256(a) * Pow256(b)
  {
    if a == 0 {
    } else {
      Pow256Adds(a - 1, b);
      MulAssoc(256, Pow256(a - 1), Pow256(b));
    }
  }

  lemma Pow256Mono(a: nat, b: nat)
    requires a <= b
    ensures Pow256(a) <= Pow256(b)
  {
    Pow256Adds(b - a, a);
    MulMono(1, Pow256(b - a), Pow256(a));
  }

  lemma Pow256Values()
    ensures Pow256(0) == 1 && Pow256(1) == 0x100 && Pow256(2) == 0x1_0000 && Pow256(3) == 0x100_0000
    ensures Pow256(4) == TWO_32 && Pow256(8) == TWO_64
    ensures Pow256(16) == 0x1_0000_0000_0000_0000_0000_0000_0000_0000
    ensures Pow256(24) == 0x1_0000_0000_0000_0000_0000_0000_0000_0000_0000_0000_0000_0000
    ensures Pow256(32) == TWO_256
  {
    assert Pow256(4) == TWO_32;
    hide Pow256;
    Pow256Adds(4, 4);
    Pow256Adds(8, 8);
    Pow256Adds(8, 16);
    Pow256Adds(16, 16);
  }

  function LeNat(b: seq<u8>): nat {
    if b == [] then 0 else 256 * LeNat(b[1..]) + b[0]
  }

  function LeBytes(n: nat, k: nat): (b: seq<u8>)
    ensures |b| == k
  {
    if k == 0 then [] else [n % 256] + LeBytes(n / 256, k - 1)
  }

  lemma {:induction false} LeNatBound(b: seq<u8>)
    ensures LeNat(b) < Pow256(|b|)
  {
    if b == [] {
    } else {
      LeNatBound(b[1..]);
    }
  }

  /** Encoding then decoding a number that fits. */
  lemma {:induction false} LeRoundTrip(n: nat, k: nat)
    requires n < Pow256(k)
    ensures LeNat(LeBytes(n, k)) == n
  {
    if k == 0 {
    } else {
      LeRoundTrip(n / 256, k - 1);
      assert LeBytes(n, k)[1..] == LeBytes(n / 256, k - 1);
    }
  }

  /** Decoding then encoding any bytes. */
  lemma {:induction false} LeRoundTripBytes(b: seq<u8>)
    ensures LeBytes(LeNat(b), |b|) == b
  {
    if b == [] {
    } else {
      LeRoundTripBytes(b[1..]);
      assert LeNat(b) / 256 == LeNat(b[1..]);
      assert b == [b[0]] + b[1..];
    }
  }

  lemma {:induction false} LeNatConcat(a: seq<u8>, b: seq<u8>)
    ensures LeNat(a + b) == LeNat(a) + Pow256(|a|) * LeNat(b)
  {
    if a == [] {
      assert a + b == b;
    } else {
      LeNatConcat(a[1..], b);
      assert (a + b)[1..] == a[1..] + b;
      MulAssoc(256, Pow256(|a| - 1), LeNat(b));
    }
  }

  /** Cutting off low bytes is dividing. */
  lemma LeNatSplit(b: seq<u8>, i: nat)
    requires i <= |b|
    ensures LeNat(b) == LeNat(b[..i]) + Pow256(i) * LeNat(b[i..])
    ensures LeNat(b[i..]) == LeNat(b) / Pow256(i)
  {
    hide LeNat, Pow256;
    assert b == b[..i] + b[i..];
    LeNatConcat(b[..i], b[i..]);
    LeNatBound(b[..i]);
    QuotientIs(LeNat(b), LeNat(b[i..]), Pow256(i), LeNat(b[..i]));
  }

  lemma {:induction false} LeNatZeros(b: seq<u8>)
    requires forall i :: 0 <= i < |b| ==> b[i] == 0
    ensures LeNat(b) == 0
  {
    if b == [] {
    } else {
      LeNatZeros(b[1..]);
    }
  }

  lemma LeNatIsZero(b: seq<u8>)
    requires LeNat(b) == 0
    ensures forall i :: 0 <= i < |b| ==> b[i] == 0
  {
    if b == [] {
    } else {
      LeNatIsZero(b[1..]);
      assert forall i :: 0 < i < |b| ==> b[i] == b[1..][i - 1];
    }
  }

  // ---- big-endian ----

  function BeNat(b: seq<u8>): nat {
    if b == [] then 0 else 256 * BeNat(b[..|b| - 1]) + b[|b| - 1]
  }

  function BeBytes(n: nat, k: nat): (b: seq<u8>)
    ensures |b| == k
  {
    if k == 0 then [] else BeBytes(n / 256, k - 1) + [n % 256]
  }

  lemma {:induction false} ZeroBytes(k: nat)
    ensures BeBytes(0, k) == seq<u8>(k, _ => 0)
  {
    if k == 0 {
    } else {
      ZeroBytes(k - 1);
    }
  }

  lemma {:induction false} BeNatBound(b: seq<u8>)
    ensures BeNat(b) < Pow256(|b|)
  {
    if b == [] {
    } else {
      BeNatBound(b[..|b| - 1]);
    }
  }

  lemma {:induction false} BeRoundTrip(n: nat, k: nat)
    requires n < Pow256(k)
    ensures BeNat(BeBytes(n, k)) == n
  {
    if k == 0 {
    } else {
      BeRoundTrip(n / 256, k - 1);
      assert BeBytes(n, k)[..k - 1] == BeBytes(n / 256, k - 1);
    }
  }

  lemma {:induction false} BeRoundTripBytes(b: seq<u8>)
    ensures BeBytes(BeNat(b), |b|) == b
  {
    if b == [] {
    } else {
      var init := b[..|b| - 1];
      BeRoundTripBytes(init);
      assert BeNat(b) / 256 == BeNat(init);
      assert b == init + [b[|b| - 1]];
    }
  }

  /** `out[at..at + n].copy_from_slice(bytes)`. */
  method CopyAt(out: array<u8>, at: nat, bytes: seq<u8>)
    requires at + |bytes| <= out.Length
    modifies out
    ensures out[..] == old(out[..at]) + bytes + old(out[at + |bytes|..])
  {
    forall i | 0 <= i < |bytes| {
      out[at + i] := bytes[i];
    }
  }

  // ---- 32-byte form of a u256 ----

  /** `to_le_bytes`: each limb in eight bytes, low limb first. */
  method ToLeBytes(x: Limbs) returns (b: Bytes32)
    ensures b == LeBytes(Val(x), 32)
  {
    hide LeBytes, Val;
    var out := new u8[32](_ => 0);
    CopyAt(out, 0, LeBytes(x[0], 8));
    CopyAt(out, 8, LeBytes(x[1], 8));
    CopyAt(out, 16, LeBytes(x[2], 8));
    CopyAt(out, 24, LeBytes(x[3], 8));
    b := out[..];
    assert b == LeBytes(x[0], 8) + LeBytes(x[1], 8) + LeBytes(x[2], 8) + LeBytes(x[3], 8);
    LimbBytesValue(x, b);
  }

  lemma LimbBytesValue(x: Limbs, b: seq<u8>)
    requires b == LeBytes(x[0], 8) + LeBytes(x[1], 8) + LeBytes(x[2], 8) + LeBytes(x[3], 8)
    ensures b == LeBytes(Val(x), 32) && LeNat(b) == Val(x)
  {
    hide LeNat, LeBytes, Pow256;
    Pow256Values();
    var b0, b1, b2, b3 := LeBytes(x[0], 8), LeBytes(x[1], 8), LeBytes(x[2], 8), LeBytes(x[3], 8);
    LeRoundTrip(x[0], 8);
    LeRoundTrip(x[1], 8);
    LeRoundTrip(x[2], 8);
    LeRoundTrip(x[3], 8);
    LeNatConcat(b0 + b1 + b2, b3);
    LeNatConcat(b0 + b1, b2);
    LeNatConcat(b0, b1);
    LeRoundTripBytes(b);
  }

  /** `from_le_bytes`. */
  function FromLeBytes(b: Bytes32): (x: Limbs)
    ensures Val(x) == LeNat(b)
  {
    SliceValues(b);
    [LeNat(b[0..8]), LeNat(b[8..16]), LeNat(b[16..24]), LeNat(b[24..32])]
  }

  lemma SliceValues(b: Bytes32)
    ensures LeNat(b[0..8]) < TWO_64 && LeNat(b[8..16]) < TWO_64
    ensures LeNat(b[16..24]) < TWO_64 && LeNat(b[24..32]) < TWO_64
    ensures LeNat(b) == Poly(LeNat(b[0..8]), LeNat(b[8..16]), LeNat(b[16..24]), LeNat(b[24..32]), 0)
  {
    hide LeNat, Pow256;
    Pow256Values();
    LeNatBound(b[0..8]);
    LeNatBound(b[8..16]);
    LeNatBound(b[16..24]);
    LeNatBound(b[24..32]);
    assert b == b[0..8] + b[8..16] + b[16..24] + b[24..32];
    LeNatConcat(b[0..8] + b[8..16] + b[16..24], b[24..32]);
    LeNatConcat(b[0..8] + b[8..16], b[16..24]);
    LeNatConcat(b[0..8], b[8..16]);
  }
}
