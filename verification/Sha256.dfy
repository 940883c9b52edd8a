/** The fixed-length SHA-256 wrappers of `sha256.rs`: hand-placed message words and padding,
    against padding and block parsing as FIPS 180-4 defines them (sections 5.1.1 and 5.2.1). The
    message schedule and the compression function are parameters. */
module Sha256 {
  import opened Arith
  import opened Words
  import opened Bytes

  type Schedule = s: seq<u64> | |s| == 64 witness seq(64, _ => 0)
  type HashState = s: seq<u64> | |s| == 8 witness seq(8, _ => 0)

  /** The two system calls, as functions of the words and state they are given. */
  datatype Core = Core(extend: Schedule -> Schedule, compress: (Schedule, HashState) -> HashState)

  const IV: HashState := [
    0x6a09e667, 0xbb67ae85, 0x3c6ef372, 0xa54ff53a, 0x510e527f, 0x9b05688c, 0x1f83d9ab, 0x5be0cd19]

  // ---- the standard ----

  /** Zero bytes between the end marker and the length. */
  function PadLength(n: nat): (k: nat)
    ensures (n + 1 + k + 8) % 64 == 0 && k < 64
  {
    (55 - n) % 64
  }

  function Padded(m: seq<u8>): (p: seq<u8>)
    ensures |p| == |m| + 9 + PadLength(|m|) && |p| % 64 == 0
  {
    m + [0x80] + seq<u8>(PadLength(|m|), _ => 0) + BeBytes(8 * |m|, 8)
  }

  /** Four bytes as a big-endian word. */
  function BeU64(a: u8, b: u8, c: u8, d: u8): (w: u64) {
    0x100_0000 * (a as nat) + 0x1_0000 * (b as nat) + 0x100 * (c as nat) + (d as nat)
  }

  /** The big-endian word of the four bytes from position `k`. */
  function WordAt(b: seq<u8>, k: nat): u64
    requires k + 4 <= |b|
  {
    BeU64(b[k], b[k + 1], b[k + 2], b[k + 3])
  }

  lemma WordIsBigEndian(b: seq<u8>, k: nat)
    requires k + 4 <= |b|
    ensures WordAt(b, k) == BeNat(b[k..k + 4])
  {
    var w := b[k..k + 4];
    assert w[..3][..2] == w[..2] && w[..2][..1] == w[..1] && w[..1][..0] == [];
    assert BeNat(w[..1]) == w[0];
    assert BeNat(w[..2]) == 256 * BeNat(w[..1]) + w[1];
    assert BeNat(w[..3]) == 256 * BeNat(w[..2]) + w[2];
  }

  /** Message block `n` as the first sixteen words of an otherwise zero schedule. */
  function Block(p: seq<u8>, n: nat): Schedule
    requires 64 * n + 64 <= |p|
  {
    BlockWords(p, n) + seq<u64>(48, _ => 0)
  }

  function BlockWords(p: seq<u8>, n: nat): (ws: seq<u64>)
    requires 64 * n + 64 <= |p|
    ensures |ws| == 16
  {
    [BlockWord(p, n, 0), BlockWord(p, n, 1), BlockWord(p, n, 2), BlockWord(p, n, 3),
     BlockWord(p, n, 4), BlockWord(p, n, 5), BlockWord(p, n, 6), BlockWord(p, n, 7),
     BlockWord(p, n, 8), BlockWord(p, n, 9), BlockWord(p, n, 10), BlockWord(p, n, 11),
     BlockWord(p, n, 12), BlockWord(p, n, 13), BlockWord(p, n, 14), BlockWord(p, n, 15)]
  }

  function BlockWord(p: seq<u8>, n: nat, i: nat): u64
    requires 64 * n + 64 <= |p| && i < 16
  {
    WordAt(p, 64 * n + 4 * i)
  }

  /** State after the first `n` blocks. */
  function Fold(p: seq<u8>, n: nat, core: Core): HashState
    requires 64 * n <= |p|
  {
    if n == 0 then IV else core.compress(core.extend(Block(p, n - 1)), Fold(p, n - 1, core))
  }

  /** Low 32 bits of each state word, big-endian. */
  function StateToHash(s: HashState): Bytes32 {
    BeBytes(s[0], 4) + BeBytes(s[1], 4) + BeBytes(s[2], 4) + BeBytes(s[3], 4)
    + BeBytes(s[4], 4) + BeBytes(s[5], 4) + BeBytes(s[6], 4) + BeBytes(s[7], 4)
  }

  /** Eight big-endian words of a digest, each the low 32 bits of a state word. */
  ghost predicate WordsOf(h: Bytes32, s: HashState) {
    forall i :: 0 <= i < 8 ==> BeNat(h[4 * i..4 * i + 4]) == (s[i] as nat) % 0x1_0000_0000
  }

  lemma HashHasStateWords(s: HashState)
    ensures WordsOf(StateToHash(s), s)
  {
    hide BeBytes, BeNat;
    var h := StateToHash(s);
    forall i | 0 <= i < 8 ensures BeNat(h[4 * i..4 * i + 4]) == (s[i] as nat) % 0x1_0000_0000 {
      LowWord(s[i]);
      assert h[4 * i..4 * i + 4] == BeBytes(s[i], 4);
    }
  }

  /** Four bytes hold the low 32 bits of a number. */
  lemma LowWord(n: nat)
    ensures BeNat(BeBytes(n, 4)) == n % 0x1_0000_0000
  {
    Pow256Values();
    hide Pow256, BeNat, BeBytes;
    LowBytes(n, n % 0x1_0000_0000, 4);
    BeRoundTrip(n % 0x1_0000_0000, 4);
  }

  lemma {:induction false} LowBytes(m: nat, n: nat, k: nat)
    requires m % Pow256(k) == n % Pow256(k)
    ensures BeBytes(m, k) == BeBytes(n, k)
  {
    if k == 0 {
    } else {
      LowByte(m, Pow256(k - 1));
      LowByte(n, Pow256(k - 1));
      LowBytes(m / 256, n / 256, k - 1);
    }
  }

  lemma LowByte(n: nat, p: nat)
    requires p > 0
    ensures n % (256 * p) == n / 256 % p * 256 + n % 256
  {
    var q, r := n / 256 / p, n / 256 % p;
    DivMod(n / 256, p);
    assert n == (q * p + r) * 256 + n % 256;
    MulAssoc(256, q, p);
    MulMono(r + 1, p, 256);
    assert n == q * (256 * p) + (r * 256 + n % 256) by { MulAssoc(q, 256, p); }
    QuotientIs(n, q, 256 * p, r * 256 + n % 256);
  }

  /** The initial words are those of FIPS 180-4 section 5.3.3: the first 32 fractional bits of the
      square roots of the first eight primes. */
  lemma InitialWordsAreRoots(i: nat)
    requires i < 8
    ensures var prime, whole := [2, 3, 5, 7, 11, 13, 17, 19][i], [1, 1, 2, 2, 3, 3, 4, 4][i];
            var root := whole * 0x1_0000_0000 + IV[i] as nat;
            root * root <= prime * 0x1_0000_0000_0000_0000 < (root + 1) * (root + 1)
  {}

  function Digest(m: seq<u8>, core: Core): Bytes32 {
    var p := Padded(m);
    StateToHash(Fold(p, |p| / 64, core))
  }

  /** Words the functions write out as constants. */
  const ZERO: u64 := 0
  const END_MARK: u64 := 0x8000_0000
  const BITS_OF_116: u64 := 0x3a0
  const BITS_OF_169: u64 := 0x548

  /** `(b << 24) | 0x0080_0000`: the last byte and the end marker in one word. */
  function MarkedByte(b: u8): u64 {
    0x100_0000 * (b as nat) + 0x80_0000
  }

  // ---- facts about padding ----

  lemma PadLayout(m: seq<u8>, i: nat)
    requires i < |Padded(m)| && |m| < 0x2000
    ensures var n, p := |m|, Padded(m);
            p[i] == if i < n then m[i]
                    else if i == n then 0x80
                    else if i == |p| - 2 then 8 * n / 256
                    else if i == |p| - 1 then 8 * n % 256
                    else 0
  {
    LengthBytes(8 * |m|);
  }

  lemma LengthBytes(n: nat)
    requires n < 0x1_0000
    ensures BeBytes(n, 8) == [0, 0, 0, 0, 0, 0, n / 256, n % 256]
  {
    assert BeBytes(n / 256, 7) == [0, 0, 0, 0, 0, 0] + [n / 256] by {
      ZeroBytes(6);
      assert n / 256 / 256 == 0;
    }
  }

  /** A word that lies inside the message. */
  lemma DataWord(m: seq<u8>, n: nat, i: nat)
    requires i < 16 && 64 * n + 4 * i + 4 <= |m| < 0x2000 && 64 * n + 64 <= |Padded(m)|
    ensures BlockWord(Padded(m), n, i) == WordAt(m, 64 * n + 4 * i)
  {
    var k := 64 * n + 4 * i;
    PadLayout(m, k);
    PadLayout(m, k + 1);
    PadLayout(m, k + 2);
    PadLayout(m, k + 3);
    hide Padded;
  }

  /** A word at or past the end of the message: the end marker, zeros, or the bit length. */
  lemma PadWord(m: seq<u8>, n: nat, i: nat)
    requires i < 16 && |m| <= 64 * n + 4 * i + 1 && 0 < |m| < 0x2000 && 64 * n + 64 == |Padded(m)|
    ensures var k := 64 * n + 4 * i;
            && (|m| < k && i < 15 ==> BlockWord(Padded(m), n, i) == 0)
            && (|m| < k && i == 15 ==> BlockWord(Padded(m), n, i) == 8 * |m|)
            && (|m| == k && i < 14 ==> BlockWord(Padded(m), n, i) == 0x8000_0000)
            && (|m| == k + 1 && i < 14 ==> BlockWord(Padded(m), n, i) == BeU64(m[|m| - 1], 0x80, 0, 0))
  {
    var k := 64 * n + 4 * i;
    PadLayout(m, k);
    PadLayout(m, k + 1);
    PadLayout(m, k + 2);
    PadLayout(m, k + 3);
    hide Padded;
  }

  // ---- the hand-laid-out functions ----

  /** The two system calls on one block, in place. */
  method Process(w: array<u64>, state: array<u64>, core: Core, ghost p: seq<u8>, ghost n: nat)
    requires w.Length == 64 && state.Length == 8 && w != state
    requires 64 * n + 64 <= |p| && w[..] == Block(p, n)
    requires state[..] == Fold(p, n, core)
    modifies w, state
    ensures state[..] == Fold(p, n + 1, core)
  {
    FoldStep(p, n, core);
    hide Block, Fold;
    ghost var block: Schedule, before: HashState := w[..], state[..];
    var extended := core.extend(w[..]);
    forall i | 0 <= i < 64 {
      w[i] := extended[i];
    }
    assert w[..] == extended && state[..] == before;
    var compressed := core.compress(w[..], state[..]);
    forall i | 0 <= i < 8 {
      state[i] := compressed[i];
    }
    assert state[..] == compressed;
  }

  lemma FoldStep(p: seq<u8>, n: nat, core: Core)
    requires 64 * n + 64 <= |p|
    ensures Fold(p, n + 1, core) == core.compress(core.extend(Block(p, n)), Fold(p, n, core))
  {
    hide Block;
  }

  /** A zero schedule whose first sixteen words are given. */
  method ScheduleOf(words: seq<u64>) returns (w: array<u64>)
    requires |words| == 16
    ensures fresh(w) && w.Length == 64 && w[..] == words + seq<u64>(48, _ => 0)
  {
    w := new u64[64](i requires 0 <= i < 64 => if i < 16 then words[i] else 0);
  }

  /** A schedule filled word by word holds the block. */
  lemma FilledBlock(w: seq<u64>, p: seq<u8>, n: nat)
    requires 64 * n + 64 <= |p| && |w| == 64
    requires forall i :: 0 <= i < 16 ==> w[i] == BlockWord(p, n, i)
    requires forall i :: 16 <= i < 64 ==> w[i] == 0
    ensures w == Block(p, n)
  {
    hide BlockWord;
    assert w[..16] == BlockWords(p, n);
    assert w[16..] == seq<u64>(48, _ => 0);
    assert w == w[..16] + w[16..];
  }

  method InitialState() returns (state: array<u64>)
    ensures fresh(state) && state.Length == 8 && state[..] == IV
  {
    state := new u64[8](i requires 0 <= i < 8 => IV[i]);
    assert state[..] == IV;
  }

  method Sha256Of80(data: seq<u8>, core: Core) returns (h: Bytes32)
    requires |data| == 80
    ensures h == Digest(data, core)
    ensures |Padded(data)| == 128 && WordsOf(h, Fold(Padded(data), 2, core))
  {
    hide Padded, Block, BlockWord, WordAt, StateToHash, WordsOf;
    PadSize(data);
    var state := InitialState();

    var w := new u64[64](_ => 0);
    for i := 0 to 16
      invariant state[..] == IV
      invariant forall j :: 0 <= j < i ==> w[j] == BlockWord(Padded(data), 0, j)
      invariant forall j :: i <= j < 64 ==> w[j] == 0
    {
      DataWord(data, 0, i);
      w[i] := WordAt(data, 4 * i);
    }
    FilledBlock(w[..], Padded(data), 0);
    Process(w, state, core, Padded(data), 0);

    w := new u64[64](_ => 0);
    for i := 0 to 4
      invariant state[..] == Fold(Padded(data), 1, core)
      invariant forall j :: 0 <= j < i ==> w[j] == BlockWord(Padded(data), 1, j)
      invariant forall j :: i <= j < 64 ==> w[j] == 0
    {
      DataWord(data, 1, i);
      w[i] := WordAt(data, 4 * (16 + i));
    }
    w[4] := 0x8000_0000;
    w[15] := 0x280;
    PadWords(data, 1, 4);
    FilledBlock(w[..], Padded(data), 1);
    Process(w, state, core, Padded(data), 1);
    HashHasStateWords(state[..]);
    return StateToHash(state[..]);
  }

  method Sha256Of32(data: seq<u8>, core: Core) returns (h: Bytes32)
    requires |data| == 32
    ensures h == Digest(data, core)
    ensures |Padded(data)| == 64 && WordsOf(h, Fold(Padded(data), 1, core))
  {
    hide Padded, Block, BlockWord, WordAt, StateToHash, WordsOf;
    PadSize(data);
    var state := InitialState();
    var w := new u64[64](_ => 0);
    for i := 0 to 8
      invariant state[..] == IV
      invariant forall j :: 0 <= j < i ==> w[j] == BlockWord(Padded(data), 0, j)
      invariant forall j :: i <= j < 64 ==> w[j] == 0
    {
      DataWord(data, 0, i);
      w[i] := WordAt(data, 4 * i);
    }
    w[8] := 0x8000_0000;
    w[15] := 0x100;
    PadWords(data, 0, 8);
    FilledBlock(w[..], Padded(data), 0);
    Process(w, state, core, Padded(data), 0);
    HashHasStateWords(state[..]);
    return StateToHash(state[..]);
  }

  lemma PadSize(m: seq<u8>)
    ensures |m| == 32 ==> |Padded(m)| == 64
    ensures |m| == 80 || |m| == 116 ==> |Padded(m)| == 128
    ensures |m| == 169 ==> |Padded(m)| == 192
    ensures |Padded(m)| % 64 == 0
  {}

  lemma PadWords(m: seq<u8>, n: nat, first: nat)
    requires first < 14 && 0 < |m| < 0x2000 && 64 * n + 64 == |Padded(m)|
    requires |m| == 64 * n + 4 * first || |m| == 64 * n + 4 * first + 1
    ensures BlockWord(Padded(m), n, first)
         == if |m| == 64 * n + 4 * first then 0x8000_0000 else BeU64(m[|m| - 1], 0x80, 0, 0)
    ensures forall i :: first < i < 15 ==> BlockWord(Padded(m), n, i) == 0
    ensures BlockWord(Padded(m), n, 15) == 8 * |m|
  {
    hide Padded, BlockWord;
    forall i | first <= i < 16
      ensures i > first && i < 15 ==> BlockWord(Padded(m), n, i) == 0
      ensures i == 15 ==> BlockWord(Padded(m), n, i) == 8 * |m|
    {
      PadWord(m, n, i);
    }
    PadWord(m, n, first);
  }

  /** The words of a block that lie inside the message. */
  lemma DataWords(m: seq<u8>, n: nat, count: nat)
    requires count <= 16 && 64 * n + 4 * count <= |m| < 0x2000 && 64 * n + 64 <= |Padded(m)|
    ensures forall i :: 0 <= i < count ==> BlockWord(Padded(m), n, i) == WordAt(m, 64 * n + 4 * i)
  {
    hide Padded, BlockWord, WordAt;
    forall i | 0 <= i < count ensures BlockWord(Padded(m), n, i) == WordAt(m, 64 * n + 4 * i) {
      DataWord(m, n, i);
    }
  }

  /** Bytes 0 to 63, word by word, as both long functions lay them out. */
  function FirstBlock(data: seq<u8>): (ws: seq<u64>)
    requires |data| >= 64
  {
    hide WordAt;
    [
      WordAt(data, 0), WordAt(data, 4), WordAt(data, 8), WordAt(data, 12),
      WordAt(data, 16), WordAt(data, 20), WordAt(data, 24), WordAt(data, 28),
      WordAt(data, 32), WordAt(data, 36), WordAt(data, 40), WordAt(data, 44),
      WordAt(data, 48), WordAt(data, 52), WordAt(data, 56), WordAt(data, 60)
    ]
  }

  /** Bytes 64 to 127 of the 169. */
  function SecondBlockOf169(data: seq<u8>): (ws: seq<u64>)
    requires |data| == 169
  {
    hide WordAt;
    [
      WordAt(data, 64), WordAt(data, 68), WordAt(data, 72), WordAt(data, 76),
      WordAt(data, 80), WordAt(data, 84), WordAt(data, 88), WordAt(data, 92),
      WordAt(data, 96), WordAt(data, 100), WordAt(data, 104), WordAt(data, 108),
      WordAt(data, 112), WordAt(data, 116), WordAt(data, 120), WordAt(data, 124)
    ]
  }

  /** Bytes 128 to 168 of the 169, the end marker beside the last byte, and the bit length. */
  function ThirdBlockOf169(data: seq<u8>): (ws: seq<u64>)
    requires |data| == 169
  {
    hide WordAt, MarkedByte;
    [
      WordAt(data, 128), WordAt(data, 132), WordAt(data, 136), WordAt(data, 140),
      WordAt(data, 144), WordAt(data, 148), WordAt(data, 152), WordAt(data, 156),
      WordAt(data, 160), WordAt(data, 164), MarkedByte(data[168]), ZERO,
      ZERO, ZERO, ZERO, BITS_OF_169
    ]
  }

  /** Bytes 64 to 115 of the 116, the end marker, and the bit length. */
  function SecondBlockOf116(data: seq<u8>): (ws: seq<u64>)
    requires |data| == 116
  {
    hide WordAt;
    [
      WordAt(data, 64), WordAt(data, 68), WordAt(data, 72), WordAt(data, 76),
      WordAt(data, 80), WordAt(data, 84), WordAt(data, 88), WordAt(data, 92),
      WordAt(data, 96), WordAt(data, 100), WordAt(data, 104), WordAt(data, 108),
      WordAt(data, 112), END_MARK, ZERO, BITS_OF_116
    ]
  }

  lemma FirstBlockIs(data: seq<u8>)
    requires |data| == 116 || |data| == 169
    ensures |Padded(data)| >= 64 && FirstBlock(data) == BlockWords(Padded(data), 0)
  {
    hide Padded, BlockWord, WordAt;
    PadSize(data);
    DataWords(data, 0, 16);
  }

  lemma SecondBlockOf169Is(data: seq<u8>)
    requires |data| == 169
    ensures |Padded(data)| >= 128 && SecondBlockOf169(data) == BlockWords(Padded(data), 1)
  {
    hide Padded, BlockWord, WordAt;
    PadSize(data);
    DataWords(data, 1, 16);
  }

  lemma ThirdBlockOf169Is(data: seq<u8>)
    requires |data| == 169
    ensures |Padded(data)| >= 192 && ThirdBlockOf169(data) == BlockWords(Padded(data), 2)
  {
    hide Padded, BlockWord, WordAt, MarkedByte, BeU64;
    PadSize(data);
    DataWords(data, 2, 10);
    PadWords(data, 2, 10);
    MarkedByteIs(data[168]);
  }

  lemma MarkedByteIs(b: u8)
    ensures BeU64(b, 0x80, 0, 0) == MarkedByte(b)
  {}

  lemma SecondBlockOf116Is(data: seq<u8>)
    requires |data| == 116
    ensures |Padded(data)| >= 128 && SecondBlockOf116(data) == BlockWords(Padded(data), 1)
  {
    hide Padded, BlockWord, WordAt, BeU64;
    PadSize(data);
    DataWords(data, 1, 13);
    PadWords(data, 1, 13);
  }

  method Sha256Of169(data: seq<u8>, core: Core) returns (h: Bytes32)
    requires |data| == 169
    ensures h == Digest(data, core)
    ensures |Padded(data)| == 192 && WordsOf(h, Fold(Padded(data), 3, core))
  {
    hide Padded, BlockWords, StateToHash, WordsOf, FirstBlock, SecondBlockOf169, ThirdBlockOf169;
    PadSize(data);
    var state := InitialState();
    FirstBlockIs(data);
    var w := ScheduleOf(FirstBlock(data));
    Process(w, state, core, Padded(data), 0);
    SecondBlockOf169Is(data);
    w := ScheduleOf(SecondBlockOf169(data));
    Process(w, state, core, Padded(data), 1);
    ThirdBlockOf169Is(data);
    w := ScheduleOf(ThirdBlockOf169(data));
    Process(w, state, core, Padded(data), 2);
    HashHasStateWords(state[..]);
    return StateToHash(state[..]);
  }

  method Sha256Of116(data: seq<u8>, core: Core) returns (h: Bytes32)
    requires |data| == 116
    ensures h == Digest(data, core)
    ensures |Padded(data)| == 128 && WordsOf(h, Fold(Padded(data), 2, core))
  {
    hide Padded, BlockWords, StateToHash, WordsOf, FirstBlock, SecondBlockOf116;
    PadSize(data);
    var state := InitialState();
    FirstBlockIs(data);
    var w := ScheduleOf(FirstBlock(data));
    Process(w, state, core, Padded(data), 0);
    SecondBlockOf116Is(data);
    w := ScheduleOf(SecondBlockOf116(data));
    Process(w, state, core, Padded(data), 1);
    HashHasStateWords(state[..]);
    return StateToHash(state[..]);
  }

  /** The double hash of a block header. */
  method Sha256dOf80(data: seq<u8>, core: Core) returns (h: Bytes32)
    requires |data| == 80
    ensures h == Digest(Digest(data, core), core)
  {
    hide Digest;
    var inner := Sha256Of80(data, core);
    h := Sha256Of32(inner, core);
  }
}
