/** Wire formats: claims, continuation data, public values, states, headers and hint lists as
    little-endian bytes (`lib.rs`, `input.rs`), with both round trips for each. */
module Wire {
  import opened Words
  import opened Bytes
  import opened Work
  import opened HeaderChain

  type KeyDigest = s: seq<u32> | |s| == 8 witness seq(8, _ => 0)

  datatype ParseError =
    | InvalidLength(expected: nat, actual: nat)
    | UnknownErrorCode(code: u8)

  lemma NumberRoundTrips(n: nat, k: nat)
    requires (k == 4 && n < TWO_32) || (k == 32 && n < TWO_256)
    ensures LeNat(LeBytes(n, k)) == n
  {
    hide LeNat, LeBytes, Pow256;
    Pow256Values();
    LeRoundTrip(n, k);
  }

  /** Decode a 32-bit field. */
  function U32(b: seq<u8>): (n: u32)
    requires |b| == 4
    ensures LeBytes(n, 4) == b
  {
    U32Fits(b);
    LeNat(b)
  }

  lemma U32Fits(b: seq<u8>)
    requires |b| == 4
    ensures LeNat(b) < TWO_32 && LeBytes(LeNat(b), 4) == b
  {
    hide LeNat, LeBytes, Pow256;
    Pow256Values();
    LeNatBound(b);
    LeRoundTripBytes(b);
  }

  /** Decode a 256-bit field. */
  function U256(b: Bytes32): (n: u256)
    ensures LeBytes(n, 32) == b
  {
    U256Fits(b);
    LeNat(b)
  }

  lemma U256Fits(b: Bytes32)
    ensures LeNat(b) < TWO_256 && LeBytes(LeNat(b), 32) == b
  {
    hide LeNat, LeBytes, Pow256;
    Pow256Values();
    LeNatBound(b);
    LeRoundTripBytes(b);
  }

  // ---- lists of 32-bit words ----

  function WordsBytes(ws: seq<u32>): (b: seq<u8>)
    ensures |b| == 4 * |ws|
  {
    if ws == [] then [] else WordsBytes(ws[..|ws| - 1]) + LeBytes(ws[|ws| - 1], 4)
  }

  function ParseWords(b: seq<u8>): (ws: seq<u32>)
    requires |b| % 4 == 0
    ensures 4 * |ws| == |b|
    decreases |b|
  {
    if b == [] then [] else ParseWords(b[..|b| - 4]) + [U32(b[|b| - 4..])]
  }

  lemma {:induction false} WordsRoundTrip(ws: seq<u32>)
    ensures ParseWords(WordsBytes(ws)) == ws
  {
    hide U32, LeBytes;
    if ws == [] {
    } else {
      var n := |ws| - 1;
      WordsRoundTrip(ws[..n]);
      U32RoundTrip(ws[n]);
      var b := WordsBytes(ws);
      assert b[..|b| - 4] == WordsBytes(ws[..n]) && b[|b| - 4..] == LeBytes(ws[n], 4);
    }
  }

  lemma U32RoundTrip(n: u32)
    ensures U32(LeBytes(n, 4)) == n
  {
    NumberRoundTrips(n, 4);
  }

  lemma {:induction false} WordsReencode(b: seq<u8>)
    requires |b| % 4 == 0
    ensures WordsBytes(ParseWords(b)) == b
    decreases |b|
  {
    hide U32, LeBytes;
    if b == [] {
    } else {
      WordsReencode(b[..|b| - 4]);
      assert b == b[..|b| - 4] + b[|b| - 4..];
    }
  }

  /** `serialize_median_hints`. */
  method SerializeMedianHints(medians: seq<u32>) returns (bytes: seq<u8>)
    ensures bytes == WordsBytes(medians)
  {
    hide LeBytes;
    bytes := [];
    for i := 0 to |medians|
      invariant bytes == WordsBytes(medians[..i])
    {
      assert medians[..i + 1][..i] == medians[..i];
      bytes := bytes + LeBytes(medians[i], 4);
    }
    assert medians[..|medians|] == medians;
  }

  function ParseMedianHints(b: seq<u8>, count: nat): Result<seq<u32>, ParseError> {
    if |b| != 4 * count then Err(InvalidLength(4 * count, |b|)) else Ok(ParseWords(b))
  }

  /** A hint payload is accepted exactly when it is the encoding of that many medians. */
  lemma MedianHintsDecodeExactly(b: seq<u8>, count: nat, ms: seq<u32>)
    ensures ParseMedianHints(b, count) == Ok(ms) <==> |ms| == count && b == WordsBytes(ms)
  {
    hide WordsBytes, ParseWords;
    WordsRoundTrip(ms);
    if |b| == 4 * count {
      WordsReencode(b);
    }
  }

  /** Word `i` of a list sits at four times its index. */
  lemma {:induction false} WordsLayout(ws: seq<u32>, i: nat)
    requires i < |ws|
    ensures WordsBytes(ws)[4 * i..4 * i + 4] == LeBytes(ws[i], 4)
  {
    hide LeBytes;
    var n, b := |ws| - 1, WordsBytes(ws);
    assert b == WordsBytes(ws[..n]) + LeBytes(ws[n], 4);
    if i == n {
    } else {
      WordsLayout(ws[..n], i);
      assert b[..4 * n] == WordsBytes(ws[..n]);
      assert b[4 * i..4 * i + 4] == b[..4 * n][4 * i..4 * i + 4];
    }
  }

  // ---- new headers ----

  function NewHeaderBytes(h: NewHeader): (b: seq<u8>)
    ensures |b| == 44
  {
    LeBytes(h.version, 4) + h.merkleRoot + LeBytes(h.timestamp, 4) + LeBytes(h.nonce, 4)
  }

  function ParseNewHeader(b: seq<u8>): (h: NewHeader)
    requires |b| == 44
    ensures NewHeaderBytes(h) == b
  {
    assert b == b[0..4] + b[4..36] + b[36..40] + b[40..44];
    NewHeader(U32(b[0..4]), b[4..36], U32(b[36..40]), U32(b[40..44]))
  }

  /** Where each field sits in the 44 bytes. */
  lemma NewHeaderLayout(h: NewHeader)
    ensures var b := NewHeaderBytes(h);
            && b[0..4] == LeBytes(h.version, 4) && b[4..36] == h.merkleRoot
            && b[36..40] == LeBytes(h.timestamp, 4) && b[40..44] == LeBytes(h.nonce, 4)
  {
    hide LeBytes;
  }

  lemma NewHeaderRoundTrips(h: NewHeader)
    ensures ParseNewHeader(NewHeaderBytes(h)) == h
  {
    hide U32, LeBytes;
    U32RoundTrip(h.version);
    U32RoundTrip(h.timestamp);
    U32RoundTrip(h.nonce);
    NewHeaderLayout(h);
  }

  function NewHeadersBytes(hs: seq<NewHeader>): (b: seq<u8>)
    ensures |b| == 44 * |hs|
  {
    if hs == [] then [] else NewHeadersBytes(hs[..|hs| - 1]) + NewHeaderBytes(hs[|hs| - 1])
  }

  function ParseHeaderList(b: seq<u8>): (hs: seq<NewHeader>)
    requires |b| % 44 == 0
    ensures 44 * |hs| == |b|
    decreases |b|
  {
    if b == [] then [] else ParseHeaderList(b[..|b| - 44]) + [ParseNewHeader(b[|b| - 44..])]
  }

  /** Header `i` of a list sits at forty-four times its index. */
  lemma {:induction false} NewHeadersLayout(hs: seq<NewHeader>, i: nat)
    requires i < |hs|
    ensures NewHeadersBytes(hs)[44 * i..44 * i + 44] == NewHeaderBytes(hs[i])
  {
    hide NewHeaderBytes;
    var n, b := |hs| - 1, NewHeadersBytes(hs);
    assert b == NewHeadersBytes(hs[..n]) + NewHeaderBytes(hs[n]);
    if i == n {
    } else {
      NewHeadersLayout(hs[..n], i);
      assert b[..44 * n] == NewHeadersBytes(hs[..n]);
      assert b[44 * i..44 * i + 44] == b[..44 * n][44 * i..44 * i + 44];
    }
  }

  /** `serialize_new_headers`. */
  method SerializeNewHeaders(headers: seq<NewHeader>) returns (bytes: seq<u8>)
    ensures bytes == NewHeadersBytes(headers)
  {
    hide NewHeaderBytes;
    bytes := [];
    for i := 0 to |headers|
      invariant bytes == NewHeadersBytes(headers[..i])
    {
      assert headers[..i + 1][..i] == headers[..i];
      bytes := bytes + NewHeaderBytes(headers[i]);
    }
    assert headers[..|headers|] == headers;
  }

  /** The reported expectation is the length rounded up to whole headers. */
  function ParseNewHeaders(b: seq<u8>): Result<seq<NewHeader>, ParseError> {
    if |b| % 44 != 0 then Err(InvalidLength((|b| + 43) / 44 * 44, |b|)) else Ok(ParseHeaderList(b))
  }

  /** A header payload is accepted exactly when it is the encoding of some header list. */
  lemma NewHeadersDecodeExactly(b: seq<u8>, hs: seq<NewHeader>)
    ensures ParseNewHeaders(b) == Ok(hs) <==> b == NewHeadersBytes(hs)
    ensures ParseNewHeaders(b).Err? ==> var e := ParseNewHeaders(b).error;
              e.expected % 44 == 0 && |b| < e.expected < |b| + 44 && e.actual == |b|
  {
    hide NewHeadersBytes, ParseHeaderList;
    HeaderListRoundTrip(hs);
    if |b| % 44 == 0 {
      HeaderListReencode(b);
    }
  }

  lemma {:induction false} HeaderListRoundTrip(hs: seq<NewHeader>)
    ensures ParseHeaderList(NewHeadersBytes(hs)) == hs
  {
    hide *;
    if hs == [] {
      NoHeaders();
    } else {
      var init, h := hs[..|hs| - 1], hs[|hs| - 1];
      HeaderListRoundTrip(init);
      RoundTripSnoc(init, h);
      assert hs == init + [h];
    }
  }

  lemma NoHeaders()
    ensures NewHeadersBytes([]) == [] && ParseHeaderList([]) == []
  {}

  lemma RoundTripSnoc(hs: seq<NewHeader>, h: NewHeader)
    requires ParseHeaderList(NewHeadersBytes(hs)) == hs
    ensures ParseHeaderList(NewHeadersBytes(hs + [h])) == hs + [h]
  {
    hide *;
    HeadersBytesSnoc(hs, h);
    NewHeaderRoundTrips(h);
    ParseListSnoc(NewHeadersBytes(hs), NewHeaderBytes(h));
  }

  lemma HeadersBytesSnoc(hs: seq<NewHeader>, h: NewHeader)
    ensures NewHeadersBytes(hs + [h]) == NewHeadersBytes(hs) + NewHeaderBytes(h)
  {
    hide NewHeaderBytes;
    assert (hs + [h])[..|hs|] == hs;
  }

  lemma ParseListSnoc(a: seq<u8>, x: seq<u8>)
    requires |a| % 44 == 0 && |x| == 44
    ensures ParseHeaderList(a + x) == ParseHeaderList(a) + [ParseNewHeader(x)]
  {
    hide ParseNewHeader;
    var b := a + x;
    assert b[..|b| - 44] == a && b[|b| - 44..] == x;
  }

  lemma {:induction false} HeaderListReencode(b: seq<u8>)
    requires |b| % 44 == 0
    ensures NewHeadersBytes(ParseHeaderList(b)) == b
    decreases |b|
  {
    hide NewHeaderBytes, ParseNewHeader;
    if b == [] {
    } else {
      HeaderListReencode(b[..|b| - 44]);
      assert b == b[..|b| - 44] + b[|b| - 44..];
    }
  }

  // ---- full headers ----

  /** The 80-byte header that is hashed. */
  function HeaderBytes(h: Header): (b: seq<u8>)
    ensures |b| == 80
  {
    LeBytes(h.version, 4) + h.prevBlockhash + h.merkleRoot
    + LeBytes(h.timestamp, 4) + LeBytes(h.compactTarget, 4) + LeBytes(h.nonce, 4)
  }

  function ParseHeader(b: seq<u8>): (h: Header)
    requires |b| == 80
    ensures HeaderBytes(h) == b
  {
    assert b == b[0..4] + b[4..36] + b[36..68] + b[68..72] + b[72..76] + b[76..80];
    Header(U32(b[0..4]), b[4..36], b[36..68], U32(b[68..72]), U32(b[72..76]), U32(b[76..80]))
  }

  /** Where each field sits in the 80 bytes. */
  lemma HeaderLayout(h: Header)
    ensures var b := HeaderBytes(h);
            && b[0..4] == LeBytes(h.version, 4) && b[4..36] == h.prevBlockhash && b[36..68] == h.merkleRoot
            && b[68..72] == LeBytes(h.timestamp, 4) && b[72..76] == LeBytes(h.compactTarget, 4)
            && b[76..80] == LeBytes(h.nonce, 4)
  {
    hide LeBytes;
  }

  lemma HeaderRoundTrips(h: Header)
    ensures ParseHeader(HeaderBytes(h)) == h
  {
    hide U32, LeBytes;
    U32RoundTrip(h.version);
    U32RoundTrip(h.timestamp);
    U32RoundTrip(h.compactTarget);
    U32RoundTrip(h.nonce);
    HeaderLayout(h);
  }

  // ---- claims and continuation data ----

  function ClaimBytes(c: Claim): (b: seq<u8>)
    ensures |b| == 100
  {
    c.genesisHash + c.tipHash + LeBytes(c.chainWork, 32) + LeBytes(c.height, 4)
  }

  function ClaimFields(b: seq<u8>): (c: Claim)
    requires |b| == 100
    ensures ClaimBytes(c) == b
  {
    assert b == b[0..32] + b[32..64] + b[64..96] + b[96..100];
    Claim(b[0..32], b[32..64], U256(b[64..96]), U32(b[96..100]))
  }

  function ParseClaim(b: seq<u8>): Result<Claim, ParseError> {
    if |b| != 100 then Err(InvalidLength(100, |b|)) else Ok(ClaimFields(b))
  }

  /** Where each field sits in the 100 bytes. */
  lemma ClaimLayout(c: Claim)
    ensures var b := ClaimBytes(c);
            && b[0..32] == c.genesisHash && b[32..64] == c.tipHash
            && b[64..96] == LeBytes(c.chainWork, 32) && b[96..100] == LeBytes(c.height, 4)
  {
    hide LeBytes;
  }

  lemma U256RoundTrip(n: u256)
    ensures U256(LeBytes(n, 32)) == n
  {
    NumberRoundTrips(n, 32);
  }

  /** Claim bytes parse to a claim exactly when they are its encoding. */
  lemma ClaimDecodesExactly(b: seq<u8>, c: Claim)
    ensures ParseClaim(b) == Ok(c) <==> b == ClaimBytes(c)
  {
    hide U32, U256, LeBytes;
    U256RoundTrip(c.chainWork);
    U32RoundTrip(c.height);
    var e := ClaimBytes(c);
    assert e[0..32] == c.genesisHash && e[32..64] == c.tipHash;
    assert e[64..96] == LeBytes(c.chainWork, 32) && e[96..100] == LeBytes(c.height, 4);
  }

  /** `Claim::to_bytes`: the fields copied to their places in a fixed buffer. */
  method ClaimToBytes(genesisHash: Bytes32, tipHash: Bytes32, chainWork: Limbs, height: u32) returns (b: seq<u8>)
    ensures b == ClaimBytes(Claim(genesisHash, tipHash, Val(chainWork), height))
  {
    hide LeBytes, Val;
    var out := new u8[100](_ => 0);
    var work := ToLeBytes(chainWork);
    CopyAt(out, 0, genesisHash);
    CopyAt(out, 32, tipHash);
    CopyAt(out, 64, work);
    CopyAt(out, 96, LeBytes(height, 4));
    return out[..];
  }

  function ContinuationBytes(d: ContinuationData): (b: seq<u8>)
    ensures |b| == 116
  {
    LeBytes(d.currentNbits, 4) + LeBytes(d.currentWork, 32) + LeBytes(d.currentTarget, 32)
    + LeBytes(d.epochStart, 4) + WordsBytes(d.timestamps)
  }

  function ContinuationFields(b: seq<u8>): (d: ContinuationData)
    requires |b| == 116
    ensures ContinuationBytes(d) == b
  {
    assert b == b[0..4] + b[4..36] + b[36..68] + b[68..72] + b[72..116];
    WordsReencode(b[72..116]);
    ContinuationData(U32(b[0..4]), U256(b[4..36]), U256(b[36..68]), U32(b[68..72]), ParseWords(b[72..116]))
  }

  function ParseContinuation(b: seq<u8>): Result<ContinuationData, ParseError> {
    if |b| != 116 then Err(InvalidLength(116, |b|)) else Ok(ContinuationFields(b))
  }

  lemma ContinuationDecodesExactly(b: seq<u8>, d: ContinuationData)
    ensures ParseContinuation(b) == Ok(d) <==> b == ContinuationBytes(d)
  {
    hide U32, U256, LeBytes, WordsBytes, ParseWords;
    U32RoundTrip(d.currentNbits);
    U256RoundTrip(d.currentWork);
    U256RoundTrip(d.currentTarget);
    U32RoundTrip(d.epochStart);
    WordsRoundTrip(d.timestamps);
    var e := ContinuationBytes(d);
    assert e[0..4] == LeBytes(d.currentNbits, 4) && e[4..36] == LeBytes(d.currentWork, 32);
    assert e[36..68] == LeBytes(d.currentTarget, 32) && e[68..72] == LeBytes(d.epochStart, 4);
    assert e[72..116] == WordsBytes(d.timestamps);
  }

  /** Where each field of a state sits in the 116 bytes of its continuation data. */
  lemma ContinuationLayout(s: Snapshot)
    ensures var b := ContinuationBytes(Continuation(s));
            && b[0..4] == LeBytes(s.currentNbits, 4) && b[4..36] == LeBytes(s.currentWork, 32)
            && b[36..68] == LeBytes(s.currentTarget, 32) && b[68..72] == LeBytes(s.epochStart, 4)
            && forall i :: 0 <= i < 11 ==> b[72 + 4 * i..76 + 4 * i] == LeBytes(s.timestamps[i], 4)
  {
    hide LeBytes, WordsBytes;
    var b := ContinuationBytes(Continuation(s));
    assert b[72..116] == WordsBytes(s.timestamps);
    forall i | 0 <= i < 11 ensures b[72 + 4 * i..76 + 4 * i] == LeBytes(s.timestamps[i], 4) {
      WordsLayout(s.timestamps, i);
      assert b[72 + 4 * i..76 + 4 * i] == b[72..116][4 * i..4 * i + 4];
    }
  }

  lemma ContinuationBytesInjective(a: ContinuationData, b: ContinuationData)
    requires ContinuationBytes(a) == ContinuationBytes(b)
    ensures a == b
  {
    ContinuationDecodesExactly(ContinuationBytes(a), a);
    ContinuationDecodesExactly(ContinuationBytes(b), b);
  }

  /** `ContinuationData::to_bytes`: fixed fields, then the timestamps four bytes apart. */
  method ContinuationToBytes(nbits: u32, work: Limbs, target: Limbs, epochStart: u32, timestamps: Ring)
    returns (b: seq<u8>)
    ensures b == ContinuationBytes(ContinuationData(nbits, Val(work), Val(target), epochStart, timestamps))
  {
    hide LeBytes, Val, WordsBytes;
    var out := new u8[116](_ => 0);
    var workBytes := ToLeBytes(work);
    var targetBytes := ToLeBytes(target);
    CopyAt(out, 0, LeBytes(nbits, 4));
    CopyAt(out, 4, workBytes);
    CopyAt(out, 36, targetBytes);
    CopyAt(out, 68, LeBytes(epochStart, 4));
    assert out[..72] == LeBytes(nbits, 4) + workBytes + targetBytes + LeBytes(epochStart, 4);
    WriteWords(out, 72, timestamps);
    assert out[..116] == out[..];
    return out[..];
  }

  /** Consecutive 32-bit words from position `at`. */
  method WriteWords(out: array<u8>, at: nat, words: seq<u32>)
    requires at + 4 * |words| <= out.Length
    modifies out
    ensures out[..at + 4 * |words|] == old(out[..at]) + WordsBytes(words)
  {
    hide LeBytes, WordsBytes;
    NoWords();
    for i := 0 to |words|
      invariant out[..at + 4 * i] == old(out[..at]) + WordsBytes(words[..i])
    {
      WordsSnoc(words[..i + 1]);
      assert words[..i + 1][..i] == words[..i];
      CopyNext(out, at + 4 * i, LeBytes(words[i], 4));
    }
    assert words[..|words|] == words;
  }

  method CopyNext(out: array<u8>, at: nat, bytes: seq<u8>)
    requires at + |bytes| <= out.Length
    modifies out
    ensures out[..at + |bytes|] == old(out[..at]) + bytes
  {
    ghost var before := out[..at];
    CopyAt(out, at, bytes);
    assert out[..at + |bytes|] == out[..][..at + |bytes|];
  }

  lemma NoWords()
    ensures WordsBytes([]) == []
  {}

  lemma WordsSnoc(ws: seq<u32>)
    requires ws != []
    ensures WordsBytes(ws) == WordsBytes(ws[..|ws| - 1]) + LeBytes(ws[|ws| - 1], 4)
  {
    hide LeBytes;
  }

  // ---- public values ----

  datatype MinimalPublicValues = MinimalPublicValues(
    genesisHash: Bytes32, tipHash: Bytes32, chainWork: Bytes32, height: u32, returnCode: u8,
    failureHeight: u32, continuationDigest: Bytes32, verifierKey: KeyDigest)

  function CodeByte(e: ErrorCode): (b: u8)
    ensures 1 <= b <= 4
  {
    match e
    case HeaderPayloadLengthInvalid => 1
    case PowInsufficient => 2
    case TimestampTooOld => 3
    case GenesisHashMismatch => 4
  }

  function CodeOf(b: u8): Result<ErrorCode, ParseError> {
    match b
    case 1 => Ok(HeaderPayloadLengthInvalid)
    case 2 => Ok(PowInsufficient)
    case 3 => Ok(TimestampTooOld)
    case 4 => Ok(GenesisHashMismatch)
    case _ => Err(UnknownErrorCode(b))
  }

  function SuccessPv(c: Claim, digest: Bytes32, key: KeyDigest): MinimalPublicValues {
    MinimalPublicValues(c.genesisHash, c.tipHash, LeBytes(c.chainWork, 32), c.height, 0, 0, digest, key)
  }

  function FailurePv(c: Claim, e: ErrorCode, failureHeight: u32, digest: Bytes32, key: KeyDigest): MinimalPublicValues {
    MinimalPublicValues(
      c.genesisHash, c.tipHash, LeBytes(c.chainWork, 32), c.height, CodeByte(e), failureHeight, digest, key)
  }

  function PvBytes(p: MinimalPublicValues): (b: seq<u8>)
    ensures |b| == 169
  {
    p.genesisHash + p.tipHash + p.chainWork + LeBytes(p.height, 4) + [p.returnCode]
    + LeBytes(p.failureHeight, 4) + p.continuationDigest + WordsBytes(p.verifierKey)
  }

  function PvFields(b: seq<u8>): (p: MinimalPublicValues)
    requires |b| == 169
    ensures PvBytes(p) == b
  {
    assert b == b[0..32] + b[32..64] + b[64..96] + b[96..100] + [b[100]] + b[101..105] + b[105..137] + b[137..169];
    WordsReencode(b[137..169]);
    MinimalPublicValues(
      b[0..32], b[32..64], b[64..96], U32(b[96..100]), b[100], U32(b[101..105]), b[105..137],
      ParseWords(b[137..169]))
  }

  function ParsePv(b: seq<u8>): Result<MinimalPublicValues, ParseError> {
    if |b| != 169 then Err(InvalidLength(169, |b|)) else Ok(PvFields(b))
  }

  /** Minimal public values parse to a record exactly when the bytes are its encoding. */
  lemma PvDecodesExactly(b: seq<u8>, p: MinimalPublicValues)
    ensures ParsePv(b) == Ok(p) <==> b == PvBytes(p)
  {
    hide U32, LeBytes, WordsBytes, ParseWords;
    U32RoundTrip(p.height);
    U32RoundTrip(p.failureHeight);
    WordsRoundTrip(p.verifierKey);
    var e := PvBytes(p);
    assert e[0..32] == p.genesisHash && e[32..64] == p.tipHash && e[64..96] == p.chainWork;
    assert e[96..100] == LeBytes(p.height, 4) && e[100] == p.returnCode;
    assert e[101..105] == LeBytes(p.failureHeight, 4) && e[105..137] == p.continuationDigest;
    assert e[137..169] == WordsBytes(p.verifierKey);
  }

  /** Where each field sits in the 169 bytes. */
  lemma PvLayout(p: MinimalPublicValues)
    ensures var b := PvBytes(p);
            && b[0..32] == p.genesisHash && b[32..64] == p.tipHash && b[64..96] == p.chainWork
            && b[96..100] == LeBytes(p.height, 4) && b[100] == p.returnCode
            && b[101..105] == LeBytes(p.failureHeight, 4) && b[105..137] == p.continuationDigest
            && b[137..169] == WordsBytes(p.verifierKey)
  {
    hide LeBytes, WordsBytes;
  }

  /** The return codes: 0 is success, 1 to 4 the four errors, and any other byte is refused by name. */
  lemma ReturnCodes(p: MinimalPublicValues)
    ensures CodeByte(HeaderPayloadLengthInvalid) == 1 && CodeByte(PowInsufficient) == 2
    ensures CodeByte(TimestampTooOld) == 3 && CodeByte(GenesisHashMismatch) == 4
    ensures ReadValues(p).Err? <==> p.returnCode > 4
    ensures ReadValues(p).Err? ==> ReadValues(p).error == UnknownErrorCode(p.returnCode)
    ensures ReadValues(p).Ok? && p.returnCode > 0 ==>
              ReadValues(p).value.FailureValues? && CodeByte(ReadValues(p).value.code) == p.returnCode
  {
    hide U256;
  }

  /** `MinimalPublicValues::to_bytes`: every field copied to its documented place. */
  method PvToBytes(p: MinimalPublicValues) returns (b: seq<u8>)
    ensures b == PvBytes(p)
  {
    hide LeBytes, WordsBytes;
    var out := new u8[169](_ => 0);
    CopyNext(out, 0, p.genesisHash);
    assert out[..32] == p.genesisHash;
    CopyNext(out, 32, p.tipHash);
    CopyNext(out, 64, p.chainWork);
    CopyNext(out, 96, LeBytes(p.height, 4));
    CopyNext(out, 100, [p.returnCode]);
    CopyNext(out, 101, LeBytes(p.failureHeight, 4));
    CopyNext(out, 105, p.continuationDigest);
    WriteWords(out, 137, p.verifierKey);
    assert out[..169] == out[..];
    return out[..];
  }

  /** What a reader of committed public values learns. */
  datatype PublicValues =
    | SuccessValues(claim: Claim, digest: Bytes32, key: KeyDigest)
    | FailureValues(code: ErrorCode, failureHeight: u32, lastValidClaim: Claim, digest: Bytes32, key: KeyDigest)

  function EncodeValues(v: PublicValues): MinimalPublicValues {
    match v
    case SuccessValues(c, d, k) => SuccessPv(c, d, k)
    case FailureValues(e, h, c, d, k) => FailurePv(c, e, h, d, k)
  }

  function ReadValues(p: MinimalPublicValues): Result<PublicValues, ParseError> {
    var claim := Claim(p.genesisHash, p.tipHash, U256(p.chainWork), p.height);
    if p.returnCode == 0 then
      Ok(SuccessValues(claim, p.continuationDigest, p.verifierKey))
    else
      match CodeOf(p.returnCode)
      case Err(e) => Err(e)
      case Ok(code) => Ok(FailureValues(code, p.failureHeight, claim, p.continuationDigest, p.verifierKey))
  }

  function ParsePublicValues(b: seq<u8>): Result<PublicValues, ParseError> {
    match ParsePv(b)
    case Err(e) => Err(e)
    case Ok(p) => ReadValues(p)
  }

  lemma ReadDecodesExactly(p: MinimalPublicValues, v: PublicValues)
    ensures ReadValues(EncodeValues(v)) == Ok(v)
    ensures ReadValues(p) == Ok(v) <==>
              p == EncodeValues(v).(failureHeight := p.failureHeight)
              && (v.FailureValues? ==> v.failureHeight == p.failureHeight)
  {
    hide U256, LeBytes;
    U256RoundTrip(if v.SuccessValues? then v.claim.chainWork else v.lastValidClaim.chainWork);
  }

  /** Committed public values are read back as what was committed, so a success is never taken for
      a failure. Bytes that read as `v` are its encoding, except that a success hides whatever
      failure height the bytes carry: exactly those with a zero one re-encode to themselves. */
  lemma PublicValuesDecode(b: seq<u8>, v: PublicValues)
    ensures ParsePublicValues(PvBytes(EncodeValues(v))) == Ok(v)
    ensures ParsePublicValues(b) == Ok(v) ==>
              (PvBytes(EncodeValues(v)) == b <==>
               v.FailureValues? || (|b| == 169 && PvFields(b).failureHeight == 0))
  {
    hide PvBytes, PvFields, EncodeValues, ReadValues;
    PvDecodesExactly(PvBytes(EncodeValues(v)), EncodeValues(v));
    ReadDecodesExactly(EncodeValues(v), v);
    if ParsePublicValues(b) == Ok(v) {
      var p := PvFields(b);
      ReadDecodesExactly(p, v);
      PvDecodesExactly(b, p);
      PvDecodesExactly(b, EncodeValues(v));
      EncodedHeights(v);
    }
  }

  /** A success that carries a failure height parses as the success and does not re-encode to the
      bytes it was read from. */
  lemma SuccessHidesFailureHeight(c: Claim, digest: Bytes32, key: KeyDigest)
    ensures var b, v := PvBytes(SuccessPv(c, digest, key).(failureHeight := 1)), SuccessValues(c, digest, key);
            ParsePublicValues(b) == Ok(v) && PvBytes(EncodeValues(v)) != b
  {
    hide PvBytes, PvFields, U256, LeBytes;
    var p, v := SuccessPv(c, digest, key).(failureHeight := 1), SuccessValues(c, digest, key);
    PvDecodesExactly(PvBytes(p), p);
    ReadDecodesExactly(p, v);
    PublicValuesDecode(PvBytes(p), v);
  }

  lemma EncodedHeights(v: PublicValues)
    ensures EncodeValues(v).failureHeight == if v.SuccessValues? then 0 else v.failureHeight
  {}

  /** The two kinds of public values never share an encoding, and each kind is injective. */
  lemma PublicValuesInjective(v: PublicValues, w: PublicValues)
    requires PvBytes(EncodeValues(v)) == PvBytes(EncodeValues(w))
    ensures v == w
  {
    hide PvBytes, EncodeValues;
    PublicValuesDecode(PvBytes(EncodeValues(v)), v);
    PublicValuesDecode(PvBytes(EncodeValues(w)), w);
  }

  // ---- the guest's inputs ----

  datatype Proof = Proof(publicValuesDigest: Bytes32, exitCode: u8, pad: seq<u8>)

  type WireProof = p: Proof | |p.pad| == 3 witness Proof(seq(32, _ => 0), 0, [0, 0, 0])

  datatype ProofCarryingState = ProofCarryingState(claim: Claim, verifierKey: KeyDigest, proof: WireProof)

  function PcsBytes(p: ProofCarryingState): (b: seq<u8>)
    ensures |b| == 168
  {
    ClaimBytes(p.claim) + WordsBytes(p.verifierKey)
    + p.proof.publicValuesDigest + [p.proof.exitCode] + p.proof.pad
  }

  function PcsFields(b: seq<u8>): (p: ProofCarryingState)
    requires |b| == 168
    ensures PcsBytes(p) == b
  {
    assert b == b[0..100] + b[100..132] + b[132..164] + [b[164]] + b[165..168];
    WordsReencode(b[100..132]);
    ProofCarryingState(ClaimFields(b[0..100]), ParseWords(b[100..132]), Proof(b[132..164], b[164], b[165..168]))
  }

  function ParsePcs(b: seq<u8>): Result<ProofCarryingState, ParseError> {
    if |b| != 168 then Err(InvalidLength(168, |b|)) else Ok(PcsFields(b))
  }

  lemma PcsDecodesExactly(b: seq<u8>, p: ProofCarryingState)
    ensures ParsePcs(b) == Ok(p) <==> b == PcsBytes(p)
  {
    hide LeBytes, ClaimBytes, ClaimFields, WordsBytes, ParseWords;
    ClaimDecodesExactly(ClaimBytes(p.claim), p.claim);
    WordsRoundTrip(p.verifierKey);
    var e := PcsBytes(p);
    assert e[0..100] == ClaimBytes(p.claim) && e[100..132] == WordsBytes(p.verifierKey);
    assert e[132..164] == p.proof.publicValuesDigest && e[164] == p.proof.exitCode && e[165..168] == p.proof.pad;
  }

  /** Where each field sits in the 168 bytes. */
  lemma PcsLayout(p: ProofCarryingState)
    ensures var b := PcsBytes(p);
            && b[0..100] == ClaimBytes(p.claim) && b[100..132] == WordsBytes(p.verifierKey)
            && b[132..164] == p.proof.publicValuesDigest && b[164] == p.proof.exitCode
            && b[165..168] == p.proof.pad
  {
    hide ClaimBytes, WordsBytes;
  }

  /** The private state witness: the fields of `State` in declaration order. */
  function StateBytes(s: Snapshot): (b: seq<u8>)
    ensures |b| == 296
  {
    HeaderBytes(s.header) + s.blockHash + s.genesisHash + LeBytes(s.currentNbits, 4) + LeBytes(s.height, 4)
    + LeBytes(s.chainWork, 32) + LeBytes(s.currentWork, 32) + LeBytes(s.currentTarget, 32)
    + LeBytes(s.epochStart, 4) + WordsBytes(s.timestamps)
  }

  function StateFields(b: seq<u8>): (s: Snapshot)
    requires |b| == 296
    ensures StateBytes(s) == b
  {
    assert b == b[0..80] + b[80..112] + b[112..144] + b[144..148] + b[148..152] + b[152..184] + b[184..216]
                + b[216..248] + b[248..252] + b[252..296];
    WordsReencode(b[252..296]);
    Snapshot(ParseHeader(b[0..80]), b[80..112], b[112..144], U32(b[144..148]), U32(b[148..152]),
             U256(b[152..184]), U256(b[184..216]), U256(b[216..248]), U32(b[248..252]), ParseWords(b[252..296]))
  }

  function ParseState(b: seq<u8>): Result<Snapshot, ParseError> {
    if |b| != 296 then Err(InvalidLength(296, |b|)) else Ok(StateFields(b))
  }

  /** Where each field sits in the 296 bytes; declaration order leaves no padding. */
  lemma StateLayout(s: Snapshot)
    ensures var b := StateBytes(s);
            && b[0..80] == HeaderBytes(s.header) && b[80..112] == s.blockHash && b[112..144] == s.genesisHash
            && b[144..148] == LeBytes(s.currentNbits, 4) && b[148..152] == LeBytes(s.height, 4)
            && b[152..184] == LeBytes(s.chainWork, 32) && b[184..216] == LeBytes(s.currentWork, 32)
            && b[216..248] == LeBytes(s.currentTarget, 32) && b[248..252] == LeBytes(s.epochStart, 4)
            && b[252..296] == WordsBytes(s.timestamps)
  {
    hide LeBytes, HeaderBytes, WordsBytes;
  }

  lemma StateDecodesExactly(b: seq<u8>, s: Snapshot)
    ensures ParseState(b) == Ok(s) <==> b == StateBytes(s)
  {
    hide U32, U256, LeBytes, HeaderBytes, ParseHeader, WordsBytes, ParseWords;
    HeaderRoundTrips(s.header);
    U32RoundTrip(s.currentNbits);
    U32RoundTrip(s.height);
    U256RoundTrip(s.chainWork);
    U256RoundTrip(s.currentWork);
    U256RoundTrip(s.currentTarget);
    U32RoundTrip(s.epochStart);
    WordsRoundTrip(s.timestamps);
    StateLayout(s);
  }

  /** Every fixed-length parser refuses exactly the other lengths, reporting both. */
  lemma LengthsAreChecked(b: seq<u8>, count: nat)
    ensures ParseClaim(b).Err? <==> |b| != 100
    ensures |b| != 100 ==> ParseClaim(b).error == InvalidLength(100, |b|)
    ensures ParseContinuation(b).Err? <==> |b| != 116
    ensures |b| != 116 ==> ParseContinuation(b).error == InvalidLength(116, |b|)
    ensures ParsePv(b).Err? <==> |b| != 169
    ensures |b| != 169 ==> ParsePv(b).error == InvalidLength(169, |b|)
    ensures ParsePcs(b).Err? <==> |b| != 168
    ensures |b| != 168 ==> ParsePcs(b).error == InvalidLength(168, |b|)
    ensures ParseState(b).Err? <==> |b| != 296
    ensures |b| != 296 ==> ParseState(b).error == InvalidLength(296, |b|)
    ensures ParseMedianHints(b, count).Err? <==> |b| != 4 * count
    ensures |b| != 4 * count ==> ParseMedianHints(b, count).error == InvalidLength(4 * count, |b|)
  {
    hide ClaimFields, ContinuationFields, PvFields, PcsFields, StateFields, ParseWords;
  }
}
