/** Segment-aware encoding and reassembly. */
module Segmenter {
  import opened Bytes
  import opened Numbers
  import opened Vectors
  import opened Span
  import opened Pieces
  import opened Encoder
  import opened Decoder
  import opened Runs
  import opened Homomorphic

  // ---------- Segments ----------

  /** The i-th segment; the last one may be shorter. */
  function Segment(data: Vec, size: nat, i: nat): Vec
    requires i * size <= |data|
  {
    data[i * size..Least(i * size + size, |data|)]
  }

  lemma SegmentStarts(length: nat, size: nat, i: nat)
    requires size > 0 && i < DivCeil(length, size)
    ensures i * size < length
  {
    var n := DivCeil(length, size);
    DivCeilCovers(length, size, n);
    MultipleMonotone(i, n - 1, size);
  }

  function SegmentEncoder(data: Vec, config: ErasureConfig, i: nat): RlncEncoder
    requires config.pieceSize > 0 && i * config.segmentSize <= |data|
  {
    RlncEncoder(Split(Segment(data, config.segmentSize, i), config.pieceSize), config.pieceSize)
  }

  /** `i as u32`. */
  function SegmentIndex(i: nat): u32 {
    Wrap(i, U32)
  }

  /** The cast keeps numbers apart exactly below 2^32. */
  lemma CastDistinctIff(n: nat)
    ensures n <= 0x1_0000_0000 <==> forall i, j :: 0 <= i < j < n ==> SegmentIndex(i) != SegmentIndex(j)
  {
    if n <= U32 {
      forall i: nat | i < n ensures SegmentIndex(i) == i {
        WrapSmall(i, U32);
      }
    } else {
      WrapSmall(0, U32);
      assert SegmentIndex(0) == SegmentIndex(U32);
    }
  }

  /** One encoded segment: its index as `u32`, then source pieces and coded pieces. */
  ghost function EncodedSegment(data: Vec, config: ErasureConfig, i: nat, draws: seq<Vec>): (nat, seq<CodedPiece>)
    requires config.pieceSize > 0 && i * config.segmentSize <= |data|
    requires Uniform(draws, SegmentEncoder(data, config, i).K())
  {
    var e := SegmentEncoder(data, config, i);
    (SegmentIndex(i), e.SourcePieces() + e.Parity(draws))
  }

  /** The coefficient draws have the count and the length that each segment asks for. */
  ghost predicate DrawsFit(data: Vec, config: ErasureConfig, draws: seq<seq<Vec>>)
    requires config.pieceSize > 0 && config.segmentSize > 0
  {
    && |draws| == DivCeil(|data|, config.segmentSize)
    && forall i :: 0 <= i < |draws| ==>
         i * config.segmentSize <= |data|
         && |draws[i]| == config.ParityCount(SegmentEncoder(data, config, i).K())
         && Uniform(draws[i], SegmentEncoder(data, config, i).K())
  }

  /** All encoded segments in order. */
  ghost function AllEncoded(data: Vec, config: ErasureConfig, draws: seq<seq<Vec>>): seq<(nat, seq<CodedPiece>)>
    requires config.pieceSize > 0 && config.segmentSize > 0 && DrawsFit(data, config, draws)
  {
    seq(|draws|, i requires 0 <= i < |draws| => EncodedSegment(data, config, i, draws[i]))
  }

  /** Each segment yields its source pieces and the parity percentage of them, rounded down. */
  lemma PieceCount(data: Vec, config: ErasureConfig, draws: seq<seq<Vec>>, i: nat)
    requires config.pieceSize > 0 && config.segmentSize > 0 && DrawsFit(data, config, draws) && i < |draws|
    ensures var k, parity := SegmentEncoder(data, config, i).K(), |draws[i]|;
      && |AllEncoded(data, config, draws)[i].1| == k + parity
      && parity * 100 <= k * config.initialParity < (parity + 1) * 100
  {}

  method EncodeSegment(data: Vec, config: ErasureConfig, i: nat, draws: seq<Vec>)
    returns (r: Result<(nat, seq<CodedPiece>)>)
    requires config.segmentSize > 0 && i * config.segmentSize < |data|
    requires config.pieceSize > 0 ==>
      Uniform(draws, SegmentEncoder(data, config, i).K())
      && |draws| == config.ParityCount(SegmentEncoder(data, config, i).K())
    ensures config.pieceSize == 0 ==> r == Err(InvalidConfig("piece_size must be > 0"))
    ensures config.pieceSize > 0 ==> r == Ok(EncodedSegment(data, config, i, draws))
  {
    var start := i * config.segmentSize;
    var end := Least(start + config.segmentSize, |data|);
    var encoder := NewEncoder(data[start..end], config.pieceSize);
    if encoder.Err? {
      return Err(encoder.error);
    }
    var pieces := encoder.value.Encode(draws[..config.ParityCount(encoder.value.K())]);
    assert draws[..|draws|] == draws;
    return Ok((SegmentIndex(i), pieces));
  }

  lemma CompleteEncoding(data: Vec, config: ErasureConfig, draws: seq<seq<Vec>>, results: seq<(nat, seq<CodedPiece>)>)
    requires config.pieceSize > 0 && config.segmentSize > 0 && DrawsFit(data, config, draws)
    requires |results| == |draws| && forall i :: 0 <= i < |draws| ==>
      i * config.segmentSize <= |data| && results[i] == EncodedSegment(data, config, i, draws[i])
    ensures results == AllEncoded(data, config, draws)
  {}

  /** Encodes every segment, or reports the first error. */
  method SegmentAndEncode(data: Vec, config: ErasureConfig, draws: seq<seq<Vec>>)
    returns (r: Result<seq<(nat, seq<CodedPiece>)>>)
    requires |data| > 0 ==> config.segmentSize > 0
    requires |data| > 0 && config.pieceSize > 0 ==> DrawsFit(data, config, draws)
    ensures |data| == 0 ==> r == Err(EmptyData)
    ensures |data| > 0 && config.pieceSize == 0 ==> r == Err(InvalidConfig("piece_size must be > 0"))
    ensures |data| > 0 && config.pieceSize > 0 ==> r == Ok(AllEncoded(data, config, draws))
  {
    if |data| == 0 {
      return Err(EmptyData);
    }
    var numSegments := DivCeil(|data|, config.segmentSize);
    DivCeilCovers(|data|, config.segmentSize, numSegments);
    var results: seq<(nat, seq<CodedPiece>)> := [];
    for i := 0 to numSegments
      invariant |results| == i && (config.pieceSize == 0 ==> i == 0)
      invariant config.pieceSize > 0 ==> forall q :: 0 <= q < i ==>
        q * config.segmentSize <= |data| && results[q] == EncodedSegment(data, config, q, draws[q])
    {
      SegmentStarts(|data|, config.segmentSize, i);
      var encoded := EncodeSegment(data, config, i, if config.pieceSize > 0 then draws[i] else []);
      if encoded.Err? {
        return Err(encoded.error);
      }
      results := results + [encoded.value];
    }
    CompleteEncoding(data, config, draws, results);
    return Ok(results);
  }

  // ---------- Reassembly ----------

  function Decimal(n: nat): string {
    if n < 10 then ["0123456789"[n]] else Decimal(n / 10) + ["0123456789"[n % 10]]
  }

  function ValueOf(digits: string): int {
    if |digits| == 0 then 0
    else ValueOf(digits[..|digits| - 1]) * 10 + digits[|digits| - 1] as int - '0' as int
  }

  /** The decimal text reads back as the number. */
  lemma {:induction false} DecimalReadsBack(n: nat)
    ensures ValueOf(Decimal(n)) == n && |Decimal(n)| > 0
  {
    var init := if n < 10 then "" else Decimal(n / 10);
    assert Decimal(n) == init + ["0123456789"[n % 10]];
    assert Decimal(n)[..|init|] == init;
    DigitValue(n % 10);
    if n >= 10 {
      DecimalReadsBack(n / 10);
    }
  }

  lemma DigitValue(d: nat)
    requires d < 10
    ensures "0123456789"[d] as int - '0' as int == d
  {}

  function SegmentLength(config: ErasureConfig, originalLen: nat, i: nat): nat
    requires i * config.segmentSize <= originalLen
  {
    Least((i + 1) * config.segmentSize, originalLen) - i * config.segmentSize
  }

  /** What the source asks of its caller: no segment starts past the end, and pieces have the right shape. */
  ghost predicate Reassemblable(segments: map<nat, seq<CodedPiece>>, total: nat, config: ErasureConfig,
                                originalLen: nat) {
    config.pieceSize > 0 && forall i: nat :: i < total ==> SegmentReady(segments, config, originalLen, i)
  }

  ghost predicate SegmentReady(segments: map<nat, seq<CodedPiece>>, config: ErasureConfig, originalLen: nat, i: nat)
    requires config.pieceSize > 0
  {
    && i * config.segmentSize <= originalLen
    && (i in segments ==> Decodable(config.KForSegment(SegmentLength(config, originalLen, i)), segments[i]))
  }

  ghost function SegmentResult(segments: map<nat, seq<CodedPiece>>, config: ErasureConfig, originalLen: nat, i: nat)
    : Result<Vec>
    requires config.pieceSize > 0 && SegmentReady(segments, config, originalLen, i)
  {
    if i !in segments then Err(DecodingFailed("missing segment " + Decimal(i)))
    else
      var length := SegmentLength(config, originalLen, i);
      DecodeResult(config.KForSegment(length), length, segments[i])
  }

  /** The decoded segments below `n` in order, or the error of the first that fails. */
  ghost function Joined(segments: map<nat, seq<CodedPiece>>, n: nat, config: ErasureConfig, originalLen: nat)
    : Result<Vec>
    requires Reassemblable(segments, n, config, originalLen)
  {
    if n == 0 then Ok([])
    else match Joined(segments, n - 1, config, originalLen)
      case Err(e) => Err(e)
      case Ok(bytes) =>
        match SegmentResult(segments, config, originalLen, n - 1)
        case Err(e) => Err(e)
        case Ok(segment) => Ok(bytes + segment)
  }

  ghost function Reassembled(segments: map<nat, seq<CodedPiece>>, total: nat, config: ErasureConfig, originalLen: nat)
    : Result<Vec>
    requires Reassemblable(segments, total, config, originalLen)
  {
    match Joined(segments, total, config, originalLen)
    case Err(e) => Err(e)
    case Ok(bytes) => Ok(Truncate(bytes, originalLen))
  }

  lemma JoinedStep(segments: map<nat, seq<CodedPiece>>, n: nat, config: ErasureConfig, originalLen: nat, bytes: Vec)
    requires config.pieceSize > 0 && Reassemblable(segments, n, config, originalLen)
    requires SegmentReady(segments, config, originalLen, n) && Joined(segments, n, config, originalLen) == Ok(bytes)
    ensures Reassemblable(segments, n + 1, config, originalLen)
    ensures Joined(segments, n + 1, config, originalLen) ==
      match SegmentResult(segments, config, originalLen, n)
      case Err(e) => Err(e)
      case Ok(segment) => Ok(bytes + segment)
  {}

  /** Looks one segment up and decodes it. */
  method DecodeSegment(segments: map<nat, seq<CodedPiece>>, config: ErasureConfig, originalLen: nat, i: nat)
    returns (r: Result<Vec>)
    requires config.pieceSize > 0 && SegmentReady(segments, config, originalLen, i)
    ensures r == SegmentResult(segments, config, originalLen, i)
  {
    if i !in segments {
      return Err(DecodingFailed("missing segment " + Decimal(i)));
    }
    var length := SegmentLength(config, originalLen, i);
    var decoder := RlncDecoder(config.KForSegment(length), config.pieceSize, length);
    r := decoder.Decode(segments[i]);
  }

  /** Decodes the segments in order, appends them and truncates; the number of segments is a `u32`. */
  method DecodeAndReassemble(segments: map<nat, seq<CodedPiece>>, total: nat, config: ErasureConfig, originalLen: nat)
    returns (r: Result<Vec>)
    requires total < U32 && Reassemblable(segments, total, config, originalLen)
    ensures r == Reassembled(segments, total, config, originalLen)
  {
    var result: Vec := [];
    for i := 0 to total
      invariant Joined(segments, i, config, originalLen) == Ok(result)
    {
      assert SegmentReady(segments, config, originalLen, i);
      var decoded := DecodeSegment(segments, config, originalLen, i);
      JoinedStep(segments, i, config, originalLen, result);
      if decoded.Err? {
        FirstErrorStays(segments, i + 1, total, config, originalLen);
        return Err(decoded.error);
      }
      result := result + decoded.value;
    }
    return Ok(Truncate(result, originalLen));
  }

  lemma {:induction false} FirstErrorStays(segments: map<nat, seq<CodedPiece>>, n: nat, total: nat,
                                           config: ErasureConfig, originalLen: nat)
    requires Reassemblable(segments, total, config, originalLen) && n <= total
    requires Joined(segments, n, config, originalLen).Err?
    ensures Joined(segments, total, config, originalLen) == Joined(segments, n, config, originalLen)
  {
    if n < total {
      FirstErrorStays(segments, n, total - 1, config, originalLen);
    }
  }

  // ---------- When reassembly succeeds ----------

  /** The segment is at hand with at least `k` pieces, and its first `k` are independent. */
  ghost predicate Usable(segments: map<nat, seq<CodedPiece>>, config: ErasureConfig, originalLen: nat, i: nat)
    requires config.pieceSize > 0 && i * config.segmentSize <= originalLen
  {
    var k := config.KForSegment(SegmentLength(config, originalLen, i));
    i in segments && |segments[i]| >= k && Rank(Coefficients(segments[i][..k])) == k
  }

  /** Why a segment that is not usable fails: it is missing, too few pieces, or dependent ones. */
  ghost predicate FailsWith(segments: map<nat, seq<CodedPiece>>, config: ErasureConfig, originalLen: nat, i: nat,
                            e: ErasureError)
    requires config.pieceSize > 0 && i * config.segmentSize <= originalLen
  {
    var k := config.KForSegment(SegmentLength(config, originalLen, i));
    && (i !in segments ==> e == DecodingFailed("missing segment " + Decimal(i)))
    && (i in segments && |segments[i]| < k ==> e == InsufficientPieces(|segments[i]|, k))
    && (i in segments && |segments[i]| >= k ==> e == LinearlyDependent)
  }

  lemma SegmentOutcome(segments: map<nat, seq<CodedPiece>>, config: ErasureConfig, originalLen: nat, i: nat)
    requires config.pieceSize > 0 && SegmentReady(segments, config, originalLen, i)
    ensures var r := SegmentResult(segments, config, originalLen, i);
      && (r.Ok? <==> Usable(segments, config, originalLen, i))
      && (r.Err? ==> FailsWith(segments, config, originalLen, i, r.error))
  {
    var length := SegmentLength(config, originalLen, i);
    var k := config.KForSegment(length);
    if i in segments && |segments[i]| >= k {
      DecodeComplete(k, length, segments[i]);
    }
  }

  ghost predicate AllUsable(segments: map<nat, seq<CodedPiece>>, n: nat, config: ErasureConfig, originalLen: nat)
    requires Reassemblable(segments, n, config, originalLen)
  {
    forall i: nat :: i < n ==>
      SegmentReady(segments, config, originalLen, i) && Usable(segments, config, originalLen, i)
  }

  /** Segment `i` is the lowest that is not usable, and `e` says why. */
  ghost predicate FirstFailure(segments: map<nat, seq<CodedPiece>>, n: nat, config: ErasureConfig, originalLen: nat,
                               i: nat, e: ErasureError)
    requires Reassemblable(segments, n, config, originalLen)
  {
    && i < n && SegmentReady(segments, config, originalLen, i) && !Usable(segments, config, originalLen, i)
    && AllUsable(segments, i, config, originalLen) && FailsWith(segments, config, originalLen, i, e)
  }

  lemma FirstFailureStays(segments: map<nat, seq<CodedPiece>>, n: nat, config: ErasureConfig, originalLen: nat,
                          i: nat, e: ErasureError)
    requires Reassemblable(segments, n + 1, config, originalLen) && Reassemblable(segments, n, config, originalLen)
    requires FirstFailure(segments, n, config, originalLen, i, e)
    ensures FirstFailure(segments, n + 1, config, originalLen, i, e)
  {}

  lemma FewerReassemblable(segments: map<nat, seq<CodedPiece>>, n: nat, config: ErasureConfig, originalLen: nat)
    requires n > 0 && Reassemblable(segments, n, config, originalLen)
    ensures Reassemblable(segments, n - 1, config, originalLen) && SegmentReady(segments, config, originalLen, n - 1)
  {}

  /** The outcome is as the usable segments say: the lowest unusable one, if any, decides the error. */
  ghost predicate OutcomeFits(segments: map<nat, seq<CodedPiece>>, n: nat, config: ErasureConfig, originalLen: nat,
                              r: Result<Vec>)
    requires Reassemblable(segments, n, config, originalLen)
  {
    && (r.Ok? <==> AllUsable(segments, n, config, originalLen))
    && (r.Err? ==> exists i :: FirstFailure(segments, n, config, originalLen, i, r.error))
  }

  lemma OutcomeStep(segments: map<nat, seq<CodedPiece>>, n: nat, config: ErasureConfig, originalLen: nat)
    requires Reassemblable(segments, n, config, originalLen) && Reassemblable(segments, n + 1, config, originalLen)
    requires SegmentReady(segments, config, originalLen, n)
    requires OutcomeFits(segments, n, config, originalLen, Joined(segments, n, config, originalLen))
    ensures OutcomeFits(segments, n + 1, config, originalLen, Joined(segments, n + 1, config, originalLen))
  {
    var r := Joined(segments, n, config, originalLen);
    SegmentOutcome(segments, config, originalLen, n);
    if r.Ok? {
      JoinedStep(segments, n, config, originalLen, r.value);
      if !Usable(segments, config, originalLen, n) {
        var e := SegmentResult(segments, config, originalLen, n).error;
        assert FirstFailure(segments, n + 1, config, originalLen, n, e);
      }
    } else {
      FirstErrorStays(segments, n, n + 1, config, originalLen);
      var i :| FirstFailure(segments, n, config, originalLen, i, r.error);
      FirstFailureStays(segments, n, config, originalLen, i, r.error);
    }
  }

  lemma {:induction false} JoinedOutcome(segments: map<nat, seq<CodedPiece>>, n: nat, config: ErasureConfig,
                                         originalLen: nat)
    requires Reassemblable(segments, n, config, originalLen)
    ensures OutcomeFits(segments, n, config, originalLen, Joined(segments, n, config, originalLen))
    decreases n
  {
    if n > 0 {
      FewerReassemblable(segments, n, config, originalLen);
      JoinedOutcome(segments, n - 1, config, originalLen);
      OutcomeStep(segments, n - 1, config, originalLen);
    }
  }

  /** Reassembly succeeds exactly when every segment is at hand with `k` independent first pieces; else
      the lowest segment that is not decides the error, a missing one in particular. */
  lemma ReassembledIff(segments: map<nat, seq<CodedPiece>>, total: nat, config: ErasureConfig, originalLen: nat)
    requires Reassemblable(segments, total, config, originalLen)
    ensures OutcomeFits(segments, total, config, originalLen, Reassembled(segments, total, config, originalLen))
  {
    JoinedOutcome(segments, total, config, originalLen);
  }

  /** The sources fit: each is one from which the first `k` pieces of its segment were coded. */
  ghost predicate SourceFits(segments: map<nat, seq<CodedPiece>>, config: ErasureConfig, originalLen: nat, i: nat,
                             source: seq<Vec>)
    requires config.pieceSize > 0 && SegmentReady(segments, config, originalLen, i)
  {
    var k := config.KForSegment(SegmentLength(config, originalLen, i));
    i in segments && |segments[i]| >= k && Solves(source, segments[i][..k], k, DataSize(segments[i][..k]))
  }

  /** The bytes of the sources, each cut to the length of its segment. */
  function SourceBytes(sources: seq<seq<Vec>>, config: ErasureConfig, originalLen: nat): Vec
    requires forall i: nat :: i < |sources| ==> i * config.segmentSize <= originalLen
  {
    if |sources| == 0 then []
    else
      var n := |sources| - 1;
      SourceBytes(sources[..n], config, originalLen)
      + Truncate(Flatten(sources[n]), SegmentLength(config, originalLen, n))
  }

  ghost predicate SourcesFit(segments: map<nat, seq<CodedPiece>>, config: ErasureConfig, originalLen: nat,
                             sources: seq<seq<Vec>>)
    requires Reassemblable(segments, |sources|, config, originalLen)
  {
    forall i: nat :: i < |sources| ==>
      SegmentReady(segments, config, originalLen, i) && SourceFits(segments, config, originalLen, i, sources[i])
  }

  lemma {:induction false} JoinedValue(segments: map<nat, seq<CodedPiece>>, config: ErasureConfig, originalLen: nat,
                                       sources: seq<seq<Vec>>)
    requires Reassemblable(segments, |sources|, config, originalLen)
    requires AllUsable(segments, |sources|, config, originalLen) && SourcesFit(segments, config, originalLen, sources)
    ensures forall i: nat :: i < |sources| ==> i * config.segmentSize <= originalLen
    ensures Joined(segments, |sources|, config, originalLen) == Ok(SourceBytes(sources, config, originalLen))
    decreases |sources|
  {
    forall i: nat | i < |sources| ensures i * config.segmentSize <= originalLen {
      assert SegmentReady(segments, config, originalLen, i);
    }
    if |sources| > 0 {
      var n := |sources| - 1;
      FirstSourcesFit(segments, config, originalLen, sources);
      JoinedValue(segments, config, originalLen, sources[..n]);
      SegmentValue(segments, config, originalLen, n, sources[n]);
      JoinedStep(segments, n, config, originalLen, SourceBytes(sources[..n], config, originalLen));
    }
  }

  lemma FirstSourcesFit(segments: map<nat, seq<CodedPiece>>, config: ErasureConfig, originalLen: nat,
                        sources: seq<seq<Vec>>)
    requires |sources| > 0 && Reassemblable(segments, |sources|, config, originalLen)
    requires AllUsable(segments, |sources|, config, originalLen) && SourcesFit(segments, config, originalLen, sources)
    ensures var init := sources[..|sources| - 1];
      && Reassemblable(segments, |init|, config, originalLen)
      && AllUsable(segments, |init|, config, originalLen) && SourcesFit(segments, config, originalLen, init)
  {}

  lemma SegmentValue(segments: map<nat, seq<CodedPiece>>, config: ErasureConfig, originalLen: nat, i: nat,
                     source: seq<Vec>)
    requires config.pieceSize > 0 && SegmentReady(segments, config, originalLen, i)
    requires Usable(segments, config, originalLen, i) && SourceFits(segments, config, originalLen, i, source)
    ensures SegmentResult(segments, config, originalLen, i)
      == Ok(Truncate(Flatten(source), SegmentLength(config, originalLen, i)))
  {
    var length := SegmentLength(config, originalLen, i);
    SegmentOutcome(segments, config, originalLen, i);
    DecodeSound(config.KForSegment(length), length, segments[i], source);
  }

  /** On success the result is what the sources that fit say, whichever those are. */
  lemma ReassembledValue(segments: map<nat, seq<CodedPiece>>, config: ErasureConfig, originalLen: nat,
                         sources: seq<seq<Vec>>)
    requires Reassemblable(segments, |sources|, config, originalLen)
    requires Reassembled(segments, |sources|, config, originalLen).Ok?
    requires SourcesFit(segments, config, originalLen, sources)
    ensures forall i: nat :: i < |sources| ==> i * config.segmentSize <= originalLen
    ensures Reassembled(segments, |sources|, config, originalLen)
      == Ok(Truncate(SourceBytes(sources, config, originalLen), originalLen))
  {
    ReassembledIff(segments, |sources|, config, originalLen);
    JoinedValue(segments, config, originalLen, sources);
  }

  // ---------- Round trip ----------

  /** The pieces at hand for segment `i` start with `k` independent ones coded from that segment. */
  ghost predicate FaithfulSelection(data: Vec, config: ErasureConfig, pieces: seq<CodedPiece>, i: nat)
    requires config.pieceSize > 0 && i * config.segmentSize <= |data|
  {
    var e := SegmentEncoder(data, config, i);
    && |pieces| >= e.K() && Shaped(pieces[..e.K()], e.K(), config.pieceSize)
    && AllConsistent(pieces[..e.K()], e.sourcePieces)
    && Rank(Coefficients(pieces[..e.K()])) == e.K()
  }

  /** The decoder derives the length and the piece count that the encoder used. */
  lemma SegmentLengthMatches(data: Vec, config: ErasureConfig, i: nat)
    requires config.pieceSize > 0 && config.segmentSize > 0 && i * config.segmentSize < |data|
    ensures SegmentLength(config, |data|, i) == |Segment(data, config.segmentSize, i)| > 0
    ensures config.KForSegment(SegmentLength(config, |data|, i)) == SegmentEncoder(data, config, i).K()
  {
    OneMore(i, config.segmentSize);
    var length := |Segment(data, config.segmentSize, i)|;
    DivCeilCovers(length, config.pieceSize, DivCeil(length, config.pieceSize));
  }

  lemma OneMore(i: nat, size: nat)
    ensures (i + 1) * size == i * size + size
  {}

  lemma SegmentRoundTrip(data: Vec, config: ErasureConfig, segments: map<nat, seq<CodedPiece>>, i: nat)
    requires config.pieceSize > 0 && config.segmentSize > 0 && i * config.segmentSize < |data|
    requires i in segments && FaithfulSelection(data, config, segments[i], i)
    ensures SegmentReady(segments, config, |data|, i)
    ensures SegmentResult(segments, config, |data|, i) == Ok(Segment(data, config.segmentSize, i))
  {
    var segment := Segment(data, config.segmentSize, i);
    SegmentLengthMatches(data, config, i);
    SoundPiecesDecode(segment, config.pieceSize, segments[i]);
  }

  ghost predicate AllFaithful(data: Vec, config: ErasureConfig, segments: map<nat, seq<CodedPiece>>, n: nat)
    requires config.pieceSize > 0
  {
    forall i: nat :: i < n ==> Faithful(data, config, segments, i)
  }

  ghost predicate Faithful(data: Vec, config: ErasureConfig, segments: map<nat, seq<CodedPiece>>, i: nat)
    requires config.pieceSize > 0
  {
    i * config.segmentSize <= |data| && i in segments && FaithfulSelection(data, config, segments[i], i)
  }

  lemma FaithfulIsReassemblable(data: Vec, config: ErasureConfig, segments: map<nat, seq<CodedPiece>>, n: nat)
    requires config.pieceSize > 0 && config.segmentSize > 0 && n <= DivCeil(|data|, config.segmentSize)
    requires AllFaithful(data, config, segments, n)
    ensures Reassemblable(segments, n, config, |data|)
  {
    forall i: nat | i < n ensures SegmentReady(segments, config, |data|, i) {
      assert Faithful(data, config, segments, i);
      SegmentStarts(|data|, config.segmentSize, i);
      SegmentRoundTrip(data, config, segments, i);
    }
  }

  lemma SegmentAppends(data: Vec, size: nat, i: nat)
    requires i * size <= |data|
    ensures data[..i * size] + Segment(data, size, i) == data[..Least((i + 1) * size, |data|)]
  {
    OneMore(i, size);
  }

  lemma FewerSegments(data: Vec, config: ErasureConfig, segments: map<nat, seq<CodedPiece>>, n: nat)
    requires config.pieceSize > 0 && n > 0
    requires AllFaithful(data, config, segments, n) && Reassemblable(segments, n, config, |data|)
    ensures AllFaithful(data, config, segments, n - 1) && Reassemblable(segments, n - 1, config, |data|)
  {}

  /** Where segment `n` starts, or the end of the data. */
  function StartOf(data: Vec, config: ErasureConfig, n: nat): (p: nat)
    ensures p <= |data|
  {
    Least(n * config.segmentSize, |data|)
  }

  lemma {:induction false} JoinedIsPrefix(data: Vec, config: ErasureConfig, segments: map<nat, seq<CodedPiece>>, n: nat)
    requires config.pieceSize > 0 && config.segmentSize > 0 && n <= DivCeil(|data|, config.segmentSize)
    requires AllFaithful(data, config, segments, n) && Reassemblable(segments, n, config, |data|)
    ensures Joined(segments, n, config, |data|) == Ok(data[..StartOf(data, config, n)])
    decreases n
  {
    if n == 0 {
      NoPrefix(data, config, segments);
    } else {
      FewerSegments(data, config, segments, n);
      JoinedIsPrefix(data, config, segments, n - 1);
      PrefixStep(data, config, segments, n);
    }
  }

  lemma NoPrefix(data: Vec, config: ErasureConfig, segments: map<nat, seq<CodedPiece>>)
    requires config.pieceSize > 0
    ensures Joined(segments, 0, config, |data|) == Ok(data[..StartOf(data, config, 0)])
  {}

  lemma PrefixStep(data: Vec, config: ErasureConfig, segments: map<nat, seq<CodedPiece>>, n: nat)
    requires config.pieceSize > 0 && config.segmentSize > 0 && 0 < n <= DivCeil(|data|, config.segmentSize)
    requires AllFaithful(data, config, segments, n) && Reassemblable(segments, n - 1, config, |data|)
    requires Joined(segments, n - 1, config, |data|) == Ok(data[..StartOf(data, config, n - 1)])
    ensures Reassemblable(segments, n, config, |data|)
    ensures Joined(segments, n, config, |data|) == Ok(data[..StartOf(data, config, n)])
  {
    var i := n - 1;
    assert Faithful(data, config, segments, i);
    SegmentStarts(|data|, config.segmentSize, i);
    SegmentRoundTrip(data, config, segments, i);
    SegmentAppends(data, config.segmentSize, i);
    JoinedStep(segments, i, config, |data|, data[..i * config.segmentSize]);
  }

  /** Reassembling faithful selections of all segments gives back the data, byte for byte. */
  lemma RoundTrip(data: Vec, config: ErasureConfig, segments: map<nat, seq<CodedPiece>>)
    requires |data| > 0 && config.pieceSize > 0 && config.segmentSize > 0
    requires AllFaithful(data, config, segments, DivCeil(|data|, config.segmentSize))
    ensures var n := DivCeil(|data|, config.segmentSize);
      Reassemblable(segments, n, config, |data|) && Reassembled(segments, n, config, |data|) == Ok(data)
  {
    var n := DivCeil(|data|, config.segmentSize);
    DivCeilCovers(|data|, config.segmentSize, n);
    FaithfulIsReassemblable(data, config, segments, n);
    JoinedIsPrefix(data, config, segments, n);
    assert data[..|data|] == data;
  }

  /** A choice among the encoded pieces that starts with `k` independent ones. */
  ghost predicate Suffices(pieces: seq<CodedPiece>, encoded: seq<CodedPiece>, k: nat) {
    && |pieces| >= k && (forall p :: p in pieces ==> p in encoded)
    && Rank(Coefficients(pieces[..k])) == k
  }

  /** Any choice among the encoder's own output whose first `k` pieces are independent is faithful. */
  lemma EncodedSelectionIsFaithful(data: Vec, config: ErasureConfig, i: nat, draws: seq<Vec>, pieces: seq<CodedPiece>)
    requires config.pieceSize > 0 && config.segmentSize > 0 && i * config.segmentSize <= |data|
    requires Uniform(draws, SegmentEncoder(data, config, i).K())
    requires Suffices(pieces, EncodedSegment(data, config, i, draws).1, SegmentEncoder(data, config, i).K())
    ensures FaithfulSelection(data, config, pieces, i)
  {
    var e, encoded := SegmentEncoder(data, config, i), EncodedSegment(data, config, i, draws).1;
    SourcePiecesConsistent(e);
    forall j | 0 <= j < |pieces|
      ensures |pieces[j].coefficients| == e.K() && |pieces[j].data| == e.pieceSize
      ensures Consistent(pieces[j], e.sourcePieces)
    {
      assert pieces[j] in pieces;
      var q :| 0 <= q < |encoded| && encoded[q] == pieces[j];
      if q < e.K() {
        assert pieces[j] == e.SourcePieces()[q];
      } else {
        assert pieces[j] == e.Parity(draws)[q - e.K()];
      }
    }
  }

  /** The map holds, under the index that the encoder returned, a sufficient choice of its pieces. */
  ghost predicate Collected(data: Vec, config: ErasureConfig, draws: seq<seq<Vec>>,
                            segments: map<nat, seq<CodedPiece>>, i: nat)
    requires config.pieceSize > 0 && config.segmentSize > 0 && DrawsFit(data, config, draws) && i < |draws|
  {
    var encoded := AllEncoded(data, config, draws)[i];
    encoded.0 in segments && Suffices(segments[encoded.0], encoded.1, SegmentEncoder(data, config, i).K())
  }

  ghost predicate AllCollected(data: Vec, config: ErasureConfig, draws: seq<seq<Vec>>,
                               segments: map<nat, seq<CodedPiece>>)
    requires config.pieceSize > 0 && config.segmentSize > 0 && DrawsFit(data, config, draws)
  {
    forall i :: 0 <= i < |draws| ==> Collected(data, config, draws, segments, i)
  }

  /** What the encoder returns, collected by its own segment indices, decodes to the data: the output of
      `SegmentAndEncode` passes through the map into `DecodeAndReassemble` and back. */
  lemma EncodeDecodeRoundTrip(data: Vec, config: ErasureConfig, draws: seq<seq<Vec>>,
                              segments: map<nat, seq<CodedPiece>>)
    requires |data| > 0 && config.pieceSize > 0 && config.segmentSize > 0
    requires DrawsFit(data, config, draws) && |draws| < U32
    requires AllCollected(data, config, draws, segments)
    ensures Reassemblable(segments, |draws|, config, |data|)
    ensures Reassembled(segments, |draws|, config, |data|) == Ok(data)
  {
    forall i: nat | i < |draws| ensures Faithful(data, config, segments, i) {
      assert Collected(data, config, draws, segments, i);
      EncodedSelectionIsFaithful(data, config, i, draws[i], segments[i]);
    }
    RoundTrip(data, config, segments);
  }

  lemma {:induction false} JoinedLength(segments: map<nat, seq<CodedPiece>>, n: nat, config: ErasureConfig,
                                        originalLen: nat)
    requires Reassemblable(segments, n, config, originalLen)
    ensures var joined := Joined(segments, n, config, originalLen);
      joined.Ok? ==> |joined.value| <= n * config.segmentSize
  {
    if n > 0 {
      assert SegmentReady(segments, config, originalLen, n - 1);
      JoinedLength(segments, n - 1, config, originalLen);
      OneMore(n - 1, config.segmentSize);
    }
  }

  /** Whatever the map holds, a total below the segment count never gives back the data. */
  lemma FewerSegmentsFail(data: Vec, config: ErasureConfig, segments: map<nat, seq<CodedPiece>>, total: nat)
    requires config.segmentSize > 0 && total < DivCeil(|data|, config.segmentSize)
    requires Reassemblable(segments, total, config, |data|)
    ensures Reassembled(segments, total, config, |data|) != Ok(data)
  {
    JoinedLength(segments, total, config, |data|);
    SegmentStarts(|data|, config.segmentSize, total);
  }

  /** Some `u32` total and some collected segments reassemble to the data. */
  ghost predicate Recoverable(data: Vec, config: ErasureConfig, draws: seq<seq<Vec>>)
    requires config.pieceSize > 0 && config.segmentSize > 0 && DrawsFit(data, config, draws)
  {
    exists total: nat, segments ::
      && total < U32 && AllCollected(data, config, draws, segments)
      && Reassemblable(segments, total, config, |data|)
      && Reassembled(segments, total, config, |data|) == Ok(data)
  }

  /** The pieces of every segment, under the index that the encoder returned. */
  ghost function Everything(data: Vec, config: ErasureConfig, draws: seq<seq<Vec>>): map<nat, seq<CodedPiece>>
    requires config.pieceSize > 0 && config.segmentSize > 0 && DrawsFit(data, config, draws)
  {
    map i: nat | i < |draws| :: AllEncoded(data, config, draws)[i].1
  }

  lemma SourcePiecesSuffice(data: Vec, config: ErasureConfig, draws: seq<seq<Vec>>, i: nat)
    requires config.pieceSize > 0 && config.segmentSize > 0 && DrawsFit(data, config, draws)
    requires i < |draws| < U32
    ensures Collected(data, config, draws, Everything(data, config, draws), i)
  {
    var e, encoded := SegmentEncoder(data, config, i), AllEncoded(data, config, draws)[i].1;
    SourcePiecesConsistent(e);
    assert encoded[..e.K()] == e.SourcePieces();
    IdentityIndependent(e.K());
    FullRankIffIndependent(Identity(e.K()), e.K());
  }

  /** Exactly: what was encoded can be reassembled through the `u32` interface if and only if there are
      fewer than 2^32 segments. */
  lemma RecoverableIffU32(data: Vec, config: ErasureConfig, draws: seq<seq<Vec>>)
    requires |data| > 0 && config.pieceSize > 0 && config.segmentSize > 0 && DrawsFit(data, config, draws)
    ensures Recoverable(data, config, draws) <==> |draws| < U32
  {
    if |draws| < U32 {
      var segments := Everything(data, config, draws);
      forall i | 0 <= i < |draws| ensures Collected(data, config, draws, segments, i) {
        SourcePiecesSuffice(data, config, draws, i);
      }
      EncodeDecodeRoundTrip(data, config, draws, segments);
    } else {
      forall total: nat, segments | total < U32 && Reassemblable(segments, total, config, |data|)
        ensures Reassembled(segments, total, config, |data|) != Ok(data)
      {
        FewerSegmentsFail(data, config, segments, total);
      }
    }
  }

  /** The `u32` cast keeps segment indices apart exactly up to 2^32 segments. */
  lemma IndicesDistinctIffU32(data: Vec, config: ErasureConfig, draws: seq<seq<Vec>>)
    requires config.pieceSize > 0 && config.segmentSize > 0 && DrawsFit(data, config, draws)
    ensures |draws| <= 0x1_0000_0000 <==>
      forall i, j :: 0 <= i < j < |draws| ==>
        AllEncoded(data, config, draws)[i].0 != AllEncoded(data, config, draws)[j].0
  {
    var encoded := AllEncoded(data, config, draws);
    forall i | 0 <= i < |draws| ensures encoded[i].0 == SegmentIndex(i) {}
    CastDistinctIff(|draws|);
  }

  /** Every full segment has as many source pieces as the configuration says exactly when the piece size
      divides the segment size; otherwise it has one more. */
  lemma FullSegmentPieces(data: Vec, config: ErasureConfig, i: nat)
    requires config.pieceSize > 0 && config.segmentSize > 0 && (i + 1) * config.segmentSize <= |data|
    ensures i * config.segmentSize <= |data|
    ensures var k := SegmentEncoder(data, config, i).K();
      && (k - 1) * config.pieceSize < config.segmentSize <= k * config.pieceSize
      && (k == config.K() <==> config.segmentSize % config.pieceSize == 0)
  {
    OneMore(i, config.segmentSize);
    assert |Segment(data, config.segmentSize, i)| == config.segmentSize;
    DivCeilBounds(config.segmentSize, config.pieceSize);
  }

  /** The piece count of any segment length is the least positive one that covers it. */
  lemma KForSegmentCovers(config: ErasureConfig, length: nat, k: nat)
    requires config.pieceSize > 0
    ensures k == config.KForSegment(length)
      <==> k >= 1 && length <= k * config.pieceSize && (k > 1 ==> (k - 1) * config.pieceSize < length)
  {
    var size, q := config.pieceSize, DivCeil(length, config.pieceSize);
    DivCeilBounds(length, size);
    DivCeilCovers(length, size, k);
    assert 1 * size == size && 0 * size == 0;
    if q == 0 && k > 1 {
      MultipleMonotone(1, k - 1, size);
    }
  }

  /** An empty file has no pieces. */
  lemma EmptyRecord(record: ContentVerificationRecord, i: nat)
    requires record.fileSize == 0
    ensures record.SegmentCount() == 0 && record.KForSegment(i) == 0
  {}

  /** For every file size, the record counts the least number of segments that cover the file. */
  lemma SegmentCountCovers(record: ContentVerificationRecord, n: nat)
    ensures n == record.SegmentCount()
      <==> record.fileSize <= n * 10_485_760 && (n > 0 ==> (n - 1) * 10_485_760 < record.fileSize)
  {
    DivCeilCovers(record.fileSize, 10_485_760, n);
  }

  /** The verification record derives the same layout from the file size that the encoder produced with
      the default configuration. */
  lemma RecordMatchesEncoder(data: Vec, record: ContentVerificationRecord, i: nat)
    requires record.fileSize == |data| && i < record.SegmentCount()
    ensures var config := ErasureConfig(262_144, 10_485_760, 20);
      && record.SegmentCount() == DivCeil(|data|, config.segmentSize)
      && i * config.segmentSize < |data|
      && record.KForSegment(i) == SegmentEncoder(data, config, i).K()
  {
    SegmentStarts(|data|, DEFAULT_SEGMENT_SIZE, i);
    DivCeilCovers(|data|, DEFAULT_SEGMENT_SIZE, record.SegmentCount());
    var length := |Segment(data, DEFAULT_SEGMENT_SIZE, i)|;
    DivCeilCovers(length, DEFAULT_PIECE_SIZE, DivCeil(length, DEFAULT_PIECE_SIZE));
    if i + 1 < record.SegmentCount() {
      MultipleMonotone(i + 1, record.SegmentCount() - 1, DEFAULT_SEGMENT_SIZE);
    }
  }
}
