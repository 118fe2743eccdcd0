/** Homomorphic hashing: random projections that commute with recombination. */
module Homomorphic {
  import opened Bytes
  import opened Numbers
  import opened GF256
  import opened Vectors
  import opened Span
  import opened Pieces
  import opened Encoder

  const HASH_PROJECTIONS: nat := 16

  type PieceHash = h: Vec | |h| == HASH_PROJECTIONS witness Zeros(16)

  /** The hash function is a parameter: nothing is assumed about it but its output length. */
  type Blake3 = Vec -> Bytes32

  datatype SegmentHashes = SegmentHashes(seed: Bytes32, pieceHashes: seq<PieceHash>)

  // ---------- Projections ----------

  /** The string that is hashed for one block: `seed || index || chunk as u32`. */
  function ChunkInput(seed: Bytes32, index: nat, chunk: nat): (s: seq<byte>)
    requires index < 256
    ensures |s| == 37
  {
    seed + [index as byte] + LittleEndian(Wrap(chunk, U32), 4)
  }

  /** One block of the generator. */
  function Chunk(blake3: Blake3, seed: Bytes32, index: nat, chunk: nat): Bytes32
    requires index < 256
  {
    blake3(ChunkInput(seed, index, chunk))
  }

  lemma ThreeFields(a: seq<byte>, b: byte, c: seq<byte>)
    requires |a| == 32 && |c| == 4
    ensures (a + [b] + c)[..32] == a && (a + [b] + c)[32] == b && (a + [b] + c)[33..] == c
  {}

  /** The seed, the projection index and the block number can be read back from the hashed string. */
  lemma ChunkInputLayout(seed: Bytes32, index: nat, chunk: nat)
    requires index < 256 && chunk < 0x1_0000_0000
    ensures var s := ChunkInput(seed, index, chunk);
      && s[..32] == seed && s[32] as nat == index
      && FromLittleEndian(s[33..]) == chunk
  {
    ThreeFields(seed, index as byte, LittleEndian(Wrap(chunk, U32), 4));
    ByteRoundTrip(index);
    BlockNumberReadsBack(chunk);
  }

  lemma BlockNumberReadsBack(chunk: nat)
    requires chunk < U32
    ensures FromLittleEndian(LittleEndian(Wrap(chunk, U32), 4)) == chunk
  {
    WrapSmall(chunk, U32);
    WidthsInUse();
    LittleEndianRoundTrip(chunk, 4);
  }

  /** Different projections, and different blocks of one projection, hash different strings. */
  lemma ChunkInputsDiffer(seed: Bytes32, index: nat, chunk: nat, index': nat, chunk': nat)
    requires index < 256 && index' < 256 && chunk < 0x1_0000_0000 && chunk' < 0x1_0000_0000
    ensures ChunkInput(seed, index, chunk) == ChunkInput(seed, index', chunk') <==> index == index' && chunk == chunk'
  {
    ChunkInputLayout(seed, index, chunk);
    ChunkInputLayout(seed, index', chunk');
  }

  /** The concatenated chunks, cut to length. */
  function Projection(blake3: Blake3, seed: Bytes32, index: nat, size: nat): (p: Vec)
    requires index < 256
    ensures |p| == size
  {
    seq(size, i requires 0 <= i => Chunk(blake3, seed, index, i / 32)[i % 32])
  }

  /** Byte `i` of block `c` of a projection is byte `i` of the hash for that projection and block. */
  lemma ProjectionBlock(blake3: Blake3, seed: Bytes32, index: nat, size: nat, c: nat, i: nat)
    requires index < 256 && i < 32 && c * 32 + i < size
    ensures Projection(blake3, seed, index, size)[c * 32 + i] == blake3(ChunkInput(seed, index, c))[i]
  {
    BlockPosition(c, i);
  }

  lemma ProjectionPrefix(blake3: Blake3, seed: Bytes32, index: nat, n: nat, size: nat)
    requires index < 256 && n <= size
    ensures Projection(blake3, seed, index, n) == Projection(blake3, seed, index, size)[..n]
  {}

  lemma BlockBytes(blake3: Blake3, seed: Bytes32, index: nat, chunk: nat, start: nat, n: nat)
    requires index < 256 && n <= 32 && start == chunk * 32
    ensures forall i: nat :: i < n ==>
      Projection(blake3, seed, index, start + n)[start + i] == Chunk(blake3, seed, index, chunk)[i]
  {
    forall i: nat | i < n
      ensures Projection(blake3, seed, index, start + n)[start + i] == Chunk(blake3, seed, index, chunk)[i]
    {
      ProjectionBlock(blake3, seed, index, start + n, chunk, i);
    }
  }

  lemma ProjectionExtend(blake3: Blake3, seed: Bytes32, index: nat, chunk: nat, start: nat, n: nat)
    requires index < 256 && n <= 32 && start == chunk * 32
    ensures Projection(blake3, seed, index, start) + Chunk(blake3, seed, index, chunk)[..n]
         == Projection(blake3, seed, index, start + n)
  {
    ProjectionPrefix(blake3, seed, index, start, start + n);
    BlockBytes(blake3, seed, index, chunk, start, n);
    JoinAt(Projection(blake3, seed, index, start + n), start, Chunk(blake3, seed, index, chunk)[..n]);
  }

  lemma JoinAt(whole: Vec, start: nat, rest: Vec)
    requires |whole| == start + |rest| && forall i: nat :: i < |rest| ==> whole[start + i] == rest[i]
    ensures whole[..start] + rest == whole
  {}

  lemma BlockPosition(chunk: nat, i: nat)
    requires i < 32
    ensures (chunk * 32 + i) / 32 == chunk && (chunk * 32 + i) % 32 == i
  {}

  /** Chunk by chunk, with the early exit and the final truncation. */
  method GenerateProjection(blake3: Blake3, seed: Bytes32, index: nat, pieceSize: nat) returns (projection: Vec)
    requires index < 256
    ensures projection == Projection(blake3, seed, index, pieceSize)
  {
    projection := [];
    var numChunks := DivCeil(pieceSize, 32);
    DivCeilCovers(pieceSize, 32, numChunks);
    for chunkIndex := 0 to numChunks
      invariant |projection| == if chunkIndex < numChunks then chunkIndex * 32 else pieceSize
      invariant projection == Projection(blake3, seed, index, |projection|)
    {
      var hash := Chunk(blake3, seed, index, chunkIndex);
      var bytesNeeded := if pieceSize - |projection| < 32 then pieceSize - |projection| else 32;
      ProjectionExtend(blake3, seed, index, chunkIndex, |projection|, bytesNeeded);
      projection := projection + hash[..bytesNeeded];
      if |projection| >= pieceSize {
        break;
      }
    }
    projection := Truncate(projection, pieceSize);
  }

  /** `gf256_dot`: the loop accumulates the products from the left. */
  method Gf256Dot(a: Vec, b: Vec) returns (result: byte)
    requires |a| == |b|
    ensures result == Dot(a, b)
  {
    result := 0;
    for i := 0 to |a|
      invariant result == Dot(a[..i], b[..i])
    {
      assert a[..i + 1][..i] == a[..i] && b[..i + 1][..i] == b[..i];
      result := Add(result, Mul(a[i], b[i]));
    }
    assert a[..|a|] == a && b[..|b|] == b;
  }

  // ---------- Hash generation ----------

  ghost function HashOf(blake3: Blake3, seed: Bytes32, data: Vec): PieceHash {
    seq(HASH_PROJECTIONS, j requires 0 <= j < HASH_PROJECTIONS =>
      Dot(data, Projection(blake3, seed, j, |data|)))
  }

  /** The hashes were generated from the source pieces. */
  ghost predicate HashesOf(blake3: Blake3, hashes: SegmentHashes, source: seq<Vec>) {
    |hashes.pieceHashes| == |source| &&
    forall i :: 0 <= i < |source| ==> hashes.pieceHashes[i] == HashOf(blake3, hashes.seed, source[i])
  }

  /** Hashes every original piece under all projections. */
  method GenerateSegmentHashes(blake3: Blake3, seed: Bytes32, originals: seq<CodedPiece>) returns (h: SegmentHashes)
    requires forall i :: 0 <= i < |originals| ==> |originals[i].data| == DataSize(originals)
    ensures h.seed == seed && HashesOf(blake3, h, Datas(originals))
  {
    if |originals| == 0 {
      return SegmentHashes(seed, []);
    }
    var pieceSize := |originals[0].data|;
    var pieceHashes: seq<PieceHash> := [];
    for i := 0 to |originals|
      invariant |pieceHashes| == i
      invariant forall q :: 0 <= q < i ==> pieceHashes[q] == HashOf(blake3, seed, originals[q].data)
    {
      var hash: PieceHash := Zeros(HASH_PROJECTIONS);
      for j := 0 to HASH_PROJECTIONS
        invariant forall q :: 0 <= q < j ==> hash[q] == HashOf(blake3, seed, originals[i].data)[q]
      {
        var projection := GenerateProjection(blake3, seed, j, pieceSize);
        var d := Gf256Dot(originals[i].data, projection);
        hash := hash[j := d];
      }
      assert hash == HashOf(blake3, seed, originals[i].data);
      pieceHashes := pieceHashes + [hash];
    }
    return SegmentHashes(seed, pieceHashes);
  }

  // ---------- Verification ----------

  /** The hash that the coefficients announce, for all projections at once. */
  ghost function ExpectedHash(coefficients: Vec, hashes: seq<PieceHash>): PieceHash
    requires |coefficients| == |hashes|
  {
    Comb(coefficients, hashes, HASH_PROJECTIONS)
  }

  /** The coefficient count fits and the hash of the data is the announced one. */
  ghost predicate Accepts(blake3: Blake3, piece: CodedPiece, hashes: SegmentHashes) {
    && |piece.coefficients| == |hashes.pieceHashes|
    && if |hashes.pieceHashes| == 0 then piece.data == []
       else HashOf(blake3, hashes.seed, piece.data) == ExpectedHash(piece.coefficients, hashes.pieceHashes)
  }

  /** The inner loop over one projection: skips zero coefficients. */
  method ExpectedProjection(coefficients: Vec, hashes: seq<PieceHash>, j: nat) returns (expected: byte)
    requires |coefficients| == |hashes| && j < HASH_PROJECTIONS
    ensures expected == ExpectedHash(coefficients, hashes)[j]
  {
    ghost var column := Col(hashes, HASH_PROJECTIONS, j);
    expected := 0;
    for i := 0 to |coefficients|
      invariant expected == Dot(coefficients[..i], column[..i])
    {
      assert coefficients[..i + 1][..i] == coefficients[..i] && column[..i + 1][..i] == column[..i];
      if coefficients[i] != 0 {
        var contribution := Mul(coefficients[i], hashes[i][j]);
        expected := Add(expected, contribution);
      } else {
        MulZero(hashes[i][j]);
        AddZero(expected);
      }
    }
    assert coefficients[..|coefficients|] == coefficients && column[..|column|] == column;
  }

  /** The first `n` bytes of two hashes agree. */
  ghost predicate AgreeUpTo(a: Vec, b: Vec, n: nat)
    requires n <= |a| == |b|
  {
    n == 0 || (AgreeUpTo(a, b, n - 1) && a[n - 1] == b[n - 1])
  }

  lemma {:induction false} AgreeIsEqual(a: Vec, b: Vec, n: nat)
    requires n <= |a| == |b|
    ensures AgreeUpTo(a, b, n) <==> a[..n] == b[..n]
    decreases n
  {
    if n > 0 {
      AgreeIsEqual(a, b, n - 1);
      assert a[..n] == a[..n - 1] + [a[n - 1]] && b[..n] == b[..n - 1] + [b[n - 1]];
    }
  }

  lemma {:induction false} FirstDifference(a: Vec, b: Vec, j: nat, n: nat)
    requires j <= n <= |a| == |b|
    ensures AgreeUpTo(a, b, n) ==> AgreeUpTo(a, b, j)
    decreases n
  {
    if j < n {
      FirstDifference(a, b, j, n - 1);
    }
  }

  /** One projection of the verification loop. */
  method CheckProjection(blake3: Blake3, piece: CodedPiece, hashes: SegmentHashes, j: nat) returns (ok: bool)
    requires |piece.coefficients| == |hashes.pieceHashes| && j < HASH_PROJECTIONS
    ensures ok <==>
      HashOf(blake3, hashes.seed, piece.data)[j] == ExpectedHash(piece.coefficients, hashes.pieceHashes)[j]
  {
    var projection := GenerateProjection(blake3, hashes.seed, j, |piece.data|);
    var actual := Gf256Dot(piece.data, projection);
    var expected := ExpectedProjection(piece.coefficients, hashes.pieceHashes, j);
    return actual == expected;
  }

  /** The verification loop stops at the first projection that fails. */
  method CheckProjections(blake3: Blake3, piece: CodedPiece, hashes: SegmentHashes) returns (ok: bool)
    requires |piece.coefficients| == |hashes.pieceHashes|
    ensures ok <==> HashOf(blake3, hashes.seed, piece.data) == ExpectedHash(piece.coefficients, hashes.pieceHashes)
  {
    ghost var actuals := HashOf(blake3, hashes.seed, piece.data);
    ghost var expecteds := ExpectedHash(piece.coefficients, hashes.pieceHashes);
    AgreeIsEqual(actuals, expecteds, HASH_PROJECTIONS);
    WholePrefix(actuals);
    WholePrefix(expecteds);
    for j := 0 to HASH_PROJECTIONS
      invariant AgreeUpTo(actuals, expecteds, j)
    {
      var passes := CheckProjection(blake3, piece, hashes, j);
      if !passes {
        FirstDifference(actuals, expecteds, j + 1, HASH_PROJECTIONS);
        return false;
      }
    }
    return true;
  }

  lemma WholePrefix(a: Vec)
    ensures a[..|a|] == a
  {}

  /** Accepts or rejects one piece against the segment hashes. */
  method VerifyPiece(blake3: Blake3, piece: CodedPiece, hashes: SegmentHashes) returns (ok: bool)
    ensures ok <==> Accepts(blake3, piece, hashes)
  {
    var k := |hashes.pieceHashes|;
    if |piece.coefficients| != k {
      return false;
    }
    if k == 0 {
      return |piece.data| == 0 && |piece.coefficients| == 0;
    }
    ok := CheckProjections(blake3, piece, hashes);
  }

  // ---------- What acceptance means ----------

  /** Hashing commutes with combining. */
  lemma ExpectedIsHashOfCombination(blake3: Blake3, c: Vec, hashes: SegmentHashes, source: seq<Vec>, size: nat)
    requires |c| == |source| && Uniform(source, size) && HashesOf(blake3, hashes, source)
    ensures ExpectedHash(c, hashes.pieceHashes) == HashOf(blake3, hashes.seed, Comb(c, source, size))
  {
    forall j | 0 <= j < HASH_PROJECTIONS
      ensures Dot(c, Col(hashes.pieceHashes, HASH_PROJECTIONS, j))
           == Dot(Comb(c, source, size), Projection(blake3, hashes.seed, j, size))
    {
      var w := Projection(blake3, hashes.seed, j, size);
      DotExchange(c, source, w);
      assert Col(hashes.pieceHashes, HASH_PROJECTIONS, j) == Apply(source, w);
    }
  }

  /** Hashing is additive. */
  lemma HashOfSum(blake3: Blake3, seed: Bytes32, a: Vec, b: Vec)
    requires |a| == |b|
    ensures HashOf(blake3, seed, AddV(a, b)) == AddV(HashOf(blake3, seed, a), HashOf(blake3, seed, b))
  {
    forall j | 0 <= j < HASH_PROJECTIONS
      ensures Dot(AddV(a, b), Projection(blake3, seed, j, |a|))
           == Add(Dot(a, Projection(blake3, seed, j, |a|)), Dot(b, Projection(blake3, seed, j, |a|)))
    {
      DotAdd(a, b, Projection(blake3, seed, j, |a|));
    }
  }

  /** `v` is orthogonal to all sixteen projections. */
  ghost predicate OrthogonalToProjections(blake3: Blake3, seed: Bytes32, v: Vec) {
    forall j :: 0 <= j < HASH_PROJECTIONS ==> Dot(v, Projection(blake3, seed, j, |v|)) == 0
  }

  lemma OrthogonalIffZeroHash(blake3: Blake3, seed: Bytes32, v: Vec)
    ensures OrthogonalToProjections(blake3, seed, v) <==> HashOf(blake3, seed, v) == Zeros(HASH_PROJECTIONS)
  {
    var h := HashOf(blake3, seed, v);
    forall j | 0 <= j < HASH_PROJECTIONS ensures h[j] == Dot(v, Projection(blake3, seed, j, |v|)) {}
    if h == Zeros(HASH_PROJECTIONS) {
      forall j | 0 <= j < HASH_PROJECTIONS ensures h[j] == 0 {}
    }
  }

  /** A piece passes exactly when its error is orthogonal to all sixteen projections. */
  lemma AcceptsIffErrorOrthogonal(blake3: Blake3, piece: CodedPiece, hashes: SegmentHashes, source: seq<Vec>)
    requires |source| >= 1 && Uniform(source, |piece.data|) && HashesOf(blake3, hashes, source)
    ensures Accepts(blake3, piece, hashes) <==>
      && |piece.coefficients| == |source|
      && OrthogonalToProjections(blake3, hashes.seed,
                                 AddV(piece.data, Comb(piece.coefficients, source, |piece.data|)))
  {
    if |piece.coefficients| == |source| {
      var combined := Comb(piece.coefficients, source, |piece.data|);
      ExpectedIsHashOfCombination(blake3, piece.coefficients, hashes, source, |piece.data|);
      HashOfSum(blake3, hashes.seed, piece.data, combined);
      OrthogonalIffZeroHash(blake3, hashes.seed, AddV(piece.data, combined));
      AddVEqualsZero(HashOf(blake3, hashes.seed, piece.data), HashOf(blake3, hashes.seed, combined));
    }
  }

  /** Without original pieces only the empty piece passes. */
  lemma AcceptsNothingElse(blake3: Blake3, piece: CodedPiece, hashes: SegmentHashes)
    requires |hashes.pieceHashes| == 0
    ensures Accepts(blake3, piece, hashes) <==> |piece.coefficients| == 0 && |piece.data| == 0
  {}

  /** Completeness: a piece consistent with the source passes for every seed. */
  lemma ConsistentAccepted(blake3: Blake3, piece: CodedPiece, hashes: SegmentHashes, source: seq<Vec>)
    requires |source| >= 1 && Consistent(piece, source) && HashesOf(blake3, hashes, source)
    ensures Accepts(blake3, piece, hashes)
  {
    ExpectedIsHashOfCombination(blake3, piece.coefficients, hashes, source, |piece.data|);
  }

  // ---------- What acceptance does not rule out ----------

  /** The sixteen projections for pieces of one size. */
  ghost function Projections(blake3: Blake3, seed: Bytes32, size: nat): (r: seq<Vec>)
    ensures |r| == HASH_PROJECTIONS && Uniform(r, size)
  {
    seq(HASH_PROJECTIONS, j requires 0 <= j < HASH_PROJECTIONS => Projection(blake3, seed, j, size))
  }

  lemma OrthogonalIffKernel(blake3: Blake3, seed: Bytes32, v: Vec)
    ensures OrthogonalToProjections(blake3, seed, v)
      <==> Apply(Projections(blake3, seed, |v|), v) == Zeros(HASH_PROJECTIONS)
  {
    var applied := Apply(Projections(blake3, seed, |v|), v);
    forall j | 0 <= j < HASH_PROJECTIONS ensures applied[j] == Dot(v, Projection(blake3, seed, j, |v|)) {
      DotComm(v, Projection(blake3, seed, j, |v|));
    }
    if applied == Zeros(HASH_PROJECTIONS) {
      forall j | 0 <= j < HASH_PROJECTIONS ensures Dot(v, Projection(blake3, seed, j, |v|)) == 0 {
        assert applied[j] == 0;
      }
    }
  }

  /** When the projections do not have full rank, every coefficient vector has a piece that is accepted
      although its data is not the announced combination. */
  lemma InconsistentAccepted(blake3: Blake3, hashes: SegmentHashes, source: seq<Vec>, size: nat, c: Vec)
    returns (data: Vec)
    requires |c| == |source| >= 1 && Uniform(source, size) && HashesOf(blake3, hashes, source)
    requires Rank(Projections(blake3, hashes.seed, size)) < size
    ensures |data| == size && Accepts(blake3, CodedPiece(data, c), hashes) && !Consistent(CodedPiece(data, c), source)
  {
    var combined := Comb(c, source, size);
    var w := LowRankKernel(Projections(blake3, hashes.seed, size), size);
    data := AddV(w, combined);
    AddVLaws(w, combined);
    AddVEqualsZero(data, combined);
    OrthogonalIffKernel(blake3, hashes.seed, w);
    AcceptsIffErrorOrthogonal(blake3, CodedPiece(data, c), hashes, source);
  }

  /** Sixteen projections never have full rank on pieces of more than sixteen bytes. */
  lemma LongPiecesNotCovered(blake3: Blake3, seed: Bytes32, size: nat)
    ensures size > 16 ==> Rank(Projections(blake3, seed, size)) < size
  {
    RankAtMostLength(Projections(blake3, seed, size));
  }

  /** A hash function that writes out the projection index as a unit vector. */
  function IndexHash(): Blake3 {
    s => if |s| > 32 then Unit(32, s[32] as nat) else Zero32()
  }

  /** Up to sixteen bytes, for every seed some hash function gives projections of full rank. */
  lemma ShortPiecesCoverable(seed: Bytes32, size: nat)
    requires size <= 16
    ensures Rank(Projections(IndexHash(), seed, size)) == size
  {
    var projections := Projections(IndexHash(), seed, size);
    forall j, i | 0 <= j < size && 0 <= i < size ensures projections[j][i] == Unit(size, j)[i] {
      ChunkInputLayout(seed, j, 0);
      ProjectionBlock(IndexHash(), seed, j, size, 0, i);
    }
    forall j | 0 <= j < size ensures projections[j] == Unit(size, j) {}
    assert projections[..size] == Identity(size);
    assert projections == Identity(size) + projections[size..];
    forall v: Vec | |v| == size ensures InSpan(v, projections) {
      IdentitySpans(v);
      LargerFamilySpans(v, Identity(size), projections[size..]);
    }
    FullRankIffSpansAll(projections, size);
  }

  /** Every accepted piece of the given size is consistent. */
  ghost predicate AcceptanceIsSound(blake3: Blake3, hashes: SegmentHashes, source: seq<Vec>, size: nat) {
    forall piece: CodedPiece :: |piece.data| == size && Accepts(blake3, piece, hashes) ==> Consistent(piece, source)
  }

  /** Exactly: acceptance implies consistency for all pieces of a size if and only if the sixteen
      projections have full rank on that size, so never for more than sixteen bytes. */
  lemma AcceptanceSoundIff(blake3: Blake3, hashes: SegmentHashes, source: seq<Vec>, size: nat)
    requires |source| >= 1 && Uniform(source, size) && HashesOf(blake3, hashes, source)
    ensures AcceptanceIsSound(blake3, hashes, source, size)
      <==> Rank(Projections(blake3, hashes.seed, size)) == size
    ensures size > 16 ==> !AcceptanceIsSound(blake3, hashes, source, size)
  {
    var projections := Projections(blake3, hashes.seed, size);
    RankAtMostDimension(projections, size);
    LongPiecesNotCovered(blake3, hashes.seed, size);
    if Rank(projections) < size {
      var data := InconsistentAccepted(blake3, hashes, source, size, Zeros(|source|));
      assert !AcceptanceIsSound(blake3, hashes, source, size);
    } else {
      forall piece: CodedPiece | |piece.data| == size && Accepts(blake3, piece, hashes)
        ensures Consistent(piece, source)
      {
        FullRankAcceptance(blake3, piece, hashes, source);
      }
    }
  }

  lemma FullRankAcceptance(blake3: Blake3, piece: CodedPiece, hashes: SegmentHashes, source: seq<Vec>)
    requires |source| >= 1 && Uniform(source, |piece.data|) && HashesOf(blake3, hashes, source)
    requires Rank(Projections(blake3, hashes.seed, |piece.data|)) == |piece.data|
    requires Accepts(blake3, piece, hashes)
    ensures Consistent(piece, source)
  {
    AcceptsIffErrorOrthogonal(blake3, piece, hashes, source);
    var combined := Comb(piece.coefficients, source, |piece.data|);
    var error := AddV(piece.data, combined);
    OrthogonalIffKernel(blake3, hashes.seed, error);
    FullRankKernel(Projections(blake3, hashes.seed, |piece.data|), error);
    AddVEqualsZero(piece.data, combined);
  }

  /** For short pieces, and only for them, a hash function exists with which acceptance is sound. */
  lemma SoundnessPossibleIff(seed: Bytes32, source: seq<Vec>, size: nat)
    requires |source| >= 1 && Uniform(source, size)
    ensures (exists blake3: Blake3, hashes: SegmentHashes :: hashes.seed == seed && HashesOf(blake3, hashes, source)
                && AcceptanceIsSound(blake3, hashes, source, size))
      <==> size <= 16
  {
    if size <= 16 {
      var blake3 := IndexHash();
      var hashes := SegmentHashes(seed, seq(|source|, i requires 0 <= i < |source| => HashOf(blake3, seed, source[i])));
      ShortPiecesCoverable(seed, size);
      AcceptanceSoundIff(blake3, hashes, source, size);
    } else {
      forall blake3: Blake3, hashes: SegmentHashes | hashes.seed == seed && HashesOf(blake3, hashes, source)
        ensures !AcceptanceIsSound(blake3, hashes, source, size)
      {
        AcceptanceSoundIff(blake3, hashes, source, size);
      }
    }
  }

  // ---------- Recombining accepted and rejected pieces ----------

  /** The hashes of the data of each piece. */
  ghost function DataHashes(blake3: Blake3, seed: Bytes32, pieces: seq<CodedPiece>): (r: seq<Vec>)
    ensures Uniform(r, HASH_PROJECTIONS)
  {
    seq(|pieces|, i requires 0 <= i < |pieces| => HashOf(blake3, seed, pieces[i].data))
  }

  /** The hash of a recombination is the combination of the hashes, both on the data side and on the
      side announced by the coefficients. */
  lemma RecombinedHashes(blake3: Blake3, pieces: seq<CodedPiece>, alphas: Vec, k: nat, size: nat, hashes: SegmentHashes)
    requires |alphas| == |pieces| && Shaped(pieces, k, size) && |hashes.pieceHashes| == k
    ensures var p := Recombine(pieces, alphas, k, size);
      && HashOf(blake3, hashes.seed, p.data)
         == Comb(alphas, DataHashes(blake3, hashes.seed, pieces), HASH_PROJECTIONS)
      && ExpectedHash(p.coefficients, hashes.pieceHashes)
         == Comb(alphas, Combs(Coefficients(pieces), hashes.pieceHashes, HASH_PROJECTIONS), HASH_PROJECTIONS)
  {
    var dataHashes := DataHashes(blake3, hashes.seed, pieces);
    forall j | 0 <= j < HASH_PROJECTIONS
      ensures Dot(alphas, Col(dataHashes, HASH_PROJECTIONS, j))
           == Dot(Comb(alphas, Datas(pieces), size), Projection(blake3, hashes.seed, j, size))
    {
      var w := Projection(blake3, hashes.seed, j, size);
      DotExchange(alphas, Datas(pieces), w);
      assert Col(dataHashes, HASH_PROJECTIONS, j) == Apply(Datas(pieces), w);
    }
    CombCombs(alphas, Coefficients(pieces), hashes.pieceHashes, HASH_PROJECTIONS);
  }

  /** A piece of the right coefficient count passes when its two hashes agree. */
  lemma AcceptsByHashes(blake3: Blake3, pieces: seq<CodedPiece>, k: nat, size: nat, hashes: SegmentHashes, i: nat)
    requires Shaped(pieces, k, size) && |hashes.pieceHashes| == k > 0 && i < |pieces|
    ensures Accepts(blake3, pieces[i], hashes) <==>
      DataHashes(blake3, hashes.seed, pieces)[i]
      == Combs(Coefficients(pieces), hashes.pieceHashes, HASH_PROJECTIONS)[i]
  {}

  /** Recombining accepted pieces, wherever they come from, gives an accepted piece. */
  lemma AcceptedRecombine(blake3: Blake3, pieces: seq<CodedPiece>, alphas: Vec, k: nat, size: nat,
                          hashes: SegmentHashes)
    requires |alphas| == |pieces| && Shaped(pieces, k, size) && |hashes.pieceHashes| == k > 0
    requires forall i :: 0 <= i < |pieces| ==> Accepts(blake3, pieces[i], hashes)
    ensures Accepts(blake3, Recombine(pieces, alphas, k, size), hashes)
  {
    RecombinedHashes(blake3, pieces, alphas, k, size, hashes);
    var actual := DataHashes(blake3, hashes.seed, pieces);
    var expected := Combs(Coefficients(pieces), hashes.pieceHashes, HASH_PROJECTIONS);
    forall i | 0 <= i < |pieces| ensures actual[i] == expected[i] {
      AcceptsByHashes(blake3, pieces, k, size, hashes, i);
    }
    assert actual == expected;
  }

  /** Families that differ in one vector have different combinations when its scalar is not zero. */
  lemma OneDifference(c: Vec, us: seq<Vec>, vs: seq<Vec>, p: nat, n: nat)
    requires |c| == |us| == |vs| && Uniform(us, n) && Uniform(vs, n) && p < |c| && c[p] != 0
    requires forall i :: 0 <= i < |us| && i != p ==> us[i] == vs[i]
    requires Comb(c, us, n) == Comb(c, vs, n)
    ensures us[p] == vs[p]
  {
    var rest, d := RemoveAt(c, p), RemoveAt(us, p);
    assert c == InsertAt(rest, p, c[p]) && d == RemoveAt(vs, p);
    CombInsert(rest, us, p, c[p], n);
    CombInsert(rest, vs, p, c[p], n);
    var s, u, v := Comb(rest, d, n), ScaleV(c[p], us[p]), ScaleV(c[p], vs[p]);
    AddVLaws(s, u);
    AddVLaws(s, v);
    AddVLaws(u, s);
    AddVLaws(v, s);
    InvCorrect(c[p]);
    var inv := Inv(c[p]).value;
    MulComm(inv, c[p]);
    ScaleVLaws(inv, c[p], us[p]);
    ScaleVLaws(inv, c[p], vs[p]);
  }

  /** With one rejected piece among accepted ones, the recombination is rejected exactly when the scalar
      of that piece is not zero. */
  lemma RejectedRecombine(blake3: Blake3, pieces: seq<CodedPiece>, alphas: Vec, k: nat, size: nat,
                          hashes: SegmentHashes, bad: nat)
    requires |alphas| == |pieces| && Shaped(pieces, k, size) && |hashes.pieceHashes| == k > 0 && bad < |pieces|
    requires forall i :: 0 <= i < |pieces| ==> (Accepts(blake3, pieces[i], hashes) <==> i != bad)
    ensures Accepts(blake3, Recombine(pieces, alphas, k, size), hashes) <==> alphas[bad] == 0
  {
    RecombinedHashes(blake3, pieces, alphas, k, size, hashes);
    var actual := DataHashes(blake3, hashes.seed, pieces);
    var expected := Combs(Coefficients(pieces), hashes.pieceHashes, HASH_PROJECTIONS);
    forall i | 0 <= i < |pieces| ensures actual[i] == expected[i] <==> i != bad {
      AcceptsByHashes(blake3, pieces, k, size, hashes, i);
    }
    if alphas[bad] == 0 {
      DroppedTerm(alphas, actual, expected, bad, HASH_PROJECTIONS);
    } else if Comb(alphas, actual, HASH_PROJECTIONS) == Comb(alphas, expected, HASH_PROJECTIONS) {
      OneDifference(alphas, actual, expected, bad, HASH_PROJECTIONS);
    }
  }

  /** A vector with a zero scalar does not matter. */
  lemma DroppedTerm(c: Vec, us: seq<Vec>, vs: seq<Vec>, p: nat, n: nat)
    requires |c| == |us| == |vs| && Uniform(us, n) && Uniform(vs, n) && p < |c| && c[p] == 0
    requires forall i :: 0 <= i < |us| && i != p ==> us[i] == vs[i]
    ensures Comb(c, us, n) == Comb(c, vs, n)
  {
    var rest := RemoveAt(c, p);
    assert c == InsertAt(rest, p, c[p]) && RemoveAt(us, p) == RemoveAt(vs, p);
    CombInsert(rest, us, p, 0, n);
    CombInsert(rest, vs, p, 0, n);
    ScaleVLaws(0, 0, us[p]);
    ScaleVLaws(0, 0, vs[p]);
  }

  // ---------- Deriving the segment layout from the file size ----------

  datatype ContentVerificationRecord = ContentVerificationRecord(fileSize: nat, segmentHashes: seq<SegmentHashes>) {
    function SegmentCount(): nat {
      if fileSize == 0 then 0 else DivCeil(fileSize, DEFAULT_SEGMENT_SIZE)
    }

    /** The source subtracts in `usize`, so a later segment than the last one must not start past the file. */
    function KForSegment(segmentIndex: nat): nat
      requires SegmentCount() > 0 ==> segmentIndex * DEFAULT_SEGMENT_SIZE <= fileSize
    {
      if SegmentCount() == 0 then 0
      else if segmentIndex + 1 < SegmentCount() then DEFAULT_SEGMENT_SIZE / DEFAULT_PIECE_SIZE
      else
        var q := DivCeil(fileSize - segmentIndex * DEFAULT_SEGMENT_SIZE, DEFAULT_PIECE_SIZE);
        if q > 1 then q else 1
    }
  }
}
