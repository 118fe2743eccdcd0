/** The RLNC encoder: splits a segment into padded source pieces and combines them. */
module Encoder {
  import opened Bytes
  import opened Numbers
  import opened GF256
  import opened Vectors
  import opened Pieces

  const DEFAULT_PIECE_SIZE: nat := 262_144
  const DEFAULT_SEGMENT_SIZE: nat := 10_485_760

  datatype ErasureConfig = ErasureConfig(pieceSize: nat, segmentSize: nat, initialParity: nat) {
    /** Source pieces of a full segment. */
    function K(): nat
      requires pieceSize > 0
    {
      segmentSize / pieceSize
    }

    function KForSegment(segmentBytes: nat): nat
      requires pieceSize > 0
    {
      var q := DivCeil(segmentBytes, pieceSize);
      if q > 1 then q else 1
    }

    function ParityCount(k: nat): nat {
      (k * initialParity) / 100
    }
  }

  // ---------- Splitting a segment ----------

  function Split(data: Vec, size: nat): (pieces: seq<Vec>)
    requires size > 0
    ensures Uniform(pieces, size)
  {
    seq(DivCeil(|data|, size), i requires 0 <= i => Padded(data, i * size, size))
  }

  function Flatten(rows: seq<Vec>): Vec {
    if |rows| == 0 then [] else Flatten(rows[..|rows| - 1]) + rows[|rows| - 1]
  }

  /** `Vec::truncate`. */
  function Truncate(bytes: Vec, len: nat): Vec {
    if len < |bytes| then bytes[..len] else bytes
  }

  lemma {:induction false} FlattenBlocks(data: Vec, size: nat, count: nat)
    requires size > 0
    ensures Flatten(seq(count, i requires 0 <= i => Padded(data, i * size, size)))
         == Padded(data, 0, count * size)
  {
    var rows := seq(count, i requires 0 <= i => Padded(data, i * size, size));
    if count > 0 {
      FlattenBlocks(data, size, count - 1);
      assert rows[..count - 1] == seq(count - 1, i requires 0 <= i => Padded(data, i * size, size));
      assert count * size == (count - 1) * size + size;
    }
  }

  /** Splitting loses nothing: the joined pieces start with the segment and the rest is zero. */
  lemma SplitRoundTrip(data: Vec, size: nat)
    requires size > 0
    ensures Truncate(Flatten(Split(data, size)), |data|) == data
    ensures forall i :: |data| <= i < |Flatten(Split(data, size))| ==> Flatten(Split(data, size))[i] == 0
  {
    var k := DivCeil(|data|, size);
    FlattenBlocks(data, size, k);
    DivCeilCovers(|data|, size, k);
  }

  // ---------- The encoder ----------

  datatype RlncEncoder = RlncEncoder(sourcePieces: seq<Vec>, pieceSize: nat) {
    ghost predicate Valid() {
      Uniform(sourcePieces, pieceSize)
    }

    function K(): nat {
      |sourcePieces|
    }

    /** The source pieces as coded pieces with identity coefficient vectors. */
    function SourcePieces(): seq<CodedPiece> {
      seq(K(), i requires 0 <= i < K() => CodedPiece(sourcePieces[i], Unit(K(), i)))
    }

    /** The piece that a coefficient vector asks for. */
    ghost function Coded(coeffs: Vec): CodedPiece
      requires Valid() && |coeffs| == K()
    {
      CodedPiece(Comb(coeffs, sourcePieces, pieceSize), coeffs)
    }

    /** The pieces that the drawn coefficient vectors ask for. */
    ghost function Parity(draws: seq<Vec>): (pieces: seq<CodedPiece>)
      requires Valid() && Uniform(draws, K())
      ensures |pieces| == |draws| && Shaped(pieces, K(), pieceSize)
    {
      seq(|draws|, i requires 0 <= i < |draws| => Coded(draws[i]))
    }

    /** Source pieces followed by one piece per drawn coefficient vector: the vector itself, and the
        combination of the source pieces that it announces. */
    method Encode(draws: seq<Vec>) returns (pieces: seq<CodedPiece>)
      requires Valid() && Uniform(draws, K())
      ensures |pieces| == K() + |draws|
      ensures forall i :: 0 <= i < K() ==>
        pieces[i].data == sourcePieces[i] && pieces[i].coefficients == Unit(K(), i)
      ensures forall i :: 0 <= i < |draws| ==>
        && pieces[K() + i].coefficients == draws[i]
        && pieces[K() + i].data == Comb(draws[i], sourcePieces, pieceSize)
      ensures pieces == SourcePieces() + Parity(draws)
    {
      pieces := SourcePieces();
      for i := 0 to |draws|
        invariant pieces == SourcePieces() + seq(i, j requires 0 <= j < i => Coded(draws[j]))
      {
        var data := LinearCombine(sourcePieces, draws[i], pieceSize);
        pieces := pieces + [CodedPiece(data, draws[i])];
      }
    }
  }

  /** Splits the segment into `k` zero-padded source pieces. */
  method NewEncoder(segment: Vec, pieceSize: nat) returns (r: Result<RlncEncoder>)
    ensures |segment| == 0 ==> r == Err(EmptyData)
    ensures |segment| > 0 && pieceSize == 0 ==> r == Err(InvalidConfig("piece_size must be > 0"))
    ensures |segment| > 0 && pieceSize > 0 ==> r == Ok(RlncEncoder(Split(segment, pieceSize), pieceSize))
  {
    if |segment| == 0 {
      return Err(EmptyData);
    }
    if pieceSize == 0 {
      return Err(InvalidConfig("piece_size must be > 0"));
    }
    var q := DivCeil(|segment|, pieceSize);
    var k := if q > 1 then q else 1;
    DivCeilCovers(|segment|, pieceSize, q);
    var sourcePieces: seq<Vec> := [];
    for i := 0 to k
      invariant sourcePieces == seq(i, j requires 0 <= j => Padded(segment, j * pieceSize, pieceSize))
    {
      var start := i * pieceSize;
      var end := if start + pieceSize < |segment| then start + pieceSize else |segment|;
      var piece := Zeros(pieceSize);
      if start < |segment| {
        piece := segment[start..end] + piece[end - start..];
      }
      assert piece == Padded(segment, start, pieceSize);
      sourcePieces := sourcePieces + [piece];
    }
    return Ok(RlncEncoder(sourcePieces, pieceSize));
  }

  /** Adds `coeff` times `piece` to the buffer through the lookup table of `coeff`. */
  method AddMultiple(result: array<byte>, coeff: byte, piece: Vec)
    requires |piece| == result.Length
    modifies result
    ensures result[..] == AddV(old(result[..]), ScaleV(coeff, piece))
  {
    var table := MulTable(coeff);
    for j := 0 to result.Length
      invariant forall q :: 0 <= q < j ==> result[q] == Add(old(result[q]), Mul(coeff, piece[q]))
      invariant forall q :: j <= q < result.Length ==> result[q] == old(result[q])
    {
      result[j] := Add(result[j], Lookup(table, piece[j], coeff));
    }
  }

  /** Accumulates each piece through the lookup table of its coefficient. */
  method LinearCombine(pieces: seq<Vec>, coeffs: Vec, pieceSize: nat) returns (bytes: Vec)
    requires |coeffs| == |pieces| && Uniform(pieces, pieceSize)
    ensures bytes == Comb(coeffs, pieces, pieceSize)
  {
    var result := new byte[pieceSize](_ => 0);
    assert result[..] == Comb([], [], pieceSize);
    for i := 0 to |pieces|
      invariant result[..] == Comb(coeffs[..i], pieces[..i], pieceSize)
    {
      assert coeffs[..i + 1] == coeffs[..i] + [coeffs[i]] && pieces[..i + 1] == pieces[..i] + [pieces[i]];
      CombSnoc(coeffs[..i], pieces[..i], coeffs[i], pieces[i]);
      if coeffs[i] == 0 {
        ScaleVLaws(0, 0, pieces[i]);
        AddVLaws(result[..], pieces[i]);
        continue;
      }
      AddMultiple(result, coeffs[i], pieces[i]);
    }
    assert coeffs[..|pieces|] == coeffs && pieces[..|pieces|] == pieces;
    return result[..];
  }

  // ---------- Encoder output is consistent with the source ----------

  lemma SourcePiecesConsistent(e: RlncEncoder)
    requires e.Valid()
    ensures Shaped(e.SourcePieces(), e.K(), e.pieceSize)
    ensures AllConsistent(e.SourcePieces(), e.sourcePieces)
    ensures Coefficients(e.SourcePieces()) == Identity(e.K()) && Datas(e.SourcePieces()) == e.sourcePieces
  {
    forall i | 0 <= i < e.K() ensures Consistent(e.SourcePieces()[i], e.sourcePieces) {
      CombUnit(i, e.sourcePieces, e.pieceSize);
    }
  }

  /** Combining is linear in the coefficients and in the pieces. */
  lemma LinearCombineIsBilinear(a: Vec, b: Vec, c: byte, us: seq<Vec>, vs: seq<Vec>, n: nat)
    requires |a| == |b| == |us| == |vs| && Uniform(us, n) && Uniform(vs, n)
    ensures Comb(AddV(a, b), us, n) == AddV(Comb(a, us, n), Comb(b, us, n))
    ensures Comb(ScaleV(c, a), us, n) == ScaleV(c, Comb(a, us, n))
    ensures Comb(a, seq(|us|, i requires 0 <= i < |us| => AddV(us[i], vs[i])), n)
         == AddV(Comb(a, us, n), Comb(a, vs, n))
    ensures Comb(a, seq(|us|, i requires 0 <= i < |us| => ScaleV(c, us[i])), n) == ScaleV(c, Comb(a, us, n))
  {
    CombAdd(a, b, us, n);
    CombScale(c, a, us, n);
    var sums := seq(|us|, i requires 0 <= i < |us| => AddV(us[i], vs[i]));
    var scaled := seq(|us|, i requires 0 <= i < |us| => ScaleV(c, us[i]));
    forall j | 0 <= j < n
      ensures Dot(a, Col(sums, n, j)) == Add(Dot(a, Col(us, n, j)), Dot(a, Col(vs, n, j)))
      ensures Dot(a, Col(scaled, n, j)) == Mul(c, Dot(a, Col(us, n, j)))
    {
      var u, v := Col(us, n, j), Col(vs, n, j);
      assert Col(sums, n, j) == AddV(u, v) && Col(scaled, n, j) == ScaleV(c, u);
      DotComm(a, AddV(u, v));
      DotAdd(u, v, a);
      DotComm(a, ScaleV(c, u));
      DotScale(c, u, a);
      DotComm(u, a);
      DotComm(v, a);
    }
  }
}
