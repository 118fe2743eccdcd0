/** Coded pieces, what it means for one to be consistent with a source, and recombination. */
module Pieces {
  import opened Vectors
  import opened Span
  import opened Elimination

  /** A coded piece: data bytes and one coefficient per source piece. */
  datatype CodedPiece = CodedPiece(data: Vec, coefficients: Vec)

  datatype ErasureError =
    | EmptyData
    | EncodingFailed(reason: string)
    | DecodingFailed(reason: string)
    | InsufficientPieces(have: nat, need: nat)
    | LinearlyDependent
    | InvalidConfig(reason: string)

  datatype Result<T> = Ok(value: T) | Err(error: ErasureError)

  /** All pieces carry `k` coefficients and `size` data bytes. */
  predicate Shaped(pieces: seq<CodedPiece>, k: nat, size: nat) {
    forall i :: 0 <= i < |pieces| ==> |pieces[i].coefficients| == k && |pieces[i].data| == size
  }

  /** The data length of the first piece, by which the code sizes its buffers. */
  function DataSize(pieces: seq<CodedPiece>): nat {
    if |pieces| > 0 then |pieces[0].data| else 0
  }

  function Coefficients(pieces: seq<CodedPiece>): seq<Vec> {
    seq(|pieces|, i requires 0 <= i < |pieces| => pieces[i].coefficients)
  }

  function Datas(pieces: seq<CodedPiece>): seq<Vec> {
    seq(|pieces|, i requires 0 <= i < |pieces| => pieces[i].data)
  }

  /** The data of `p` is the combination of the source pieces that its coefficients announce. */
  ghost predicate Consistent(p: CodedPiece, source: seq<Vec>) {
    IsComb(p.coefficients, source, p.data)
  }

  ghost predicate AllConsistent(pieces: seq<CodedPiece>, source: seq<Vec>) {
    forall i :: 0 <= i < |pieces| ==> Consistent(pieces[i], source)
  }

  /** The piece with both parts combined by the same scalars. */
  function Recombine(pieces: seq<CodedPiece>, alphas: Vec, k: nat, size: nat): CodedPiece
    requires |alphas| == |pieces| && Shaped(pieces, k, size)
  {
    CodedPiece(Comb(alphas, Datas(pieces), size), Comb(alphas, Coefficients(pieces), k))
  }

  /** Recombining with any scalars keeps a piece consistent with the original source. */
  lemma RecombineConsistent(pieces: seq<CodedPiece>, alphas: Vec, k: nat, size: nat, source: seq<Vec>)
    requires |alphas| == |pieces| && Shaped(pieces, k, size)
    requires |source| == k && Uniform(source, size) && AllConsistent(pieces, source)
    ensures Consistent(Recombine(pieces, alphas, k, size), source)
  {
    forall i | 0 <= i < |pieces| ensures Datas(pieces)[i] == Combs(Coefficients(pieces), source, size)[i] {
      assert Consistent(pieces[i], source);
    }
    assert Datas(pieces) == Combs(Coefficients(pieces), source, size);
    CombCombs(alphas, Coefficients(pieces), source, size);
  }

  /** One more piece in a recombination, as the accumulating loops add it. */
  lemma RecombineStep(pieces: seq<CodedPiece>, alphas: Vec, k: nat, size: nat, i: nat)
    requires |alphas| == |pieces| && Shaped(pieces, k, size) && i < |pieces|
    ensures var before := Recombine(pieces[..i], alphas[..i], k, size);
            Recombine(pieces[..i + 1], alphas[..i + 1], k, size) == CodedPiece(
              AddV(before.data, ScaleV(alphas[i], pieces[i].data)),
              AddV(before.coefficients, ScaleV(alphas[i], pieces[i].coefficients)))
  {
    assert alphas[..i + 1] == alphas[..i] + [alphas[i]];
    assert Datas(pieces[..i + 1]) == Datas(pieces[..i]) + [pieces[i].data];
    assert Coefficients(pieces[..i + 1]) == Coefficients(pieces[..i]) + [pieces[i].coefficients];
    CombSnoc(alphas[..i], Datas(pieces[..i]), alphas[i], pieces[i].data);
    CombSnoc(alphas[..i], Coefficients(pieces[..i]), alphas[i], pieces[i].coefficients);
  }

  /** The pieces as a loop over zipped buffers sees them: cut or zero-padded to the shape of the first. */
  function Fitted(pieces: seq<CodedPiece>, k: nat, size: nat): (r: seq<CodedPiece>)
    ensures |r| == |pieces| && Shaped(r, k, size)
  {
    seq(|pieces|, i requires 0 <= i < |pieces| =>
      CodedPiece(Padded(pieces[i].data, 0, size), Padded(pieces[i].coefficients, 0, k)))
  }

  /** `a` agrees with `b` as far as both go, and is zero past the end of `b`. */
  ghost predicate SamePrefix(a: Vec, b: Vec) {
    forall j :: 0 <= j < |a| ==> a[j] == if j < |b| then b[j] else 0
  }

  /** Pieces of one shape are taken as they are, and only those. */
  lemma FittedIffShaped(pieces: seq<CodedPiece>, k: nat, size: nat)
    ensures Fitted(pieces, k, size) == pieces <==> Shaped(pieces, k, size)
    ensures forall i :: 0 <= i < |pieces| ==>
      && SamePrefix(Fitted(pieces, k, size)[i].data, pieces[i].data)
      && SamePrefix(Fitted(pieces, k, size)[i].coefficients, pieces[i].coefficients)
  {
    if Shaped(pieces, k, size) {
      forall i | 0 <= i < |pieces| ensures Fitted(pieces, k, size)[i] == pieces[i] {
        assert Padded(pieces[i].data, 0, size) == pieces[i].data;
        assert Padded(pieces[i].coefficients, 0, k) == pieces[i].coefficients;
      }
    }
  }

  /** Combines at least two pieces with non-zero scalars; the scalars are the random draw. */
  method CreatePieceFromExisting(pieces: seq<CodedPiece>, alphas: Vec) returns (r: Result<CodedPiece>)
    requires |alphas| == |pieces| && forall i :: 0 <= i < |alphas| ==> alphas[i] != 0
    ensures |pieces| < 2 ==> r == Err(EncodingFailed("need at least 2 pieces to combine"))
    ensures |pieces| >= 2 ==> var k, size := |pieces[0].coefficients|, |pieces[0].data|;
      r == Ok(Recombine(Fitted(pieces, k, size), alphas, k, size))
  {
    if |pieces| < 2 {
      return Err(EncodingFailed("need at least 2 pieces to combine"));
    }
    var k, size := |pieces[0].coefficients|, |pieces[0].data|;
    ghost var fitted := Fitted(pieces, k, size);
    var newData, newCoeffs := Zeros(size), Zeros(k);
    RecombineNone(k, size);
    for i := 0 to |pieces|
      invariant CodedPiece(newData, newCoeffs) == Recombine(fitted[..i], alphas[..i], k, size)
    {
      RecombineStep(fitted, alphas, k, size, i);
      newData := AddZipped(newData, alphas[i], pieces[i].data);
      newCoeffs := AddZipped(newCoeffs, alphas[i], pieces[i].coefficients);
    }
    assert alphas[..|pieces|] == alphas && fitted[..|pieces|] == fitted;
    return Ok(CodedPiece(newData, newCoeffs));
  }

  lemma RecombineNone(k: nat, size: nat)
    ensures Recombine([], [], k, size) == CodedPiece(Zeros(size), Zeros(k))
  {}
}
