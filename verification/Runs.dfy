/** Runs of the network: pieces are coded, recombined, repaired and lost in any order. */
module Runs {
  import opened Bytes
  import opened Numbers
  import opened Vectors
  import opened Span
  import opened Pieces
  import opened Encoder
  import opened Decoder
  import opened Repair
  import opened RepairPiece
  import opened Homomorphic

  datatype Action =
    | Code(coeffs: Vec)
    | Combine(indices: seq<nat>, alphas: Vec)
    | Mend(indices: seq<nat>, existing: seq<Vec>, offset: nat)
    | Lose(index: nat)

  ghost predicate ValidIndices(indices: seq<nat>, count: nat) {
    forall i :: 0 <= i < |indices| ==> indices[i] < count
  }

  function Select(pool: seq<CodedPiece>, indices: seq<nat>): (r: seq<CodedPiece>)
    requires forall i :: 0 <= i < |indices| ==> indices[i] < |pool|
    ensures |r| == |indices|
  {
    seq(|indices|, i requires 0 <= i < |indices| => pool[indices[i]])
  }

  /** What the source demands of its arguments: matching lengths, held pieces, non-zero scalars. */
  ghost predicate Allowed(e: RlncEncoder, pool: seq<CodedPiece>, a: Action) {
    match a
    case Code(coeffs) => |coeffs| == e.K()
    case Combine(indices, alphas) =>
      && ValidIndices(indices, |pool|) && |indices| == |alphas| && |indices| >= 2
      && forall i :: 0 <= i < |alphas| ==> alphas[i] != 0
    case Mend(indices, existing, offset) => ValidIndices(indices, |pool|) && Uniform(existing, e.K())
    case Lose(index) => index < |pool|
  }

  /** The pool after one action. */
  ghost function Next(e: RlncEncoder, pool: seq<CodedPiece>, a: Action): seq<CodedPiece>
    requires e.Valid() && Shaped(pool, e.K(), e.pieceSize) && Allowed(e, pool, a)
  {
    match a
    case Code(coeffs) => pool + [e.Coded(coeffs)]
    case Combine(indices, alphas) => pool + [Recombine(Select(pool, indices), alphas, e.K(), e.pieceSize)]
    case Mend(indices, existing, offset) =>
      (match OrthogonalPiece(Select(pool, indices), existing, e.K(), e.pieceSize, offset)
       case None => pool
       case Some(p) => pool + [p])
    case Lose(index) => RemoveAt(pool, index)
  }

  /** Every piece has the segment's shape and is consistent with its source. */
  ghost predicate Sound(e: RlncEncoder, pool: seq<CodedPiece>) {
    e.Valid() && Shaped(pool, e.K(), e.pieceSize) && AllConsistent(pool, e.sourcePieces)
  }

  lemma NextSound(e: RlncEncoder, pool: seq<CodedPiece>, a: Action)
    requires Sound(e, pool) && Allowed(e, pool, a)
    ensures Sound(e, Next(e, pool, a))
  {
    match a
    case Code(coeffs) =>
      assert Consistent(e.Coded(coeffs), e.sourcePieces);
    case Combine(indices, alphas) =>
      RecombineConsistent(Select(pool, indices), alphas, e.K(), e.pieceSize, e.sourcePieces);
    case Mend(indices, existing, offset) =>
      MendedConsistent(e, Select(pool, indices), existing, offset);
    case Lose(index) =>
  }

  lemma MendedConsistent(e: RlncEncoder, local: seq<CodedPiece>, existing: seq<Vec>, offset: nat)
    requires Sound(e, local) && Uniform(existing, e.K())
    ensures var p := OrthogonalPiece(local, existing, e.K(), e.pieceSize, offset);
      p.Some? ==>
        |p.value.coefficients| == e.K() && |p.value.data| == e.pieceSize && Consistent(p.value, e.sourcePieces)
  {
    if |local| > 0 && e.K() > 0 {
      OrthogonalPieceCorrect(local, existing, e.K(), e.pieceSize, offset);
    }
  }

  /** A run starts from the source pieces; each state follows from the one before by an allowed action. */
  ghost predicate IsRun(e: RlncEncoder, states: seq<seq<CodedPiece>>, actions: seq<Action>) {
    && e.Valid() && |states| == |actions| + 1 && states[0] == e.SourcePieces()
    && forall i :: 0 <= i < |actions| ==> Follows(e, states[i], actions[i], states[i + 1])
  }

  ghost predicate Follows(e: RlncEncoder, pool: seq<CodedPiece>, a: Action, next: seq<CodedPiece>) {
    && e.Valid() && Shaped(pool, e.K(), e.pieceSize) && Allowed(e, pool, a) && next == Next(e, pool, a)
  }

  /** Every piece of every reachable pool stays consistent with the original source. */
  lemma {:induction false} RunSound(e: RlncEncoder, states: seq<seq<CodedPiece>>, actions: seq<Action>, i: nat)
    requires IsRun(e, states, actions) && i < |states|
    ensures Sound(e, states[i])
  {
    if i == 0 {
      SourcePiecesConsistent(e);
    } else {
      RunSound(e, states, actions, i - 1);
      assert Follows(e, states[i - 1], actions[i - 1], states[i - 1 + 1]);
      NextSound(e, states[i - 1], actions[i - 1]);
    }
  }

  /** Any pieces a run produced, of which the first `k` are independent, decode to the segment. */
  lemma RunDecodes(segment: Vec, pieceSize: nat, states: seq<seq<CodedPiece>>, actions: seq<Action>, i: nat,
                   indices: seq<nat>)
    requires |segment| > 0 && pieceSize > 0
    requires IsRun(RlncEncoder(Split(segment, pieceSize), pieceSize), states, actions) && i < |states|
    requires ValidIndices(indices, |states[i]|)
    ensures var k, chosen := DivCeil(|segment|, pieceSize), Select(states[i], indices);
      && Decodable(k, chosen)
      && (|chosen| >= k && Rank(Coefficients(chosen[..k])) == k
          ==> DecodeResult(k, |segment|, chosen) == Ok(segment))
  {
    var e := RlncEncoder(Split(segment, pieceSize), pieceSize);
    var k, chosen := e.K(), Select(states[i], indices);
    RunSound(e, states, actions, i);
    if |chosen| >= k && Rank(Coefficients(chosen[..k])) == k {
      SoundPiecesDecode(segment, pieceSize, chosen);
    }
  }

  /** Independent pieces that are consistent with a segment decode to it. */
  lemma SoundPiecesDecode(segment: Vec, pieceSize: nat, pieces: seq<CodedPiece>)
    requires |segment| > 0 && pieceSize > 0
    requires var k := DivCeil(|segment|, pieceSize);
      && |pieces| >= k && Shaped(pieces[..k], k, pieceSize)
      && AllConsistent(pieces[..k], Split(segment, pieceSize)) && Rank(Coefficients(pieces[..k])) == k
    ensures var k := DivCeil(|segment|, pieceSize);
      Decodable(k, pieces) && DecodeResult(k, |segment|, pieces) == Ok(segment)
  {
    var k := DivCeil(|segment|, pieceSize);
    DivCeilCovers(|segment|, pieceSize, k);
    DecodeComplete(k, |segment|, pieces);
    DecodeSound(k, |segment|, pieces, Split(segment, pieceSize));
    SplitRoundTrip(segment, pieceSize);
  }

  /** Parity alone suffices: the pieces coded from `k` independent drawn vectors decode to the segment. */
  lemma ParityDecodes(segment: Vec, pieceSize: nat, draws: seq<Vec>)
    requires |segment| > 0 && pieceSize > 0
    requires var k := DivCeil(|segment|, pieceSize); Uniform(draws, k) && |draws| >= k && Rank(draws[..k]) == k
    ensures var k, e := DivCeil(|segment|, pieceSize), RlncEncoder(Split(segment, pieceSize), pieceSize);
      Decodable(k, e.Parity(draws)) && DecodeResult(k, |segment|, e.Parity(draws)) == Ok(segment)
  {
    var k, e := DivCeil(|segment|, pieceSize), RlncEncoder(Split(segment, pieceSize), pieceSize);
    var parity := e.Parity(draws);
    assert Coefficients(parity[..k]) == draws[..k];
    forall i | 0 <= i < k ensures Consistent(parity[..k][i], e.sourcePieces) {}
    SoundPiecesDecode(segment, pieceSize, parity);
  }

  /** Coding from the source raises the rank that the network holds exactly when the drawn vector lies
      outside the span of the vectors it holds. */
  lemma CodeRaisesRankIff(e: RlncEncoder, pool: seq<CodedPiece>, c: Vec)
    requires Sound(e, pool) && Allowed(e, pool, Code(c))
    ensures Rank(Coefficients(Next(e, pool, Code(c))))
      == Rank(Coefficients(pool)) + (if InSpan(c, Coefficients(pool)) then 0 else 1)
  {
    assert Coefficients(Next(e, pool, Code(c))) == Coefficients(pool) + [c];
    RankAppend(Coefficients(pool), c);
  }

  /** However deeply recombined, every reachable piece passes verification, for every seed. */
  lemma RunVerifies(blake3: Blake3, hashes: SegmentHashes, e: RlncEncoder, states: seq<seq<CodedPiece>>,
                    actions: seq<Action>, i: nat, j: nat)
    requires IsRun(e, states, actions) && i < |states| && j < |states[i]|
    requires e.K() > 0 && HashesOf(blake3, hashes, e.sourcePieces)
    ensures Accepts(blake3, states[i][j], hashes)
  {
    RunSound(e, states, actions, i);
    assert Consistent(states[i][j], e.sourcePieces);
    ConsistentAccepted(blake3, states[i][j], hashes, e.sourcePieces);
  }

  // ---------- What repair can and cannot do ----------

  /** A repair only yields a piece to a node that holds a direction the listed vectors miss. */
  lemma RepairNeedsNewDirection(local: seq<CodedPiece>, existing: seq<Vec>, k: nat, size: nat, offset: nat)
    requires Shaped(local, k, size) && Uniform(existing, k) && Spans(existing, Coefficients(local))
    ensures OrthogonalPiece(local, existing, k, size, offset) == None
  {
    if |local| > 0 && k > 0 {
      OrthogonalPieceCorrect(local, existing, k, size, offset);
      OrthogonalVectorCorrect(existing, k, offset);
      var target := OrthogonalVector(existing, k, offset);
      if target.Some? && InSpan(target.value, Coefficients(local)) {
        SpanTransitive(target.value, Coefficients(local), existing);
      }
    }
  }

  /** The coefficients of a selection are coefficients of the pool. */
  lemma SelectionSpanned(pool: seq<CodedPiece>, indices: seq<nat>, k: nat, size: nat)
    requires Shaped(pool, k, size) && ValidIndices(indices, |pool|)
    ensures Spans(Coefficients(pool), Coefficients(Select(pool, indices)))
  {
    var local := Select(pool, indices);
    forall v | v in Coefficients(local) ensures v in Coefficients(pool) {
      var i :| 0 <= i < |local| && local[i].coefficients == v;
      assert Coefficients(pool)[indices[i]] == v;
    }
    SpansMembers(Coefficients(local), Coefficients(pool), k);
  }

  /** In particular a node whose own pieces are listed among the existing ones can never repair. */
  lemma ListedNodeCannotRepair(pool: seq<CodedPiece>, indices: seq<nat>, k: nat, size: nat, offset: nat)
    requires Shaped(pool, k, size) && ValidIndices(indices, |pool|)
    ensures OrthogonalPiece(Select(pool, indices), Coefficients(pool), k, size, offset) == None
  {
    var local := Select(pool, indices);
    SelectionSpanned(pool, indices, k, size);
    RepairNeedsNewDirection(local, Coefficients(pool), k, size, offset);
  }

  /** Without fresh coding from the source, no action raises the rank that the network still holds. */
  lemma RankNeverGrowsWithoutSource(e: RlncEncoder, pool: seq<CodedPiece>, a: Action)
    requires Sound(e, pool) && Allowed(e, pool, a) && !a.Code?
    ensures Sound(e, Next(e, pool, a))
    ensures Rank(Coefficients(Next(e, pool, a))) <= Rank(Coefficients(pool))
    ensures !a.Lose? ==> Rank(Coefficients(Next(e, pool, a))) == Rank(Coefficients(pool))
  {
    NextSound(e, pool, a);
    var k, next := e.K(), Next(e, pool, a);
    match a
    case Combine(indices, alphas) =>
      AppendRecombined(pool, indices, alphas, k, e.pieceSize);
    case Mend(indices, existing, offset) =>
      var local := Select(pool, indices);
      var p := OrthogonalPiece(local, existing, k, e.pieceSize, offset);
      if p.Some? {
        var target := OrthogonalVector(existing, k, offset).value;
        OrthogonalVectorCorrect(existing, k, offset);
        AppendRecombined(pool, indices, GreedyCombination(target, Coefficients(local)), k, e.pieceSize);
      }
    case Lose(index) =>
      forall v | v in Coefficients(next) ensures v in Coefficients(pool) {
        var i :| 0 <= i < |next| && next[i].coefficients == v;
        assert Coefficients(pool)[if i < index then i else i + 1] == v;
      }
      SpansMembers(Coefficients(next), Coefficients(pool), k);
      RankMonotone(Coefficients(next), Coefficients(pool), k);
  }

  lemma AppendRecombined(pool: seq<CodedPiece>, indices: seq<nat>, alphas: Vec, k: nat, size: nat)
    requires Shaped(pool, k, size) && ValidIndices(indices, |pool|) && |alphas| == |indices|
    ensures Rank(Coefficients(pool + [Recombine(Select(pool, indices), alphas, k, size)])) == Rank(Coefficients(pool))
  {
    var local := Select(pool, indices);
    var p := Recombine(local, alphas, k, size);
    assert IsComb(alphas, Coefficients(local), p.coefficients);
    SelectionSpanned(pool, indices, k, size);
    SpanTransitive(p.coefficients, Coefficients(local), Coefficients(pool));
    assert Coefficients(pool + [p]) == Coefficients(pool) + [p.coefficients];
    RankAppend(Coefficients(pool), p.coefficients);
  }

  /** Over any stretch of a run without the source, the rank the network holds never grows. */
  lemma {:induction false} RankNeverGrowsOverRun(e: RlncEncoder, states: seq<seq<CodedPiece>>, actions: seq<Action>,
                                                 i: nat, j: nat)
    requires IsRun(e, states, actions) && i <= j < |states|
    requires forall q :: i <= q < j ==> !actions[q].Code?
    ensures Sound(e, states[i]) && Sound(e, states[j])
    ensures Rank(Coefficients(states[j])) <= Rank(Coefficients(states[i]))
    decreases j
  {
    RunSound(e, states, actions, i);
    RunSound(e, states, actions, j);
    if i < j {
      RankNeverGrowsOverRun(e, states, actions, i, j - 1);
      assert Follows(e, states[j - 1], actions[j - 1], states[j - 1 + 1]);
      RankNeverGrowsWithoutSource(e, states[j - 1], actions[j - 1]);
    }
  }

  // ---------- Recoverability ----------

  ghost predicate Recovers(segment: Vec, k: nat, pool: seq<CodedPiece>, indices: seq<nat>) {
    && ValidIndices(indices, |pool|) && Decodable(k, Select(pool, indices))
    && DecodeResult(k, |segment|, Select(pool, indices)) == Ok(segment)
  }

  lemma SelectedRank(pool: seq<CodedPiece>, indices: seq<nat>, k: nat, size: nat)
    requires Shaped(pool, k, size) && ValidIndices(indices, |pool|)
    ensures Rank(Coefficients(Select(pool, indices))) <= Rank(Coefficients(pool))
  {
    var local := Select(pool, indices);
    SelectionSpanned(pool, indices, k, size);
    RankMonotone(Coefficients(local), Coefficients(pool), k);
  }

  /** A pool of full rank holds `k` pieces with independent coefficients. */
  lemma IndependentSelection(pool: seq<CodedPiece>, k: nat, size: nat) returns (indices: seq<nat>)
    requires Shaped(pool, k, size) && Rank(Coefficients(pool)) == k
    ensures ValidIndices(indices, |pool|) && |indices| == k
    ensures Rank(Coefficients(Select(pool, indices))) == k
  {
    var cs := Coefficients(pool);
    var basis := Basis(cs);
    BasisCorrect(cs, k);
    forall b | b in basis ensures exists i :: 0 <= i < |pool| && pool[i].coefficients == b {
      var i :| 0 <= i < |cs| && cs[i] == b;
      assert pool[i].coefficients == b;
    }
    indices := [];
    for q := 0 to k
      invariant |indices| == q && ValidIndices(indices, |pool|)
      invariant forall j :: 0 <= j < q ==> pool[indices[j]].coefficients == basis[j]
    {
      assert basis[q] in basis;
      var i :| 0 <= i < |pool| && pool[i].coefficients == basis[q];
      indices := indices + [i];
    }
    assert Coefficients(Select(pool, indices)) == basis;
    FullRankIffIndependent(basis, k);
  }

  /** At any moment of any run, the segment can be recovered from what the network holds exactly
      when the coefficient vectors it holds have full rank. */
  lemma RecoverableIffFullRank(segment: Vec, pieceSize: nat, states: seq<seq<CodedPiece>>, actions: seq<Action>, i: nat)
    requires |segment| > 0 && pieceSize > 0
    requires IsRun(RlncEncoder(Split(segment, pieceSize), pieceSize), states, actions) && i < |states|
    ensures (exists indices :: Recovers(segment, DivCeil(|segment|, pieceSize), states[i], indices))
      <==> Rank(Coefficients(states[i])) == DivCeil(|segment|, pieceSize)
  {
    var k, pool := DivCeil(|segment|, pieceSize), states[i];
    RunSound(RlncEncoder(Split(segment, pieceSize), pieceSize), states, actions, i);
    if Rank(Coefficients(pool)) == k {
      var indices := IndependentSelection(pool, k, pieceSize);
      var chosen := Select(pool, indices);
      assert chosen[..k] == chosen;
      RunDecodes(segment, pieceSize, states, actions, i, indices);
      assert Recovers(segment, k, pool, indices);
    }
    if indices :| Recovers(segment, k, pool, indices) {
      var chosen := Select(pool, indices);
      DecodeComplete(k, |segment|, chosen);
      assert chosen[..k] == Select(pool, indices[..k]);
      SelectedRank(pool, indices[..k], k, pieceSize);
      RankAtMostDimension(Coefficients(pool), k);
    }
  }

  /** A segment that the network has lost stays lost until the source codes again. */
  lemma LostStaysLost(segment: Vec, pieceSize: nat, states: seq<seq<CodedPiece>>, actions: seq<Action>, i: nat, j: nat)
    requires |segment| > 0 && pieceSize > 0 && i <= j < |states|
    requires IsRun(RlncEncoder(Split(segment, pieceSize), pieceSize), states, actions)
    requires forall q :: i <= q < j ==> !actions[q].Code?
    requires !exists indices :: Recovers(segment, DivCeil(|segment|, pieceSize), states[i], indices)
    ensures !exists indices :: Recovers(segment, DivCeil(|segment|, pieceSize), states[j], indices)
  {
    var e := RlncEncoder(Split(segment, pieceSize), pieceSize);
    RecoverableIffFullRank(segment, pieceSize, states, actions, i);
    RecoverableIffFullRank(segment, pieceSize, states, actions, j);
    RankNeverGrowsOverRun(e, states, actions, i, j);
    RankAtMostDimension(Coefficients(states[i]), e.K());
  }
}
