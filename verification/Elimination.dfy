/** Gauss-Jordan elimination: the invariant and the pivot step shared by the decoder, the rank
    check, the orthogonal vector and the orthogonal piece. */
module Elimination {
  import opened Bytes
  import opened Numbers
  import opened GF256
  import opened Vectors
  import opened Span

  // ---------- The invariant ----------

  /** The first `col` columns of `m` are reduced, with pivots in the columns `pivots`: pivot columns
      are unit columns, a pivot row is zero before its pivot, and the rows past the pivots are zero
      on every processed column. */
  ghost predicate Echelon(m: seq<Vec>, width: nat, col: nat, pivots: seq<nat>) {
    && Uniform(m, width) && |pivots| <= |m| && col <= width
    && (forall j :: 0 <= j < |pivots| ==> pivots[j] < col)
    && (forall i, j :: 0 <= i < j < |pivots| ==> pivots[i] < pivots[j])
    && (forall i, j :: 0 <= i < |m| && 0 <= j < |pivots| ==> m[i][pivots[j]] == if i == j then 1 else 0)
    && (forall j, c :: 0 <= j < |pivots| && 0 <= c < pivots[j] ==> m[j][c] == 0)
    && (forall i, c :: |pivots| <= i < |m| && 0 <= c < col ==> m[i][c] == 0)
  }

  /** A column without a pivot below the pivot rows is left as it is. */
  lemma EchelonSkip(m: seq<Vec>, width: nat, col: nat, pivots: seq<nat>)
    requires Echelon(m, width, col, pivots) && col < width
    requires forall r :: |pivots| <= r < |m| ==> m[r][col] == 0
    ensures Echelon(m, width, col + 1, pivots)
  {}

  /** With a pivot in every row, the remaining columns need no work. */
  lemma EchelonFull(m: seq<Vec>, width: nat, col: nat, pivots: seq<nat>, last: nat)
    requires Echelon(m, width, col, pivots) && |pivots| == |m| && col <= last <= width
    ensures Echelon(m, width, last, pivots)
  {}

  lemma {:induction false} PivotsAreDistinctColumns(pivots: seq<nat>, col: nat)
    requires forall j :: 0 <= j < |pivots| ==> pivots[j] < col
    requires forall i, j :: 0 <= i < j < |pivots| ==> pivots[i] < pivots[j]
    ensures |pivots| <= col
  {
    if |pivots| > 0 {
      PivotsAreDistinctColumns(pivots[..|pivots| - 1], pivots[|pivots| - 1]);
    }
  }

  // ---------- One pivot step ----------

  function SwapRows(m: seq<Vec>, a: nat, b: nat): (r: seq<Vec>)
    requires a < |m| && b < |m|
  {
    m[a := m[b]][b := m[a]]
  }

  predicate IsPivot(m: seq<Vec>, width: nat, rank: nat, col: nat, p: nat) {
    Uniform(m, width) && col < width && rank <= p < |m| && m[p][col] != 0
  }

  function PivotRow(m: seq<Vec>, width: nat, col: nat, p: nat): Vec
    requires Uniform(m, width) && col < width && p < |m| && m[p][col] != 0
  {
    ScaleV(Inv(m[p][col]).value, m[p])
  }

  /** A row with its entry in column `col` cancelled by the pivot row. */
  function Cleared(row: Vec, col: nat, pivot: Vec): (r: Vec)
    requires |row| == |pivot| && col < |row|
    ensures |r| == |row|
  {
    AddV(row, ScaleV(row[col], pivot))
  }

  /** Row `p` is brought to `rank`, scaled to a leading one and subtracted from every other row. */
  function PivotStep(m: seq<Vec>, width: nat, rank: nat, col: nat, p: nat): (r: seq<Vec>)
    requires IsPivot(m, width, rank, col, p)
    ensures |r| == |m| && Uniform(r, width)
  {
    var s := SwapRows(m, rank, p);
    var pivot := PivotRow(m, width, col, p);
    seq(|m|, i requires 0 <= i < |m| =>
      if i == rank then pivot else Cleared(s[i], col, pivot))
  }

  lemma PivotRowLeads(m: seq<Vec>, width: nat, col: nat, p: nat)
    requires Uniform(m, width) && col < width && p < |m| && m[p][col] != 0
    ensures PivotRow(m, width, col, p)[col] == 1
    ensures forall c :: 0 <= c < width && m[p][c] == 0 ==> PivotRow(m, width, col, p)[c] == 0
  {
    InvCorrect(m[p][col]);
    MulComm(Inv(m[p][col]).value, m[p][col]);
    MulZero(Inv(m[p][col]).value);
  }

  /** Entries of the step away from the pivot row. */
  lemma PivotStepEntry(m: seq<Vec>, width: nat, rank: nat, col: nat, p: nat, i: nat, c: nat)
    requires IsPivot(m, width, rank, col, p) && i < |m| && i != rank && c < width
    ensures var s := SwapRows(m, rank, p)[i];
            var pivot := PivotRow(m, width, col, p);
            PivotStep(m, width, rank, col, p)[i][c] == Add(s[c], Mul(s[col], pivot[c]))
  {}

  lemma PivotStepClears(m: seq<Vec>, width: nat, rank: nat, col: nat, p: nat, i: nat)
    requires IsPivot(m, width, rank, col, p) && i < |m| && i != rank
    ensures PivotStep(m, width, rank, col, p)[i][col] == 0
  {
    PivotStepEntry(m, width, rank, col, p, i, col);
    PivotRowLeads(m, width, col, p);
    var x := SwapRows(m, rank, p)[i][col];
    MulOne(x);
    AddSelf(x);
  }

  /** Where the pivot row is zero, the step only swaps. */
  lemma PivotStepKeeps(m: seq<Vec>, width: nat, rank: nat, col: nat, p: nat, i: nat, c: nat)
    requires IsPivot(m, width, rank, col, p) && i < |m| && c < width && m[p][c] == 0
    ensures PivotStep(m, width, rank, col, p)[i][c] == SwapRows(m, rank, p)[i][c]
  {
    PivotRowLeads(m, width, col, p);
    if i != rank {
      PivotStepEntry(m, width, rank, col, p, i, c);
      MulZero(SwapRows(m, rank, p)[i][col]);
      AddZero(SwapRows(m, rank, p)[i][c]);
    }
  }

  lemma PivotStepUnitColumns(m: seq<Vec>, width: nat, col: nat, pivots: seq<nat>, p: nat, i: nat, j: nat)
    requires Echelon(m, width, col, pivots) && IsPivot(m, width, |pivots|, col, p)
    requires i < |m| && j <= |pivots|
    ensures PivotStep(m, width, |pivots|, col, p)[i][(pivots + [col])[j]] == if i == j then 1 else 0
  {
    if j < |pivots| {
      PivotStepKeeps(m, width, |pivots|, col, p, i, pivots[j]);
    } else if i == j {
      PivotRowLeads(m, width, col, p);
    } else {
      PivotStepClears(m, width, |pivots|, col, p, i);
    }
  }

  lemma PivotStepLeadingZeros(m: seq<Vec>, width: nat, col: nat, pivots: seq<nat>, p: nat, i: nat, c: nat)
    requires Echelon(m, width, col, pivots) && IsPivot(m, width, |pivots|, col, p)
    requires i < |m| && c < (if i < |pivots| then pivots[i] else if i == |pivots| then col else col + 1)
    ensures PivotStep(m, width, |pivots|, col, p)[i][c] == 0
  {
    if c < col {
      PivotStepKeeps(m, width, |pivots|, col, p, i, c);
    } else {
      PivotStepClears(m, width, |pivots|, col, p, i);
    }
  }

  lemma PivotStepEchelon(m: seq<Vec>, width: nat, col: nat, pivots: seq<nat>, p: nat)
    requires Echelon(m, width, col, pivots) && IsPivot(m, width, |pivots|, col, p)
    ensures Echelon(PivotStep(m, width, |pivots|, col, p), width, col + 1, pivots + [col])
  {
    var r := PivotStep(m, width, |pivots|, col, p);
    var next := pivots + [col];
    forall i, j | 0 <= i < |m| && 0 <= j < |next| ensures r[i][next[j]] == if i == j then 1 else 0 {
      PivotStepUnitColumns(m, width, col, pivots, p, i, j);
    }
    forall i, c | 0 <= i < |next| && 0 <= c < next[i] ensures r[i][c] == 0 {
      PivotStepLeadingZeros(m, width, col, pivots, p, i, c);
    }
    forall i, c | |next| <= i < |m| && 0 <= c < col + 1 ensures r[i][c] == 0 {
      PivotStepLeadingZeros(m, width, col, pivots, p, i, c);
    }
  }

  /** The step neither loses nor gains anything in the row space. */
  lemma PivotStepSpan(m: seq<Vec>, width: nat, rank: nat, col: nat, p: nat)
    requires IsPivot(m, width, rank, col, p)
    ensures SameSpan(m, PivotStep(m, width, rank, col, p))
  {
    var s := SwapRows(m, rank, p);
    var pivot := PivotRow(m, width, col, p);
    var r := PivotStep(m, width, rank, col, p);
    var inv := Inv(m[p][col]).value;
    MemberInSpan(p, m, width);
    ScaledInSpan(inv, m[p], m);
    MemberInSpan(rank, r, width);
    forall i | 0 <= i < |m| ensures InSpan(r[i], m) && InSpan(s[i], r) {
      MemberInSpan(if i == rank then p else if i == p then rank else i, m, width);
      if i == rank {
        InvCorrect(m[p][col]);
        ScaleVLaws(m[p][col], inv, m[p]);
        ScaledInSpan(m[p][col], pivot, r);
      } else {
        var term := ScaleV(s[i][col], pivot);
        ScaledInSpan(s[i][col], pivot, m);
        SumInSpan(s[i], term, m);
        MemberInSpan(i, r, width);
        ScaledInSpan(s[i][col], pivot, r);
        SumInSpan(r[i], term, r);
        AddVLaws(s[i], term);
      }
    }
    forall i | 0 <= i < |m| ensures InSpan(m[i], r) {
      assert m[i] == s[if i == rank then p else if i == p then rank else i];
    }
  }

  // ---------- What a reduced matrix says about its row space ----------

  lemma TopRowsColumn(m: seq<Vec>, width: nat, col: nat, pivots: seq<nat>, cs: Vec, j: nat)
    requires Echelon(m, width, col, pivots) && |cs| == |pivots| && j < |pivots|
    ensures Comb(cs, m[..|pivots|], width)[pivots[j]] == cs[j]
  {
    assert Col(m[..|pivots|], width, pivots[j]) == Unit(|cs|, j);
    DotUnit(j, cs);
  }

  lemma TopRowsIndependent(m: seq<Vec>, width: nat, col: nat, pivots: seq<nat>)
    requires Echelon(m, width, col, pivots)
    ensures Independent(m[..|pivots|], width)
  {
    var top := m[..|pivots|];
    forall cs: Vec | IsComb(cs, top, Zeros(width)) ensures cs == Zeros(|top|) {
      forall j | 0 <= j < |pivots| ensures cs[j] == 0 {
        TopRowsColumn(m, width, col, pivots, cs, j);
      }
    }
  }

  lemma TopRowsSpan(m: seq<Vec>, width: nat, pivots: seq<nat>)
    requires Echelon(m, width, width, pivots)
    ensures SameSpan(m[..|pivots|], m)
  {
    var top := m[..|pivots|];
    forall i | 0 <= i < |m| ensures InSpan(m[i], top) {
      if i < |pivots| {
        MemberInSpan(i, top, width);
      } else {
        assert m[i] == Zeros(width);
        ZerosInSpan(top, width);
      }
    }
    SpansMembers(top, m, width);
  }

  /** The number of pivots of a fully reduced matrix is the rank of the matrix it came from. */
  lemma PivotCountIsRank(m0: seq<Vec>, m: seq<Vec>, width: nat, pivots: seq<nat>)
    requires Uniform(m0, width) && SameSpan(m0, m) && Echelon(m, width, width, pivots)
    ensures |pivots| == Rank(m0)
  {
    TopRowsIndependent(m, width, width, pivots);
    TopRowsSpan(m, width, pivots);
    SameSpanTransitive(m[..|pivots|], m, m0, width);
    RankUnique(m[..|pivots|], m0, width);
  }

  /** `v` is zero before column `c` and not at `c`. */
  ghost predicate LeadsAt(v: Vec, c: nat) {
    c < |v| && v[c] != 0 && forall j :: 0 <= j < c ==> v[j] == 0
  }

  /** Some vector of the row space of `vs` has its first non-zero entry in column `c`. */
  ghost predicate LeadingColumn(vs: seq<Vec>, n: nat, c: nat) {
    exists v: Vec :: |v| == n && InSpan(v, vs) && LeadsAt(v, c)
  }

  /** Pivots are a property of the row space alone, whatever rows the elimination picked. */
  lemma PivotIffLeading(m0: seq<Vec>, m: seq<Vec>, width: nat, pivots: seq<nat>, c: nat)
    requires Uniform(m0, width) && SameSpan(m0, m) && Echelon(m, width, width, pivots)
    ensures c in pivots <==> LeadingColumn(m0, width, c)
  {
    if c in pivots {
      var j :| 0 <= j < |pivots| && pivots[j] == c;
      assert LeadsAt(m[j], c);
    }
    if LeadingColumn(m0, width, c) {
      var v: Vec :| |v| == width && InSpan(v, m0) && LeadsAt(v, c);
      SpanTransitive(v, m0, m);
      TopRowsSpan(m, width, pivots);
      var top := m[..|pivots|];
      SpanTransitive(v, m, top);
      LeadIsPivot(m, width, pivots, v, Coordinates(v, top), c);
    }
  }

  lemma LeadIsPivot(m: seq<Vec>, width: nat, pivots: seq<nat>, v: Vec, cs: Vec, c: nat)
    requires Echelon(m, width, width, pivots) && |v| == width
    requires IsComb(cs, m[..|pivots|], v) && LeadsAt(v, c)
    ensures c in pivots
  {
    var top := m[..|pivots|];
    forall j | 0 <= j < |pivots| ensures v[pivots[j]] == cs[j] {
      TopRowsColumn(m, width, width, pivots, cs, j);
    }
    if c !in pivots {
      // Pivots before c have coefficient zero; rows with later pivots are zero at c.
      forall j | 0 <= j < |pivots| ensures Mul(cs[j], Col(top, width, c)[j]) == 0 {
        MulZero(Col(top, width, c)[j]);
        MulZero(cs[j]);
      }
      DotOfZeroTerms(cs, Col(top, width, c));
    }
  }

  lemma {:induction false} DotOfZeroTerms(a: Vec, b: Vec)
    requires |a| == |b| && forall j :: 0 <= j < |a| ==> Mul(a[j], b[j]) == 0
    ensures Dot(a, b) == 0
  {
    if |a| > 0 {
      var n := |a| - 1;
      DotOfZeroTerms(a[..n], b[..n]);
      AddZero(0);
    }
  }

  // ---------- Column prefixes ----------

  lemma PrefixInSpan(v: Vec, vs: seq<Vec>, c: nat)
    requires InSpan(v, vs) && c <= |v|
    ensures Uniform(vs, |v|) && InSpan(v[..c], Prefixes(vs, c))
  {
    var cs := Coordinates(v, vs);
    forall j | 0 <= j < c ensures Col(Prefixes(vs, c), c, j) == Col(vs, |v|, j) {}
    assert IsComb(cs, Prefixes(vs, c), v[..c]);
  }

  lemma PrefixesSpan(us: seq<Vec>, vs: seq<Vec>, width: nat, c: nat)
    requires Uniform(us, width) && Uniform(vs, width) && c <= width && Spans(us, vs)
    ensures Spans(Prefixes(us, c), Prefixes(vs, c))
  {
    forall i | 0 <= i < |vs| ensures InSpan(Prefixes(vs, c)[i], Prefixes(us, c)) {
      PrefixInSpan(vs[i], us, c);
    }
  }

  /** At every column, the pivots so far count the rank of the columns processed so far. */
  lemma PivotCountIsPrefixRank(m0: seq<Vec>, m: seq<Vec>, width: nat, col: nat, pivots: seq<nat>)
    requires Uniform(m0, width) && Echelon(m, width, col, pivots) && SameSpan(m0, m)
    ensures Rank(Prefixes(m0, col)) == |pivots|
  {
    PrefixesSpan(m0, m, width, col);
    PrefixesSpan(m, m0, width, col);
    PivotCountIsRank(Prefixes(m0, col), Prefixes(m, col), col, pivots);
  }

  /** A family that spans its whole space spans every prefix of the coordinates. */
  lemma FullRankPrefix(vs: seq<Vec>, n: nat, c: nat)
    requires Uniform(vs, n) && c <= n && Rank(vs) == n
    ensures Rank(Prefixes(vs, c)) == c
  {
    FullRankIffSpansAll(vs, n);
    forall v: Vec | |v| == c ensures InSpan(v, Prefixes(vs, c)) {
      var whole := v + Zeros(n - c);
      PrefixInSpan(whole, vs, c);
      assert whole[..c] == v;
    }
    FullRankIffSpansAll(Prefixes(vs, c), c);
  }

  // ---------- The loops of one pivot step ----------

  /** The first row in `from..to` with a non-zero entry in column `col`. */
  method FindPivot(m: seq<Vec>, col: nat, from: nat, to: nat) returns (p: Option<nat>)
    requires from <= to <= |m| && forall r :: 0 <= r < |m| ==> col < |m[r]|
    ensures p.None? ==> forall r :: from <= r < to ==> m[r][col] == 0
    ensures p.Some? ==> from <= p.value < to && m[p.value][col] != 0
    ensures p.Some? ==> forall r :: from <= r < p.value ==> m[r][col] == 0
  {
    for r := from to to
      invariant forall q :: from <= q < r ==> m[q][col] == 0
    {
      if m[r][col] != 0 {
        return Some(r);
      }
    }
    return None;
  }

  /** Multiplies every entry of a row in place. */
  method ScaleRow(row: Vec, c: byte) returns (r: Vec)
    ensures r == ScaleV(c, row)
  {
    r := row;
    for j := 0 to |row|
      invariant |r| == |row|
      invariant forall q :: 0 <= q < j ==> r[q] == Mul(c, row[q])
      invariant forall q :: j <= q < |row| ==> r[q] == row[q]
    {
      MulComm(r[j], c);
      r := r[j := Mul(r[j], c)];
    }
  }

  /** Adds `factor` times `other` to a row in place, up to the end of the shorter one. */
  method AddZipped(row: Vec, factor: byte, other: Vec) returns (r: Vec)
    ensures r == AddV(row, ScaleV(factor, Padded(other, 0, |row|)))
  {
    r := row;
    MulZero(factor);
    for j := 0 to Least(|row|, |other|)
      invariant |r| == |row|
      invariant forall q :: 0 <= q < j ==> r[q] == Add(row[q], Mul(factor, other[q]))
      invariant forall q :: j <= q < |row| ==> r[q] == row[q]
    {
      r := r[j := Add(r[j], Mul(factor, other[j]))];
    }
    forall q | |other| <= q < |row| ensures Add(row[q], 0) == row[q] {
      AddZero(row[q]);
    }
  }

  // Rows may be longer than the `width` columns that the elimination looks at: the loops carry the rest
  // along, and what they do to the first `width` columns is the elimination of these columns alone.

  /** One row of the elimination loop; a zero factor leaves the row alone. */
  method ClearRow(row: Vec, col: nat, pivot: Vec, ghost width: nat) returns (r: Vec)
    requires col < width <= |row| && width <= |pivot|
    ensures |r| == |row| && r[..width] == Cleared(row[..width], col, pivot[..width])
  {
    var factor := row[col];
    if factor == 0 {
      ScaleVLaws(0, 0, pivot[..width]);
      AddVLaws(row[..width], pivot[..width]);
      return row;
    }
    r := AddZipped(row, factor, pivot);
    forall q | 0 <= q < width ensures r[q] == Add(row[q], Mul(factor, pivot[q])) {}
  }

  /** Swap, scale and eliminate, as the three solvers over one matrix do it. */
  method PivotColumn(m: seq<Vec>, ghost width: nat, rank: nat, col: nat, p: nat) returns (matrix: seq<Vec>)
    requires AtLeast(m, width) && IsPivot(Prefixes(m, width), width, rank, col, p)
    ensures AtLeast(matrix, width) && (Uniform(m, width) ==> Uniform(matrix, width))
    ensures Prefixes(matrix, width) == PivotStep(Prefixes(m, width), width, rank, col, p)
  {
    matrix := m[rank := m[p]][p := m[rank]];
    ghost var s := matrix;
    InvCorrect(m[p][col]);
    var inv := Inv(matrix[rank][col]).value;
    var pivot := ScaleRow(matrix[rank], inv);
    matrix := matrix[rank := pivot];
    for row := 0 to |m|
      invariant |matrix| == |m| && matrix[rank] == pivot
      invariant forall i :: 0 <= i < |m| ==> |matrix[i]| == |s[i]|
      invariant forall i :: 0 <= i < row && i != rank ==>
        matrix[i][..width] == Cleared(s[i][..width], col, pivot[..width])
      invariant forall i :: row <= i < |m| && i != rank ==> matrix[i] == s[i]
    {
      if row == rank {
        continue;
      }
      var cleared := ClearRow(matrix[row], col, pivot, width);
      matrix := matrix[row := cleared];
    }
    PivotOnPrefixes(m, matrix, width, rank, col, p);
  }

  lemma PivotOnPrefixes(m: seq<Vec>, matrix: seq<Vec>, width: nat, rank: nat, col: nat, p: nat)
    requires AtLeast(m, width) && IsPivot(Prefixes(m, width), width, rank, col, p)
    requires |matrix| == |m| && AtLeast(matrix, width)
    requires Inv(m[p][col]).Some? && matrix[rank] == ScaleV(Inv(m[p][col]).value, m[p])
    requires forall i :: 0 <= i < |m| && i != rank ==>
      matrix[i][..width] == Cleared(SwapRows(m, rank, p)[i][..width], col, matrix[rank][..width])
    ensures Prefixes(matrix, width) == PivotStep(Prefixes(m, width), width, rank, col, p)
  {
    var cut, r := Prefixes(m, width), PivotStep(Prefixes(m, width), width, rank, col, p);
    assert r[rank] == matrix[rank][..width];
    forall i | 0 <= i < |m| && i != rank ensures r[i] == matrix[i][..width] {
      assert SwapRows(cut, rank, p)[i] == SwapRows(m, rank, p)[i][..width];
    }
  }

  // ---------- One column of the elimination ----------

  /** `m` is what is left of `m0` after `col` columns: reduced so far, with the same row space. */
  ghost predicate Reduces(m0: seq<Vec>, m: seq<Vec>, width: nat, col: nat, pivots: seq<nat>) {
    |m| == |m0| && Uniform(m0, width) && Echelon(m, width, col, pivots) && SameSpan(m0, m)
  }

  /** Before the first column, the matrix reduces itself. */
  lemma ReducesStart(m: seq<Vec>, width: nat)
    requires Uniform(m, width)
    ensures Reduces(m, m, width, 0, [])
  {
    SpansSelf(m, width);
  }

  lemma PivotStepReduces(m0: seq<Vec>, m: seq<Vec>, width: nat, col: nat, pivots: seq<nat>, p: nat)
    requires Reduces(m0, m, width, col, pivots) && IsPivot(m, width, |pivots|, col, p)
    ensures Reduces(m0, PivotStep(m, width, |pivots|, col, p), width, col + 1, pivots + [col])
  {
    PivotStepEchelon(m, width, col, pivots, p);
    PivotStepSpan(m, width, |pivots|, col, p);
    SameSpanTransitive(m0, m, PivotStep(m, width, |pivots|, col, p), width);
  }

  /** The loop body of the three solvers: `found` tells whether the column got a pivot. */
  method ReduceOneColumn(ghost m0: seq<Vec>, m: seq<Vec>, ghost width: nat, rank: nat, col: nat, ghost pivots: seq<nat>)
    returns (matrix: seq<Vec>, found: bool)
    requires AtLeast(m, width) && Reduces(m0, Prefixes(m, width), width, col, pivots)
    requires rank == |pivots| && col < width
    ensures AtLeast(matrix, width) && (Uniform(m, width) ==> Uniform(matrix, width))
    ensures Reduces(m0, Prefixes(matrix, width), width, col + 1, if found then pivots + [col] else pivots)
  {
    ghost var cut := Prefixes(m, width);
    var pivot := FindPivot(m, col, rank, |m|);
    if pivot.None? {
      EchelonSkip(cut, width, col, pivots);
      return m, false;
    }
    matrix := PivotColumn(m, width, rank, col, pivot.value);
    PivotStepReduces(m0, cut, width, col, pivots, pivot.value);
    return matrix, true;
  }

  /** Once every one of the `width` columns has a pivot, the last column has been reached. */
  lemma RankReachesWidth(m0: seq<Vec>, m: seq<Vec>, width: nat, col: nat, pivots: seq<nat>)
    requires Reduces(m0, m, width, col, pivots) && |pivots| == width
    ensures col == width && Reduces(m0, m, width, width, pivots)
  {
    PivotsAreDistinctColumns(pivots, col);
  }

  /** Every family has a reduced form with the same row space. */
  lemma ReducedForm(vs: seq<Vec>, n: nat) returns (m: seq<Vec>, pivots: seq<nat>)
    requires Uniform(vs, n)
    ensures Reduces(vs, m, n, n, pivots)
  {
    m, pivots := vs, [];
    ReducesStart(m, n);
    for col := 0 to n
      invariant Reduces(vs, m, n, col, pivots)
    {
      if p :| |pivots| <= p < |m| && m[p][col] != 0 {
        PivotStepReduces(vs, m, n, col, pivots, p);
        m, pivots := PivotStep(m, n, |pivots|, col, p), pivots + [col];
      } else {
        EchelonSkip(m, n, col, pivots);
      }
    }
  }
}
