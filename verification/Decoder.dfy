/** The RLNC decoder: Gauss-Jordan elimination on the coefficients, mirrored on the data. */
module Decoder {
  import opened Bytes
  import opened GF256
  import opened Vectors
  import opened Span
  import opened Elimination
  import opened Pieces
  import opened Encoder

  // ---------- What decoding means ----------

  /** `d` is a source of `k` pieces from which all the given pieces could have been coded. */
  ghost predicate Solves(d: seq<Vec>, pieces: seq<CodedPiece>, k: nat, size: nat) {
    |d| == k && Uniform(d, size) && AllConsistent(pieces, d)
  }

  lemma IndependentSpansAll(vs: seq<Vec>, n: nat)
    requires Uniform(vs, n) && |vs| == n && Independent(vs, n)
    ensures forall v: Vec :: |v| == n ==> InSpan(v, vs)
  {
    FullRankIffIndependent(vs, n);
    FullRankIffSpansAll(vs, n);
  }

  /** The rows that combine the coefficient vectors to the standard basis. */
  ghost function Inverse(c: seq<Vec>, k: nat): (r: seq<Vec>)
    requires |c| == k && Uniform(c, k) && Independent(c, k)
    ensures |r| == k && Uniform(r, k) && Combs(r, c, k) == Identity(k)
  {
    IndependentSpansAll(c, k);
    var r := seq(k, j requires 0 <= j < k => Coordinates(Unit(k, j), c));
    assert Combs(r, c, k) == Identity(k);
    r
  }

  /** The source obtained by inverting the coefficient matrix. */
  ghost function Solution(pieces: seq<CodedPiece>, k: nat, size: nat): (d: seq<Vec>)
    requires |pieces| == k && Shaped(pieces, k, size) && Independent(Coefficients(pieces), k)
    ensures |d| == k && Uniform(d, size)
  {
    Combs(Inverse(Coefficients(pieces), k), Datas(pieces), size)
  }

  lemma CombinationsUnique(a: Vec, b: Vec, vs: seq<Vec>, n: nat)
    requires Uniform(vs, n) && Independent(vs, n) && |a| == |b| == |vs|
    requires Comb(a, vs, n) == Comb(b, vs, n)
    ensures a == b
  {
    CombAdd(a, b, vs, n);
    AddVEqualsZero(Comb(a, vs, n), Comb(b, vs, n));
    assert IsComb(AddV(a, b), vs, Zeros(n));
    AddVEqualsZero(a, b);
  }

  /** A left inverse of independent rows is also a right inverse. */
  lemma InverseOnTheRight(c: seq<Vec>, k: nat, i: nat)
    requires |c| == k && Uniform(c, k) && Independent(c, k) && i < k
    ensures Comb(c[i], Inverse(c, k), k) == Unit(k, i)
  {
    CombCombs(c[i], Inverse(c, k), c, k);
    CombIdentity(c[i]);
    CombUnit(i, c, k);
    CombinationsUnique(Comb(c[i], Inverse(c, k), k), Unit(k, i), c, k);
  }

  lemma SolutionSolves(pieces: seq<CodedPiece>, k: nat, size: nat)
    requires |pieces| == k && Shaped(pieces, k, size) && Independent(Coefficients(pieces), k)
    ensures Solves(Solution(pieces, k, size), pieces, k, size)
  {
    var c, data := Coefficients(pieces), Datas(pieces);
    forall i | 0 <= i < k ensures Consistent(pieces[i], Solution(pieces, k, size)) {
      InverseOnTheRight(c, k, i);
      CombCombs(c[i], Inverse(c, k), data, size);
      CombUnit(i, data, size);
    }
  }

  lemma DatasAreCombined(d: seq<Vec>, pieces: seq<CodedPiece>, k: nat, size: nat)
    requires |pieces| == k && Shaped(pieces, k, size) && Solves(d, pieces, k, size)
    ensures Datas(pieces) == Combs(Coefficients(pieces), d, size)
  {
    forall i | 0 <= i < k ensures Datas(pieces)[i] == Combs(Coefficients(pieces), d, size)[i] {
      assert Consistent(pieces[i], d);
    }
  }

  /** Independent coefficients leave only one possible source. */
  lemma SolutionUnique(d: seq<Vec>, pieces: seq<CodedPiece>, k: nat, size: nat)
    requires |pieces| == k && Shaped(pieces, k, size) && Independent(Coefficients(pieces), k)
    requires Solves(d, pieces, k, size)
    ensures d == Solution(pieces, k, size)
  {
    var inverse := Inverse(Coefficients(pieces), k);
    DatasAreCombined(d, pieces, k, size);
    forall j | 0 <= j < k ensures d[j] == Comb(inverse[j], Datas(pieces), size) {
      SolutionRow(d, Coefficients(pieces), inverse, k, size, j);
    }
  }

  lemma SolutionRow(d: seq<Vec>, c: seq<Vec>, inverse: seq<Vec>, k: nat, size: nat, j: nat)
    requires |d| == |c| == |inverse| == k && Uniform(d, size) && Uniform(c, k) && Uniform(inverse, k) && j < k
    requires Combs(inverse, c, k) == Identity(k)
    ensures Comb(inverse[j], Combs(c, d, size), size) == d[j]
  {
    CombCombs(inverse[j], c, d, size);
    assert Comb(inverse[j], c, k) == Combs(inverse, c, k)[j] == Unit(k, j);
    CombUnit(j, d, size);
  }

  /** Only the first `k` pieces are looked at. */
  predicate Decodable(k: nat, pieces: seq<CodedPiece>) {
    |pieces| >= k ==> Shaped(pieces[..k], k, DataSize(pieces[..k]))
  }

  /** The meaning of decoding: too few pieces, dependent coefficients, or the one source. */
  ghost function DecodeResult(k: nat, originalSize: nat, pieces: seq<CodedPiece>): Result<Vec>
    requires Decodable(k, pieces)
  {
    if |pieces| < k then Err(InsufficientPieces(|pieces|, k))
    else if !Independent(Coefficients(pieces[..k]), k) then Err(LinearlyDependent)
    else Ok(Truncate(Flatten(Solution(pieces[..k], k, DataSize(pieces[..k]))), originalSize))
  }

  /** Soundness: whatever source the pieces came from, a successful decode returns its bytes. */
  lemma DecodeSound(k: nat, originalSize: nat, pieces: seq<CodedPiece>, source: seq<Vec>)
    requires Decodable(k, pieces) && DecodeResult(k, originalSize, pieces).Ok?
    requires Solves(source, pieces[..k], k, DataSize(pieces[..k]))
    ensures DecodeResult(k, originalSize, pieces) == Ok(Truncate(Flatten(source), originalSize))
  {
    SolutionUnique(source, pieces[..k], k, DataSize(pieces[..k]));
  }

  /** Completeness: with enough pieces, decoding succeeds exactly at full rank. */
  lemma DecodeComplete(k: nat, originalSize: nat, pieces: seq<CodedPiece>)
    requires Decodable(k, pieces) && |pieces| >= k
    ensures DecodeResult(k, originalSize, pieces).Ok? <==> Rank(Coefficients(pieces[..k])) == k
    ensures DecodeResult(k, originalSize, pieces).Err? ==>
      DecodeResult(k, originalSize, pieces) == Err(LinearlyDependent)
    ensures DecodeResult(k, originalSize, pieces).Ok? ==>
      exists source :: Solves(source, pieces[..k], k, DataSize(pieces[..k]))
        && DecodeResult(k, originalSize, pieces) == Ok(Truncate(Flatten(source), originalSize))
  {
    FullRankIffIndependent(Coefficients(pieces[..k]), k);
    if DecodeResult(k, originalSize, pieces).Ok? {
      SolutionSolves(pieces[..k], k, DataSize(pieces[..k]));
    }
  }

  // ---------- The augmented matrix ----------

  /** Row by row, the coefficients followed by the data. */
  ghost function Augment(coeffs: seq<Vec>, data: seq<Vec>, k: nat, size: nat): (m: seq<Vec>)
    requires |coeffs| == |data| && Uniform(coeffs, k) && Uniform(data, size)
    ensures |m| == |coeffs| && Uniform(m, k + size)
  {
    seq(|coeffs|, i requires 0 <= i < |coeffs| => coeffs[i] + data[i])
  }

  function Range(n: nat): seq<nat> {
    seq(n, i requires 0 <= i => i)
  }

  lemma ClearedConcat(a: Vec, b: Vec, col: nat, p: Vec, q: Vec)
    requires |a| == |p| && |b| == |q| && col < |a|
    ensures Cleared(a + b, col, p + q) == Cleared(a, col, p) + AddV(b, ScaleV(a[col], q))
  {}

  lemma ScaleConcat(c: byte, a: Vec, b: Vec)
    ensures ScaleV(c, a + b) == ScaleV(c, a) + ScaleV(c, b)
  {}

  lemma AugmentPrefix(coeffs: seq<Vec>, data: seq<Vec>, k: nat, size: nat, c: nat)
    requires |coeffs| == |data| && Uniform(coeffs, k) && Uniform(data, size) && c <= k
    ensures Prefixes(Augment(coeffs, data, k, size), c) == Prefixes(coeffs, c)
  {
    forall i | 0 <= i < |coeffs| ensures (coeffs[i] + data[i])[..c] == coeffs[i][..c] {}
  }

  lemma SplitCombination(cs: Vec, coeffs: seq<Vec>, data: seq<Vec>, k: nat, size: nat)
    requires |cs| == |coeffs| == |data| && Uniform(coeffs, k) && Uniform(data, size)
    ensures Comb(cs, Augment(coeffs, data, k, size), k + size) == Comb(cs, coeffs, k) + Comb(cs, data, size)
  {
    var m := Augment(coeffs, data, k, size);
    var whole := Comb(cs, m, k + size);
    forall j | 0 <= j < k ensures whole[j] == Comb(cs, coeffs, k)[j] {
      assert Col(m, k + size, j) == Col(coeffs, k, j);
    }
    forall j | 0 <= j < size ensures whole[k + j] == Comb(cs, data, size)[j] {
      assert Col(m, k + size, k + j) == Col(data, size, j);
    }
  }

  /** The loop invariant: the augmented matrix is reduced up to `col` and its row space is unchanged. */
  ghost predicate Reducing(m0: seq<Vec>, coeffs: seq<Vec>, data: seq<Vec>, k: nat, size: nat, col: nat) {
    && |coeffs| == |data| == k && Uniform(coeffs, k) && Uniform(data, size) && Uniform(m0, k + size)
    && Echelon(Augment(coeffs, data, k, size), k + size, col, Range(col))
    && SameSpan(m0, Augment(coeffs, data, k, size))
  }

  lemma ReducingStep(m0: seq<Vec>, coeffs: seq<Vec>, data: seq<Vec>, k: nat, size: nat, col: nat, p: nat,
                     coeffs': seq<Vec>, data': seq<Vec>)
    requires Reducing(m0, coeffs, data, k, size, col) && col <= p < k && coeffs[p][col] != 0
    requires |coeffs'| == |data'| == k && Uniform(coeffs', k) && Uniform(data', size)
    requires IsPivot(Augment(coeffs, data, k, size), k + size, col, col, p)
    requires Augment(coeffs', data', k, size) == PivotStep(Augment(coeffs, data, k, size), k + size, col, col, p)
    ensures Reducing(m0, coeffs', data', k, size, col + 1)
  {
    PivotStepSquare(m0, Augment(coeffs, data, k, size), k + size, col, p);
  }

  /** A pivot step where every column so far had its pivot in its own row. */
  lemma PivotStepSquare(m0: seq<Vec>, m: seq<Vec>, width: nat, col: nat, p: nat)
    requires Uniform(m0, width) && Echelon(m, width, col, Range(col)) && SameSpan(m0, m)
    requires IsPivot(m, width, col, col, p)
    ensures Echelon(PivotStep(m, width, col, col, p), width, col + 1, Range(col + 1))
    ensures SameSpan(m0, PivotStep(m, width, col, col, p))
  {
    PivotStepEchelon(m, width, col, Range(col), p);
    assert Range(col) + [col] == Range(col + 1);
    PivotStepSpan(m, width, col, col, p);
    SameSpanTransitive(m0, m, PivotStep(m, width, col, col, p), width);
  }

  /** A column without a pivot means the coefficients cannot have full rank. */
  lemma MissingPivot(c0: seq<Vec>, d0: seq<Vec>, coeffs: seq<Vec>, data: seq<Vec>, k: nat, size: nat, col: nat)
    requires |c0| == |d0| == k && col < k && Uniform(c0, k) && Uniform(d0, size)
    requires Reducing(Augment(c0, d0, k, size), coeffs, data, k, size, col)
    requires forall r :: col <= r < k ==> coeffs[r][col] == 0
    ensures !Independent(c0, k)
  {
    var m0, m := Augment(c0, d0, k, size), Augment(coeffs, data, k, size);
    forall r | col <= r < k ensures m[r][col] == 0 {}
    EchelonSkip(m, k + size, col, Range(col));
    PivotCountIsPrefixRank(m0, m, k + size, col + 1, Range(col));
    AugmentPrefix(c0, d0, k, size, col + 1);
    LowPrefixRank(c0, k, col + 1);
  }

  lemma LowPrefixRank(c0: seq<Vec>, k: nat, c: nat)
    requires |c0| == k && Uniform(c0, k) && c <= k && Rank(Prefixes(c0, c)) < c
    ensures !Independent(c0, k)
  {
    FullRankIffIndependent(c0, k);
    if Rank(c0) == k {
      FullRankPrefix(c0, k, c);
    }
  }

  lemma ReducedToIdentity(coeffs: seq<Vec>, data: seq<Vec>, k: nat, size: nat)
    requires |coeffs| == |data| == k && Uniform(coeffs, k) && Uniform(data, size)
    requires Echelon(Augment(coeffs, data, k, size), k + size, k, Range(k))
    ensures coeffs == Identity(k)
  {
    var m := Augment(coeffs, data, k, size);
    forall i | 0 <= i < k ensures coeffs[i] == Unit(k, i) {
      forall j | 0 <= j < k ensures coeffs[i][j] == if i == j then 1 else 0 {
        assert m[i][Range(k)[j]] == coeffs[i][j];
      }
    }
  }

  /** A pivot in every column leaves the source in the data rows. */
  lemma AllPivots(pieces: seq<CodedPiece>, coeffs: seq<Vec>, data: seq<Vec>, k: nat, size: nat)
    requires |pieces| == k && Shaped(pieces, k, size)
    requires Reducing(Augment(Coefficients(pieces), Datas(pieces), k, size), coeffs, data, k, size, k)
    ensures Independent(Coefficients(pieces), k)
    ensures data == Solution(pieces, k, size)
  {
    var c0, d0 := Coefficients(pieces), Datas(pieces);
    var m0, m := Augment(c0, d0, k, size), Augment(coeffs, data, k, size);
    PivotCountIsPrefixRank(m0, m, k + size, k, Range(k));
    AugmentPrefix(c0, d0, k, size, k);
    assert Prefixes(c0, k) == c0;
    FullRankIffIndependent(c0, k);
    ReducedToIdentity(coeffs, data, k, size);
    forall i | 0 <= i < k ensures Consistent(pieces[i], data) {
      assert m0[i] == pieces[i].coefficients + pieces[i].data;
      RowOverIdentity(pieces[i], data, k, size);
    }
    SolutionUnique(data, pieces, k, size);
  }

  /** Over the reduced rows, the coordinates of a row are its own coefficients. */
  lemma RowOverIdentity(p: CodedPiece, data: seq<Vec>, k: nat, size: nat)
    requires |data| == |p.coefficients| == k && Uniform(data, size) && |p.data| == size
    requires InSpan(p.coefficients + p.data, Augment(Identity(k), data, k, size))
    ensures Consistent(p, data)
  {
    var row := p.coefficients + p.data;
    var cs := Coordinates(row, Augment(Identity(k), data, k, size));
    SplitCombination(cs, Identity(k), data, k, size);
    CombIdentity(cs);
    assert row[..k] == p.coefficients && row[k..] == p.data;
  }

  // ---------- The decoder's loops ----------

  method ScaleRowByTable(row: Vec, table: seq<byte>, ghost c: byte) returns (r: Vec)
    requires IsMulTable(table, c)
    ensures r == ScaleV(c, row)
  {
    r := row;
    for j := 0 to |row|
      invariant |r| == |row|
      invariant forall q :: 0 <= q < j ==> r[q] == Mul(c, row[q])
      invariant forall q :: j <= q < |row| ==> r[q] == row[q]
    {
      r := r[j := Lookup(table, r[j], c)];
    }
  }

  method AddRowByTable(row: Vec, pivot: Vec, table: seq<byte>, ghost factor: byte) returns (r: Vec)
    requires |row| == |pivot| && IsMulTable(table, factor)
    ensures r == AddV(row, ScaleV(factor, pivot))
  {
    r := row;
    for j := 0 to |row|
      invariant |r| == |row|
      invariant forall q :: 0 <= q < j ==> r[q] == Add(row[q], Mul(factor, pivot[q]))
      invariant forall q :: j <= q < |row| ==> r[q] == row[q]
    {
      r := r[j := Add(r[j], Lookup(table, pivot[j], factor))];
    }
  }

  /** One row of the elimination loop, in the coefficients and in step in the data. */
  method EliminateRow(c: Vec, d: Vec, pivotCoeffs: Vec, pivotData: Vec, col: nat) returns (coeffs: Vec, data: Vec)
    requires |c| == |pivotCoeffs| && |d| == |pivotData| && col < |c|
    ensures coeffs == Cleared(c, col, pivotCoeffs)
    ensures data == AddV(d, ScaleV(c[col], pivotData))
  {
    var factor := c[col];
    if factor == 0 {
      ZeroFactor(c, pivotCoeffs);
      ZeroFactor(d, pivotData);
      return c, d;
    }
    var table := MulTable(factor);
    coeffs := AddRowByTable(c, pivotCoeffs, table, factor);
    data := AddRowByTable(d, pivotData, table, factor);
  }

  /** Clears column `col` of every other row. */
  method EliminateColumn(c: seq<Vec>, d: seq<Vec>, k: nat, ghost size: nat, col: nat)
    returns (coeffs: seq<Vec>, data: seq<Vec>)
    requires |c| == |d| == k && Uniform(c, k) && Uniform(d, size) && col < k
    ensures |coeffs| == |data| == k && Uniform(coeffs, k) && Uniform(data, size)
    ensures coeffs[col] == c[col] && data[col] == d[col]
    ensures forall i :: 0 <= i < k && i != col ==> coeffs[i] == Cleared(c[i], col, c[col])
    ensures forall i :: 0 <= i < k && i != col ==> data[i] == AddV(d[i], ScaleV(c[i][col], d[col]))
  {
    coeffs, data := c, d;
    for row := 0 to k
      invariant |coeffs| == |data| == k && coeffs[col] == c[col] && data[col] == d[col]
      invariant forall i :: 0 <= i < row && i != col ==> coeffs[i] == Cleared(c[i], col, c[col])
      invariant forall i :: 0 <= i < row && i != col ==> data[i] == AddV(d[i], ScaleV(c[i][col], d[col]))
      invariant forall i :: row <= i < k ==> coeffs[i] == c[i] && data[i] == d[i]
    {
      if row == col {
        continue;
      }
      var clearedCoeffs, clearedData := EliminateRow(coeffs[row], data[row], coeffs[col], data[col], col);
      coeffs := coeffs[row := clearedCoeffs];
      data := data[row := clearedData];
    }
  }

  lemma ZeroFactor(row: Vec, pivot: Vec)
    requires |row| == |pivot|
    ensures AddV(row, ScaleV(0, pivot)) == row
  {
    ScaleVLaws(0, 0, pivot);
    AddVLaws(row, pivot);
  }

  /** One column of the decoder is one pivot step on the augmented matrix. */
  method ReduceColumn(c: seq<Vec>, d: seq<Vec>, k: nat, ghost size: nat, col: nat, pivotRow: nat)
    returns (coeffs: seq<Vec>, data: seq<Vec>)
    requires |c| == |d| == k && Uniform(c, k) && Uniform(d, size)
    requires col <= pivotRow < k && c[pivotRow][col] != 0
    ensures |coeffs| == |data| == k && Uniform(coeffs, k) && Uniform(data, size)
    ensures IsPivot(Augment(c, d, k, size), k + size, col, col, pivotRow)
    ensures Augment(coeffs, data, k, size) == PivotStep(Augment(c, d, k, size), k + size, col, col, pivotRow)
  {
    coeffs, data := c, d;
    if pivotRow != col {
      coeffs := coeffs[col := c[pivotRow]][pivotRow := c[col]];
      data := data[col := d[pivotRow]][pivotRow := d[col]];
    }
    ghost var sc, sd := coeffs, data;
    // The pivot is not zero, so it has an inverse and the "zero pivot" error cannot arise.
    InvCorrect(coeffs[col][col]);
    var inv := Inv(coeffs[col][col]).value;
    var invTable := MulTable(inv);
    var scaledCoeffs := ScaleRowByTable(coeffs[col], invTable, inv);
    var scaledData := ScaleRowByTable(data[col], invTable, inv);
    coeffs, data := EliminateColumn(coeffs[col := scaledCoeffs], data[col := scaledData], k, size, col);
    StepInStep(c, d, sc, sd, coeffs, data, k, size, col, pivotRow);
  }

  lemma StepInStep(c: seq<Vec>, d: seq<Vec>, sc: seq<Vec>, sd: seq<Vec>, coeffs: seq<Vec>, data: seq<Vec>,
                   k: nat, size: nat, col: nat, p: nat)
    requires |c| == |d| == |coeffs| == |data| == k && col <= p < k
    requires Uniform(c, k) && Uniform(d, size) && Uniform(coeffs, k) && Uniform(data, size) && c[p][col] != 0
    requires sc == SwapRows(c, col, p) && sd == SwapRows(d, col, p)
    requires Inv(c[p][col]).Some? && var inv := Inv(c[p][col]).value;
      && coeffs[col] == ScaleV(inv, c[p]) && data[col] == ScaleV(inv, d[p])
      && (forall i :: 0 <= i < k && i != col ==> coeffs[i] == Cleared(sc[i], col, coeffs[col]))
      && (forall i :: 0 <= i < k && i != col ==> data[i] == AddV(sd[i], ScaleV(sc[i][col], data[col])))
    ensures IsPivot(Augment(c, d, k, size), k + size, col, col, p)
    ensures Augment(coeffs, data, k, size) == PivotStep(Augment(c, d, k, size), k + size, col, col, p)
  {
    var m := Augment(c, d, k, size);
    var r := PivotStep(m, k + size, col, col, p);
    var inv := Inv(c[p][col]).value;
    ScaleConcat(inv, c[p], d[p]);
    assert r[col] == coeffs[col] + data[col];
    forall i | 0 <= i < k && i != col ensures r[i] == coeffs[i] + data[i] {
      assert SwapRows(m, col, p)[i] == sc[i] + sd[i];
      ClearedConcat(sc[i], sd[i], col, coeffs[col], data[col]);
    }
  }

  /** The elimination loop; `ok` is false when a column has no pivot. */
  method EliminateAll(c0: seq<Vec>, d0: seq<Vec>, k: nat, ghost size: nat)
    returns (ok: bool, coeffs: seq<Vec>, data: seq<Vec>)
    requires |c0| == |d0| == k && Uniform(c0, k) && Uniform(d0, size)
    ensures !ok ==> !Independent(c0, k)
    ensures ok ==> Reducing(Augment(c0, d0, k, size), coeffs, data, k, size, k)
  {
    coeffs, data := c0, d0;
    ghost var m0 := Augment(c0, d0, k, size);
    ReducesStart(m0, k + size);
    for col := 0 to k
      invariant Reducing(m0, coeffs, data, k, size, col)
    {
      var pivot := FindPivot(coeffs, col, col, k);
      if pivot.None? {
        MissingPivot(c0, d0, coeffs, data, k, size, col);
        return false, coeffs, data;
      }
      ghost var c, d := coeffs, data;
      coeffs, data := ReduceColumn(coeffs, data, k, size, col, pivot.value);
      ReducingStep(m0, c, d, k, size, col, pivot.value, coeffs, data);
    }
    return true, coeffs, data;
  }

  /** Appends the rows to the output. */
  method JoinRows(rows: seq<Vec>) returns (result: Vec)
    ensures result == Flatten(rows)
  {
    result := [];
    for i := 0 to |rows|
      invariant result == Flatten(rows[..i])
    {
      assert rows[..i + 1][..i] == rows[..i];
      result := result + rows[i];
    }
    assert rows[..|rows|] == rows;
  }

  /** The piece size only sizes the output buffer in advance. */
  datatype RlncDecoder = RlncDecoder(k: nat, pieceSize: nat, originalSize: nat) {
    /** Decodes the first `k` pieces back to the segment bytes. */
    method Decode(pieces: seq<CodedPiece>) returns (r: Result<Vec>)
      requires Decodable(k, pieces)
      ensures r == DecodeResult(k, originalSize, pieces)
    {
      if |pieces| < k {
        return Err(InsufficientPieces(|pieces|, k));
      }
      ghost var size := DataSize(pieces[..k]);
      var ok, coeffs, data := EliminateAll(Coefficients(pieces[..k]), Datas(pieces[..k]), k, size);
      if !ok {
        return Err(LinearlyDependent);
      }
      AllPivots(pieces[..k], coeffs, data, k, size);
      var result := JoinRows(data);
      return Ok(Truncate(result, originalSize));
    }
  }
}
