/** The repair piece: solves for scalars that turn the local pieces into the orthogonal vector. */
module RepairPiece {
  import opened Bytes
  import opened Numbers
  import opened GF256
  import opened Vectors
  import opened Span
  import opened Elimination
  import opened Pieces
  import opened Repair

  // ---------- The solution the solver picks ----------

  /** Only vectors that are not combinations of earlier ones are used. */
  ghost predicate Greedy(cs: Vec, vs: seq<Vec>)
    requires |cs| == |vs|
  {
    forall i :: 0 <= i < |vs| && cs[i] != 0 ==> !InSpan(vs[i], vs[..i])
  }

  lemma {:induction false} GreedyExists(v: Vec, vs: seq<Vec>)
    requires InSpan(v, vs)
    ensures exists cs: Vec :: IsComb(cs, vs, v) && Greedy(cs, vs)
    decreases |vs|
  {
    var cs := Coordinates(v, vs);
    if |vs| == 0 {
      assert Greedy(cs, vs);
    } else {
      var m := |vs| - 1;
      var init, last := vs[..m], vs[m];
      assert vs == init + [last] && cs == cs[..m] + [cs[m]];
      CombSnoc(cs[..m], init, cs[m], last);
      var before := Comb(cs[..m], init, |v|);
      assert IsComb(cs[..m], init, before);
      if InSpan(last, init) {
        ScaledInSpan(cs[m], last, init);
        SumInSpan(before, ScaleV(cs[m], last), init);
        GreedyExists(v, init);
        var g: Vec :| IsComb(g, init, v) && Greedy(g, init);
        ExtendGreedy(g, init, 0, last);
        ScaleVLaws(0, 0, last);
        AddVLaws(v, v);
      } else {
        GreedyExists(before, init);
        var g: Vec :| IsComb(g, init, before) && Greedy(g, init);
        ExtendGreedy(g, init, cs[m], last);
      }
    }
  }

  lemma ExtendGreedy(g: Vec, init: seq<Vec>, c: byte, last: Vec)
    requires |g| == |init| && Uniform(init, |last|) && Greedy(g, init)
    requires c == 0 || !InSpan(last, init)
    ensures Greedy(g + [c], init + [last])
    ensures IsComb(g + [c], init + [last], AddV(Comb(g, init, |last|), ScaleV(c, last)))
  {
    CombSnoc(g, init, c, last);
    forall i | 0 <= i < |init| + 1 && (g + [c])[i] != 0
      ensures !InSpan((init + [last])[i], (init + [last])[..i])
    {
      assert (init + [last])[..i] == if i < |init| then init[..i] else init;
    }
  }

  /** A vanishing combination with last non-zero coefficient `i` puts vector `i` in the span before it. */
  lemma LastTermInSpan(e: Vec, vs: seq<Vec>, n: nat, i: nat)
    requires IsComb(e, vs, Zeros(n)) && i < |e| && e[i] != 0
    requires forall j :: i < j < |e| ==> e[j] == 0
    ensures InSpan(vs[i], vs[..i])
  {
    var init, v, rest := vs[..i], vs[i], vs[i + 1..];
    var a := e[..i];
    assert e == a + [e[i]] + Zeros(|rest|) && vs == init + [v] + rest;
    CombConcat(a + [e[i]], init + [v], Zeros(|rest|), rest, n);
    CombZeros(rest, n);
    CombSnoc(a, init, e[i], v);
    var s, t := Comb(a, init, n), ScaleV(e[i], v);
    AddVLaws(AddV(s, t), t);
    AddVEqualsZero(s, t);
    InvCorrect(e[i]);
    var inv := Inv(e[i]).value;
    MulComm(inv, e[i]);
    ScaleVLaws(inv, e[i], v);
    assert IsComb(a, init, t);
    ScaledInSpan(inv, t, init);
  }

  lemma GreedyUnique(a: Vec, b: Vec, vs: seq<Vec>, v: Vec)
    requires IsComb(a, vs, v) && IsComb(b, vs, v) && Greedy(a, vs) && Greedy(b, vs)
    ensures a == b
  {
    var e := AddV(a, b);
    CombAdd(a, b, vs, |v|);
    AddVLaws(v, v);
    if a != b {
      AddVEqualsZero(a, b);
      var i := LastNonZero(e);
      LastTermInSpan(e, vs, |v|, i);
      AddZero(0);
    }
  }

  lemma {:induction false} LastNonZero(e: Vec) returns (i: nat)
    requires e != Zeros(|e|)
    ensures i < |e| && e[i] != 0 && forall j :: i < j < |e| ==> e[j] == 0
  {
    var m := |e| - 1;
    assert e == e[..m] + [e[m]] && Zeros(|e|) == Zeros(m) + [0];
    if e[m] != 0 {
      i := m;
    } else {
      i := LastNonZero(e[..m]);
    }
  }

  /** The one greedy combination of `vs` that gives `v`. */
  ghost function GreedyCombination(v: Vec, vs: seq<Vec>): (cs: Vec)
    requires InSpan(v, vs)
    ensures IsComb(cs, vs, v) && Greedy(cs, vs)
  {
    GreedyExists(v, vs);
    var cs: Vec :| IsComb(cs, vs, v) && Greedy(cs, vs);
    cs
  }

  /** The piece that realises the orthogonal vector over the local pieces, when they span it. */
  ghost function OrthogonalPiece(local: seq<CodedPiece>, existing: seq<Vec>, k: nat, size: nat, offset: nat)
    : Option<CodedPiece>
    requires Shaped(local, k, size)
  {
    if |local| == 0 || k == 0 then None
    else match OrthogonalVector(existing, k, offset)
      case None => None
      case Some(target) =>
        if InSpan(target, Coefficients(local))
        then Some(Recombine(local, GreedyCombination(target, Coefficients(local)), k, size))
        else None
  }

  /** The target is never the zero vector, which is all that no pieces span. */
  lemma NoPiecesNoTarget(existing: seq<Vec>, k: nat, offset: nat)
    requires Uniform(existing, k) && OrthogonalVector(existing, k, offset).Some?
    ensures !InSpan(OrthogonalVector(existing, k, offset).value, [])
  {
    var target := OrthogonalVector(existing, k, offset).value;
    EmptySpan(target);
    ZerosInSpan(existing, k);
    OrthogonalVectorCorrect(existing, k, offset);
  }

  /** Some exactly when a target exists and is reachable; the piece is the target, faithful to any source. */
  lemma OrthogonalPieceCorrect(local: seq<CodedPiece>, existing: seq<Vec>, k: nat, size: nat, offset: nat)
    requires Shaped(local, k, size) && Uniform(existing, k)
    ensures var target, p := OrthogonalVector(existing, k, offset), OrthogonalPiece(local, existing, k, size, offset);
      && (p.Some? <==> target.Some? && InSpan(target.value, Coefficients(local)))
      && (p.Some? ==> p.value.coefficients == target.value && |p.value.data| == size
                      && Rank(existing + [p.value.coefficients]) == Rank(existing) + 1)
      && (p.Some? ==> forall source :: |source| == k && Uniform(source, size) && AllConsistent(local, source)
                        ==> Consistent(p.value, source))
  {
    var p := OrthogonalPiece(local, existing, k, size, offset);
    OrthogonalVectorCorrect(existing, k, offset);
    if |local| == 0 && OrthogonalVector(existing, k, offset).Some? {
      NoPiecesNoTarget(existing, k, offset);
      assert Coefficients(local) == [];
    }
    if p.Some? {
      OrthogonalVectorRaisesRank(existing, k, offset);
      var target := OrthogonalVector(existing, k, offset).value;
      var alphas := GreedyCombination(target, Coefficients(local));
      forall source | |source| == k && Uniform(source, size) && AllConsistent(local, source)
        ensures Consistent(p.value, source)
      {
        RecombineConsistent(local, alphas, k, size, source);
      }
    }
  }

  /** The columns that some offset selects. */
  ghost predicate CanTarget(existing: seq<Vec>, k: nat, c: nat) {
    c < k && if |existing| == 0 then c == 0 else !LeadingColumn(existing, k, c)
  }

  lemma CanTargetIff(existing: seq<Vec>, k: nat, c: nat)
    ensures CanTarget(existing, k, c) <==> exists offset :: TargetColumn(existing, k, offset) == Some(c)
  {
    if |existing| == 0 {
      if CanTarget(existing, k, c) { assert TargetColumn(existing, k, 0) == Some(c); }
    } else {
      var free := FreeColumns(existing, k, k);
      FreeColumnsMembers(existing, k, k);
      if CanTarget(existing, k, c) {
        var i :| 0 <= i < |free| && free[i] == c;
        assert TargetColumn(existing, k, i) == Some(c);
      }
      if offset :| TargetColumn(existing, k, offset) == Some(c) {
        assert free[Wrap(offset, |free|)] in free;
      }
    }
  }

  /** Exactly: some offset makes a piece if and only if the unit vector of a column that can be targeted
      is a combination of the local coefficients. A new direction alone is not enough. */
  lemma SomeOffsetRepairsIff(local: seq<CodedPiece>, existing: seq<Vec>, k: nat, size: nat)
    requires Shaped(local, k, size) && Uniform(existing, k) && |local| > 0
    ensures (exists offset :: OrthogonalPiece(local, existing, k, size, offset).Some?)
      <==> exists c: nat :: CanTarget(existing, k, c) && InSpan(Unit(k, c), Coefficients(local))
  {
    if offset :| OrthogonalPiece(local, existing, k, size, offset).Some? {
      var c := TargetColumn(existing, k, offset).value;
      CanTargetIff(existing, k, c);
      assert CanTarget(existing, k, c) && InSpan(Unit(k, c), Coefficients(local));
    }
    if c: nat :| CanTarget(existing, k, c) && InSpan(Unit(k, c), Coefficients(local)) {
      CanTargetIff(existing, k, c);
      var offset :| TargetColumn(existing, k, offset) == Some(c);
      assert OrthogonalPiece(local, existing, k, size, offset).Some?;
    }
  }

  /** What one vector spans. */
  lemma SpanOfOne(v: Vec, u: Vec)
    requires |v| == |u|
    ensures InSpan(v, [u]) ==> exists x: byte :: ScaleV(x, u) == v
  {
    if InSpan(v, [u]) {
      var cs := Coordinates(v, [u]);
      assert cs == [cs[0]];
      CombSingle(cs[0], u);
    }
  }

  lemma OneOneMissesUnit()
    ensures !InSpan([0, 1], [[1, 1]]) && !InSpan([1, 1], [[1, 0]])
  {
    SpanOfOne([0, 1], [1, 1]);
    SpanOfOne([1, 1], [1, 0]);
    forall x: byte ensures ScaleV(x, [1, 1]) != [0, 1] && ScaleV(x, [1, 0]) != [1, 1] {
      MulZero(x);
      assert ScaleV(x, [1, 1])[0] == ScaleV(x, [1, 1])[1] && ScaleV(x, [1, 0])[1] == 0;
    }
  }

  lemma OnlySecondColumn(c: nat)
    ensures CanTarget([[1, 0]], 2, c) ==> Unit(2, c) == [0, 1]
  {
    var existing: seq<Vec> := [[1, 0]];
    MemberInSpan(0, existing, 2);
    assert LeadsAt(existing[0], 0);
    assert CanTarget(existing, 2, c) ==> c == 1;
  }

  /** One piece with coefficients (1, 1) has a direction that (1, 0) lacks, yet no offset repairs with it. */
  lemma NewDirectionNotEnough(data: Vec, offset: nat)
    ensures !InSpan([1, 1], [[1, 0]])
    ensures OrthogonalPiece([CodedPiece(data, [1, 1])], [[1, 0]], 2, |data|, offset) == None
  {
    var local, existing: seq<Vec> := [CodedPiece(data, [1, 1])], [[1, 0]];
    OneOneMissesUnit();
    assert Coefficients(local) == [[1, 1]];
    SomeOffsetRepairsIff(local, existing, 2, |data|);
    forall c: nat | CanTarget(existing, 2, c) ensures !InSpan(Unit(2, c), Coefficients(local)) {
      OnlySecondColumn(c);
    }
    assert !OrthogonalPiece(local, existing, 2, |data|, offset).Some?;
  }

  /** A node with these pieces and this offset makes the piece `p`. */
  ghost predicate Makes(local: seq<CodedPiece>, existing: seq<Vec>, k: nat, size: nat, offset: nat, p: CodedPiece) {
    Shaped(local, k, size) && OrthogonalPiece(local, existing, k, size, offset) == Some(p)
  }

  ghost predicate AllMake(locals: seq<seq<CodedPiece>>, existing: seq<Vec>, k: nat, size: nat, offsets: seq<nat>,
                          made: seq<CodedPiece>)
  {
    |locals| == |offsets| == |made| &&
    forall i :: 0 <= i < |made| ==> Makes(locals[i], existing, k, size, offsets[i], made[i])
  }

  lemma MadeIsSimultaneous(local: seq<CodedPiece>, existing: seq<Vec>, k: nat, size: nat, offsets: seq<nat>, i: nat,
                           p: CodedPiece)
    requires Uniform(existing, k) && |existing| > 0 && Rank(existing) < k
    requires i < |offsets| && Makes(local, existing, k, size, offsets[i], p)
    ensures p.coefficients == Simultaneous(existing, k, offsets)[i]
  {
    OrthogonalPieceCorrect(local, existing, k, size, offsets[i]);
    SimultaneousIsOrthogonal(existing, k, offsets, i);
  }

  lemma AllMadeAreSimultaneous(locals: seq<seq<CodedPiece>>, existing: seq<Vec>, k: nat, size: nat,
                               offsets: seq<nat>, made: seq<CodedPiece>)
    requires Uniform(existing, k) && |existing| > 0 && Rank(existing) < k
    requires AllMake(locals, existing, k, size, offsets, made)
    ensures Coefficients(made) == Simultaneous(existing, k, offsets)
  {
    var all := Simultaneous(existing, k, offsets);
    forall i | 0 <= i < |made| ensures made[i].coefficients == all[i] {
      MadeIsSimultaneous(locals[i], existing, k, size, offsets, i, made[i]);
    }
  }

  /** Nodes that repair at the same time, each over its own pieces and with its own offset below the
      number of missing dimensions, together raise the rank by as many dimensions as they made pieces. */
  lemma SimultaneousPiecesIndependent(locals: seq<seq<CodedPiece>>, existing: seq<Vec>, k: nat, size: nat,
                                      offsets: seq<nat>, made: seq<CodedPiece>)
    requires Uniform(existing, k) && |existing| > 0 && Rank(existing) < k
    requires forall i, j :: 0 <= i < j < |offsets| ==> offsets[i] != offsets[j]
    requires forall i :: 0 <= i < |offsets| ==> offsets[i] < k - Rank(existing)
    requires AllMake(locals, existing, k, size, offsets, made)
    ensures Rank(existing + Coefficients(made)) == Rank(existing) + |made|
  {
    AllMadeAreSimultaneous(locals, existing, k, size, offsets, made);
    SimultaneousRepairsIndependent(existing, k, offsets);
  }

  // ---------- The linear system ----------

  /** One equation per coordinate: the local coefficients and the target as right-hand side. */
  function System(vs: seq<Vec>, target: Vec, k: nat): (m: seq<Vec>)
    requires Uniform(vs, k) && |target| == k
    ensures |m| == k && Uniform(m, |vs| + 1)
  {
    seq(k, j requires 0 <= j < k => Col(vs, k, j) + [target[j]])
  }

  lemma DotSnoc(a: Vec, x: byte, b: Vec, y: byte)
    requires |a| == |b|
    ensures Dot(a + [x], b + [y]) == Add(Dot(a, b), Mul(x, y))
  {
    assert (a + [x])[..|a|] == a && (b + [y])[..|b|] == b;
  }

  /** Solutions are the vectors orthogonal to all rows once extended by a one. */
  lemma SolutionIffKernel(vs: seq<Vec>, target: Vec, k: nat, alphas: Vec)
    requires Uniform(vs, k) && |target| == k && |alphas| == |vs|
    ensures IsComb(alphas, vs, target) <==> Apply(System(vs, target, k), alphas + [1]) == Zeros(k)
  {
    var m, w := System(vs, target, k), alphas + [1];
    forall j | 0 <= j < k ensures Apply(m, w)[j] == 0 <==> Comb(alphas, vs, k)[j] == target[j] {
      DotSnoc(Col(vs, k, j), target[j], alphas, 1);
      MulOne(target[j]);
      DotComm(Col(vs, k, j), alphas);
      AddCancel(Dot(alphas, Col(vs, k, j)), target[j]);
    }
    if Apply(m, w) == Zeros(k) {
      forall j | 0 <= j < k ensures Comb(alphas, vs, k)[j] == target[j] {
        assert Apply(m, w)[j] == 0;
      }
    }
  }

  lemma KernelPreserved(m0: seq<Vec>, m: seq<Vec>, w: Vec)
    requires Uniform(m0, |w|) && Uniform(m, |w|) && Spans(m0, m) && Apply(m0, w) == Zeros(|m0|)
    ensures Apply(m, w) == Zeros(|m|)
  {
    forall i | 0 <= i < |m| ensures Dot(m[i], w) == 0 {
      SpanKernel(m[i], m0, w);
    }
  }

  /** A reduced row `0 ... 0 | x` with `x` not zero excludes every solution. */
  lemma Inconsistent(vs: seq<Vec>, target: Vec, k: nat, m: seq<Vec>, pivots: seq<nat>, i: nat)
    requires Uniform(vs, k) && |target| == k
    requires Reduces(System(vs, target, k), m, |vs| + 1, |vs|, pivots)
    requires |pivots| <= i < k && m[i][|vs|] != 0
    ensures !InSpan(target, vs)
  {
    var n := |vs|;
    if InSpan(target, vs) {
      var alphas := Coordinates(target, vs);
      assert m[i] == Zeros(n) + [m[i][n]];
      DotSnoc(Zeros(n), m[i][n], alphas, 1);
      DotZeros(alphas);
      MulOne(m[i][n]);
      AddZero(m[i][n]);
      assert Apply(m, alphas + [1])[i] == m[i][n];
      SolutionIffKernel(vs, target, k, alphas);
      KernelPreserved(System(vs, target, k), m, alphas + [1]);
    }
  }

  lemma {:induction false} DotOfSingleTerm(a: Vec, b: Vec, i: nat)
    requires |a| == |b| && i < |a| && forall j :: 0 <= j < |a| && j != i ==> Mul(a[j], b[j]) == 0
    ensures Dot(a, b) == Mul(a[i], b[i])
  {
    var m := |a| - 1;
    if i == m {
      DotOfZeroTerms(a[..m], b[..m]);
      AddZero(Mul(a[m], b[m]));
    } else {
      DotOfSingleTerm(a[..m], b[..m], i);
      AddZero(Mul(a[i], b[i]));
    }
  }

  /** Pivot unknowns take the reduced right-hand side, all other unknowns are zero. */
  ghost predicate BasicSolution(alphas: Vec, m: seq<Vec>, n: nat, pivots: seq<nat>) {
    && |alphas| == n && Echelon(m, n + 1, n, pivots)
    && (forall j :: 0 <= j < |pivots| ==> alphas[pivots[j]] == m[j][n])
    && (forall c: nat :: c < n && c !in pivots ==> alphas[c] == 0)
  }

  lemma BasicSolutionRow(alphas: Vec, m: seq<Vec>, n: nat, pivots: seq<nat>, i: nat)
    requires BasicSolution(alphas, m, n, pivots) && i < |m|
    requires i >= |pivots| ==> m[i][n] == 0
    ensures Dot(m[i], alphas + [1]) == 0
  {
    var row := m[i][..n];
    assert m[i] == row + [m[i][n]];
    DotSnoc(row, m[i][n], alphas, 1);
    MulOne(m[i][n]);
    forall c | 0 <= c < n && (i >= |pivots| || c != pivots[i]) ensures Mul(row[c], alphas[c]) == 0 {
      MulZero(row[c]);
      MulZero(alphas[c]);
      if c in pivots {
        var j :| 0 <= j < |pivots| && pivots[j] == c;
      }
    }
    if i < |pivots| {
      DotOfSingleTerm(row, alphas, pivots[i]);
      MulOne(alphas[pivots[i]]);
      AddSelf(m[i][n]);
    } else {
      DotOfZeroTerms(row, alphas);
      AddZero(0);
    }
  }

  lemma BasicSolutionSolves(vs: seq<Vec>, target: Vec, k: nat, m: seq<Vec>, pivots: seq<nat>, alphas: Vec)
    requires Uniform(vs, k) && |target| == k
    requires Reduces(System(vs, target, k), m, |vs| + 1, |vs|, pivots)
    requires forall i :: |pivots| <= i < k ==> m[i][|vs|] == 0
    requires BasicSolution(alphas, m, |vs|, pivots)
    ensures IsComb(alphas, vs, target)
  {
    forall i | 0 <= i < k ensures Dot(m[i], alphas + [1]) == 0 {
      BasicSolutionRow(alphas, m, |vs|, pivots, i);
    }
    assert Apply(m, alphas + [1]) == Zeros(|m|);
    KernelPreserved(m, System(vs, target, k), alphas + [1]);
    SolutionIffKernel(vs, target, k, alphas);
  }

  /** A pivot column is never a combination of the columns before it. */
  lemma PivotColumnIndependent(vs: seq<Vec>, target: Vec, k: nat, m: seq<Vec>, pivots: seq<nat>, j: nat)
    requires Uniform(vs, k) && |target| == k && j < |pivots|
    requires Reduces(System(vs, target, k), m, |vs| + 1, |vs|, pivots)
    ensures !InSpan(vs[pivots[j]], vs[..pivots[j]])
  {
    var n, c := |vs|, pivots[j];
    if InSpan(vs[c], vs[..c]) {
      var a := Coordinates(vs[c], vs[..c]);
      var tail := Zeros(n - c);
      var w := a + [1] + tail;
      var zeros := Zeros(c);
      assert m[j] == zeros + [m[j][c]] + m[j][c + 1..];
      DotPrefix(zeros, m[j][c], m[j][c + 1..], a, tail);
      DotZeros(a);
      AddZero(1);
      assert Apply(m, w)[j] == 1;
      EarlierColumnsKernel(vs, target, k, c, a, w);
      KernelPreserved(System(vs, target, k), m, w);
    }
  }

  /** A column that is a combination of earlier ones gives a vector orthogonal to all equations. */
  lemma EarlierColumnsKernel(vs: seq<Vec>, target: Vec, k: nat, c: nat, a: Vec, w: Vec)
    requires Uniform(vs, k) && |target| == k && c < |vs|
    requires IsComb(a, vs[..c], vs[c]) && w == a + [1] + Zeros(|vs| - c)
    ensures Apply(System(vs, target, k), w) == Zeros(k)
  {
    var m0 := System(vs, target, k);
    forall i | 0 <= i < k ensures Dot(m0[i], w) == 0 {
      var before := Col(vs[..c], k, i);
      assert m0[i] == before + [vs[c][i]] + m0[i][c + 1..];
      DotPrefix(before, vs[c][i], m0[i][c + 1..], a, Zeros(|vs| - c));
      DotComm(before, a);
      assert Comb(a, vs[..c], k)[i] == vs[c][i];
      AddSelf(vs[c][i]);
    }
  }

  /** The product with `a`, then a one, then zeros. */
  lemma DotPrefix(before: Vec, x: byte, after: Vec, a: Vec, tail: Vec)
    requires |before| == |a| && |after| == |tail| && tail == Zeros(|tail|)
    ensures Dot(before + [x] + after, a + [1] + tail) == Add(Dot(before, a), x)
  {
    DotConcat(before + [x], after, a + [1], tail);
    DotZeros(after);
    DotSnoc(before, x, a, 1);
    MulOne(x);
    AddZero(Add(Dot(before, a), x));
  }

  lemma BasicSolutionGreedy(vs: seq<Vec>, target: Vec, k: nat, m: seq<Vec>, pivots: seq<nat>, alphas: Vec)
    requires Uniform(vs, k) && |target| == k
    requires Reduces(System(vs, target, k), m, |vs| + 1, |vs|, pivots)
    requires BasicSolution(alphas, m, |vs|, pivots)
    ensures Greedy(alphas, vs)
  {
    forall i | 0 <= i < |vs| && alphas[i] != 0 ensures !InSpan(vs[i], vs[..i]) {
      assert i in pivots;
      var j :| 0 <= j < |pivots| && pivots[j] == i;
      PivotColumnIndependent(vs, target, k, m, pivots, j);
    }
  }

  // ---------- The solver ----------

  lemma ReducesFull(m0: seq<Vec>, m: seq<Vec>, width: nat, col: nat, pivots: seq<nat>, last: nat)
    requires Reduces(m0, m, width, col, pivots) && |pivots| == |m0| && col <= last <= width
    ensures Reduces(m0, m, width, last, pivots)
  {
    EchelonFull(m, width, col, pivots, last);
  }

  /** Eliminates the first `n` columns of a system with `k` equations; the rest follows along. */
  method EliminateSystem(m0: seq<Vec>, width: nat, n: nat, k: nat) returns (aug: seq<Vec>, pivotCols: seq<nat>)
    requires Uniform(m0, width) && n <= width && |m0| == k
    ensures Reduces(m0, aug, width, n, pivotCols)
  {
    aug := m0;
    var rank := 0;
    pivotCols := [];
    ReducesStart(aug, width);
    for col := 0 to n
      invariant rank == |pivotCols| && Reduces(m0, aug, width, col, pivotCols)
    {
      var found;
      UniformPrefixes(aug, width);
      aug, found := ReduceOneColumn(m0, aug, width, rank, col, pivotCols);
      UniformPrefixes(aug, width);
      if !found {
        continue;
      }
      pivotCols := pivotCols + [col];
      rank := rank + 1;
      assert rank == |pivotCols| && Reduces(m0, aug, width, col + 1, pivotCols);
      if rank == k {
        ReducesFull(m0, aug, width, col + 1, pivotCols, n);
        break;
      }
    }
  }

  /** Sets the pivot unknowns from the right-hand side and leaves the others zero. */
  method ExtractAlphas(aug: seq<Vec>, pivotCols: seq<nat>, n: nat) returns (alphas: Vec)
    requires Echelon(aug, n + 1, n, pivotCols)
    ensures BasicSolution(alphas, aug, n, pivotCols)
  {
    alphas := Zeros(n);
    for idx := 0 to |pivotCols|
      invariant |alphas| == n
      invariant forall j :: 0 <= j < idx ==> alphas[pivotCols[j]] == aug[j][n]
      invariant forall c: nat :: c < n && c !in pivotCols ==> alphas[c] == 0
    {
      alphas := alphas[pivotCols[idx] := aug[idx][n]];
    }
  }

  /** Solves `sum(alpha_i * vs[i]) = target` in the first `k` entries, or finds that there is no solution. */
  method SolveAlphas(vs: seq<Vec>, target: Vec, k: nat) returns (r: Option<Vec>)
    requires AtLeast(vs, k) && |target| == k && k > 0
    ensures r.Some? <==> InSpan(target, Prefixes(vs, k))
    ensures r.Some? ==> r.value == GreedyCombination(target, Prefixes(vs, k))
  {
    var n := |vs|;
    ghost var cut := Prefixes(vs, k);
    var rows := BuildSystem(vs, target, k);
    var aug, pivotCols := EliminateSystem(rows, n + 1, n, k);
    for i := |pivotCols| to k
      invariant forall q :: |pivotCols| <= q < i ==> aug[q][n] == 0
    {
      if aug[i][n] != 0 {
        Inconsistent(cut, target, k, aug, pivotCols, i);
        return None;
      }
    }
    var alphas := ExtractAlphas(aug, pivotCols, n);
    BasicSolutionSolves(cut, target, k, aug, pivotCols, alphas);
    BasicSolutionGreedy(cut, target, k, aug, pivotCols, alphas);
    GreedyUnique(alphas, GreedyCombination(target, cut), cut, target);
    return Some(alphas);
  }

  /** The augmented rows: entry `j` of every vector, then entry `j` of the target. */
  method BuildSystem(vs: seq<Vec>, target: Vec, k: nat) returns (rows: seq<Vec>)
    requires AtLeast(vs, k) && |target| == k
    ensures rows == System(Prefixes(vs, k), target, k)
  {
    rows := seq(k, j requires 0 <= j < k => seq(|vs|, i requires 0 <= i < |vs| => vs[i][j]) + [target[j]]);
    forall j | 0 <= j < k ensures rows[j] == System(Prefixes(vs, k), target, k)[j] {
      assert Col(Prefixes(vs, k), k, j) == seq(|vs|, i requires 0 <= i < |vs| => vs[i][j]);
    }
  }

  lemma FittedCoefficients(local: seq<CodedPiece>, k: nat, size: nat)
    requires AtLeast(Coefficients(local), k)
    ensures Coefficients(Fitted(local, k, size)) == Prefixes(Coefficients(local), k)
  {
    var cs := Coefficients(local);
    forall i | 0 <= i < |local| ensures Padded(cs[i], 0, k) == cs[i][..k] {}
  }

  /** Creates a piece that is independent of everything the network already holds. Only the first `k`
      coefficients count, and data is fitted to the first local piece. */
  method CreateOrthogonalPiece(local: seq<CodedPiece>, existing: seq<Vec>, k: nat, offset: nat)
    returns (r: Option<CodedPiece>)
    requires AtLeast(Coefficients(local), k) && AtLeast(existing, k)
    ensures r == OrthogonalPiece(Fitted(local, k, DataSize(local)), Prefixes(existing, k), k, DataSize(local), offset)
  {
    var size := DataSize(local);
    if |local| == 0 || k == 0 {
      return None;
    }
    ghost var fitted, cut := Fitted(local, k, size), Prefixes(existing, k);
    var maybeTarget := GenerateOrthogonalVector(existing, k, offset);
    OrthogonalVectorCorrect(cut, k, offset);
    if maybeTarget.None? {
      return None;
    }
    FittedCoefficients(local, k, size);
    var solved := SolveAlphas(Coefficients(local), maybeTarget.value, k);
    if solved.None? {
      return None;
    }
    var piece := CombineLocal(local, solved.value, k, size);
    return Some(piece);
  }

  /** The combining loop skips zero scalars. */
  method CombineLocal(local: seq<CodedPiece>, alphas: Vec, k: nat, size: nat) returns (p: CodedPiece)
    requires |alphas| == |local|
    ensures p == Recombine(Fitted(local, k, size), alphas, k, size)
  {
    ghost var fitted := Fitted(local, k, size);
    var newData, newCoeffs := Zeros(size), Zeros(k);
    RecombineNone(k, size);
    for i := 0 to |local|
      invariant CodedPiece(newData, newCoeffs) == Recombine(fitted[..i], alphas[..i], k, size)
    {
      RecombineStep(fitted, alphas, k, size, i);
      if alphas[i] == 0 {
        ScaleVLaws(0, 0, fitted[i].data);
        ScaleVLaws(0, 0, fitted[i].coefficients);
        AddVLaws(newData, newData);
        AddVLaws(newCoeffs, newCoeffs);
        continue;
      }
      newData := AddZipped(newData, alphas[i], local[i].data);
      newCoeffs := AddZipped(newCoeffs, alphas[i], local[i].coefficients);
    }
    assert alphas[..|local|] == alphas && fitted[..|local|] == fitted;
    return CodedPiece(newData, newCoeffs);
  }
}
