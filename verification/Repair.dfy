/** The rank check, the orthogonal vector, and vectors chosen at the same time. */
module Repair {
  import opened Bytes
  import opened Numbers
  import opened GF256
  import opened Vectors
  import opened Span
  import opened Elimination

  // ---------- Rank check ----------

  /** The part of the vectors that counts: as many entries as the first one has. */
  function Considered(vectors: seq<Vec>): (r: seq<Vec>)
    requires |vectors| > 0 ==> AtLeast(vectors, |vectors[0]|)
    ensures |vectors| > 0 && Uniform(vectors, |vectors[0]|) ==> r == vectors
  {
    if |vectors| == 0 then []
    else
      if Uniform(vectors, |vectors[0]|) then
        UniformPrefixes(vectors, |vectors[0]|);
        Prefixes(vectors, |vectors[0]|)
      else Prefixes(vectors, |vectors[0]|)
  }

  /** The rank of a set of coefficient vectors. */
  method CheckIndependence(vectors: seq<Vec>) returns (rank: nat)
    requires |vectors| > 0 ==> AtLeast(vectors, |vectors[0]|)
    ensures rank == Rank(Considered(vectors))
  {
    if |vectors| == 0 {
      return 0;
    }
    var k := |vectors[0]|;
    var matrix := vectors;
    rank := 0;
    ghost var start, pivots: seq<nat> := Prefixes(vectors, k), [];
    ReducesStart(start, k);
    for col := 0 to k
      invariant AtLeast(matrix, k)
      invariant rank == |pivots| && Reduces(start, Prefixes(matrix, k), k, col, pivots)
    {
      var found;
      matrix, found := ReduceOneColumn(start, matrix, k, rank, col, pivots);
      if !found {
        continue;
      }
      pivots := pivots + [col];
      rank := rank + 1;
      assert rank == |pivots| && Reduces(start, Prefixes(matrix, k), k, col + 1, pivots);
      if rank == k {
        RankReachesWidth(start, Prefixes(matrix, k), k, col + 1, pivots);
        break;
      }
    }
    PivotCountIsRank(start, Prefixes(matrix, k), k, pivots);
  }

  // ---------- Free columns ----------

  /** The columns below `upTo` in which no vector of the row space leads, in increasing order. */
  ghost function FreeColumns(vs: seq<Vec>, n: nat, upTo: nat): seq<nat> {
    if upTo == 0 then []
    else FreeColumns(vs, n, upTo - 1) + (if LeadingColumn(vs, n, upTo - 1) then [] else [upTo - 1])
  }

  lemma {:induction false} FreeColumnsMembers(vs: seq<Vec>, n: nat, upTo: nat)
    ensures forall c: nat :: c in FreeColumns(vs, n, upTo) <==> c < upTo && !LeadingColumn(vs, n, c)
    ensures forall i, j :: 0 <= i < j < |FreeColumns(vs, n, upTo)| ==>
      FreeColumns(vs, n, upTo)[i] < FreeColumns(vs, n, upTo)[j]
  {
    if upTo > 0 {
      FreeColumnsMembers(vs, n, upTo - 1);
      var before := FreeColumns(vs, n, upTo - 1);
      forall i | 0 <= i < |before| ensures before[i] < upTo - 1 {
        assert before[i] in before;
      }
    }
  }

  /** `pivots` are, in increasing order, exactly the leading columns of `vs`. */
  ghost predicate LeadingIndex(vs: seq<Vec>, n: nat, pivots: seq<nat>) {
    && (forall i, j :: 0 <= i < j < |pivots| ==> pivots[i] < pivots[j])
    && (forall c: nat :: c in pivots <==> LeadingColumn(vs, n, c))
  }

  lemma {:induction false} FreeColumnsCount(vs: seq<Vec>, n: nat, pivots: seq<nat>, c: nat, j: nat)
    requires LeadingIndex(vs, n, pivots) && j <= |pivots|
    requires (j > 0 ==> pivots[j - 1] < c) && (j < |pivots| ==> c <= pivots[j])
    ensures |FreeColumns(vs, n, c)| == c - j
    decreases c
  {
    if c > 0 {
      if j > 0 && pivots[j - 1] == c - 1 {
        assert c - 1 in pivots;
        FreeColumnsCount(vs, n, pivots, c - 1, j - 1);
      } else {
        NotAPivot(pivots, c - 1, j);
        FreeColumnsCount(vs, n, pivots, c - 1, j);
      }
    }
  }

  lemma NotAPivot(pivots: seq<nat>, c: nat, j: nat)
    requires forall i, j :: 0 <= i < j < |pivots| ==> pivots[i] < pivots[j]
    requires j <= |pivots| && (j > 0 ==> pivots[j - 1] < c) && (j < |pivots| ==> c < pivots[j])
    ensures c !in pivots
  {
    forall i | 0 <= i < |pivots| ensures pivots[i] != c {
      if j > 0 && i < j { assert pivots[i] <= pivots[j - 1]; }
      if j < |pivots| && j <= i { assert pivots[j] <= pivots[i]; }
    }
  }

  /** There is one free column for each missing dimension. */
  lemma FreeColumnsOfRank(vs: seq<Vec>, n: nat)
    requires Uniform(vs, n)
    ensures |FreeColumns(vs, n, n)| == n - Rank(vs)
  {
    var m, pivots := ReducedForm(vs, n);
    PivotCountIsRank(vs, m, n, pivots);
    PivotsAreLeading(vs, m, n, pivots);
    FreeColumnsCount(vs, n, pivots, n, |pivots|);
  }

  lemma PivotsAreLeading(vs: seq<Vec>, m: seq<Vec>, n: nat, pivots: seq<nat>)
    requires Uniform(vs, n) && Echelon(m, n, n, pivots) && SameSpan(vs, m)
    ensures forall c: nat :: c in pivots <==> LeadingColumn(vs, n, c)
  {
    forall c: nat ensures c in pivots <==> LeadingColumn(vs, n, c) {
      PivotIffLeading(vs, m, n, pivots, c);
    }
  }

  // ---------- The orthogonal vector ----------

  /** The column that `offset` selects: the first one when nothing exists yet, else a free one. */
  ghost function TargetColumn(existing: seq<Vec>, k: nat, offset: nat): Option<nat> {
    if k == 0 then None
    else if |existing| == 0 then Some(0)
    else
      var free := FreeColumns(existing, k, k);
      if |free| == 0 then None else Some(free[Wrap(offset, |free|)])
  }

  /** The unit vector of the selected column. */
  ghost function OrthogonalVector(existing: seq<Vec>, k: nat, offset: nat): Option<Vec> {
    match TargetColumn(existing, k, offset)
    case None => None
    case Some(c) => Some(Unit(k, c))
  }

  /** The elimination loop, which records the pivot columns. */
  method FindPivotColumns(existing: seq<Vec>, k: nat) returns (matrix: seq<Vec>, pivotCols: seq<nat>)
    requires AtLeast(existing, k)
    ensures AtLeast(matrix, k) && Reduces(Prefixes(existing, k), Prefixes(matrix, k), k, k, pivotCols)
  {
    matrix := existing;
    var rank := 0;
    pivotCols := [];
    ghost var start := Prefixes(existing, k);
    ReducesStart(start, k);
    for col := 0 to k
      invariant AtLeast(matrix, k)
      invariant rank == |pivotCols| && Reduces(start, Prefixes(matrix, k), k, col, pivotCols)
    {
      var found;
      matrix, found := ReduceOneColumn(start, matrix, k, rank, col, pivotCols);
      if !found {
        continue;
      }
      pivotCols := pivotCols + [col];
      rank := rank + 1;
      assert rank == |pivotCols| && Reduces(start, Prefixes(matrix, k), k, col + 1, pivotCols);
      if rank == k {
        RankReachesWidth(start, Prefixes(matrix, k), k, col + 1, pivotCols);
        break;
      }
    }
  }

  /** The recorded pivot columns are the leading columns of the row space, one for each rank. */
  lemma ReducedPivots(vs: seq<Vec>, m: seq<Vec>, n: nat, pivots: seq<nat>)
    requires Uniform(vs, n) && Reduces(vs, m, n, n, pivots)
    ensures LeadingIndex(vs, n, pivots) && |pivots| == Rank(vs)
  {
    PivotCountIsRank(vs, m, n, pivots);
    PivotsAreLeading(vs, m, n, pivots);
  }

  /** The columns that are not pivot columns. */
  method ListFreeColumns(ghost existing: seq<Vec>, k: nat, pivotCols: seq<nat>) returns (freeCols: seq<nat>)
    requires LeadingIndex(existing, k, pivotCols)
    ensures freeCols == FreeColumns(existing, k, k)
  {
    freeCols := [];
    for c := 0 to k
      invariant freeCols == FreeColumns(existing, k, c)
    {
      if c !in pivotCols {
        freeCols := freeCols + [c];
      }
    }
  }

  /** Finds the pivot columns and returns the unit vector of a free one; entries past `k` do not count. */
  method GenerateOrthogonalVector(existing: seq<Vec>, k: nat, offset: nat) returns (r: Option<Vec>)
    requires AtLeast(existing, k)
    ensures r == OrthogonalVector(Prefixes(existing, k), k, offset)
  {
    if k == 0 {
      return None;
    }
    if |existing| == 0 {
      var v := Zeros(k)[0 := 1];
      assert v == Unit(k, 0);
      return Some(v);
    }
    ghost var cut := Prefixes(existing, k);
    var matrix, pivotCols := FindPivotColumns(existing, k);
    ReducedPivots(cut, Prefixes(matrix, k), k, pivotCols);
    FreeColumnsOfRank(cut, k);
    if |pivotCols| >= k {
      return None;
    }
    var freeCols := ListFreeColumns(cut, k, pivotCols);
    if |freeCols| == 0 {
      return None;
    }
    var freeCol := freeCols[offset % |freeCols|];
    WrapIsModulo(offset, |freeCols|);
    FreeColumnBound(cut, k, Wrap(offset, |freeCols|));
    var result := Zeros(k)[freeCol := 1];
    assert result == Unit(k, freeCol);
    return Some(result);
  }

  lemma FreeColumnBound(existing: seq<Vec>, k: nat, i: nat)
    requires i < |FreeColumns(existing, k, k)|
    ensures FreeColumns(existing, k, k)[i] < k && !LeadingColumn(existing, k, FreeColumns(existing, k, k)[i])
  {
    FreeColumnsMembers(existing, k, k);
    assert FreeColumns(existing, k, k)[i] in FreeColumns(existing, k, k);
  }

  lemma EmptySpan(v: Vec)
    ensures InSpan(v, []) ==> v == Zeros(|v|)
  {
    if InSpan(v, []) {
      assert Comb(Coordinates(v, []), [], |v|) == Zeros(|v|);
    }
  }

  lemma UnitIsNotZero(n: nat, i: nat)
    requires i < n
    ensures Unit(n, i) != Zeros(n)
  {
    assert Unit(n, i)[i] == 1 && Zeros(n)[i] == 0;
  }

  /** None exactly when nothing is missing; otherwise a vector outside the span. */
  lemma OrthogonalVectorCorrect(existing: seq<Vec>, k: nat, offset: nat)
    requires Uniform(existing, k)
    ensures OrthogonalVector(existing, k, offset).None? <==> forall v: Vec :: |v| == k ==> InSpan(v, existing)
    ensures OrthogonalVector(existing, k, offset).None? <==> Rank(existing) == k
    ensures var r := OrthogonalVector(existing, k, offset);
            r.Some? ==> |r.value| == k && !InSpan(r.value, existing)
  {
    FullRankIffSpansAll(existing, k);
    RankAtMostDimension(existing, k);
    if k == 0 {
    } else if |existing| == 0 {
      EmptySpan(Unit(k, 0));
      UnitIsNotZero(k, 0);
    } else {
      FreeColumnsOfRank(existing, k);
      var free := FreeColumns(existing, k, k);
      if |free| > 0 {
        var f := free[Wrap(offset, |free|)];
        FreeColumnBound(existing, k, Wrap(offset, |free|));
        assert LeadsAt(Unit(k, f), f);
      }
    }
  }

  /** Appending the orthogonal vector raises the rank by exactly one. */
  lemma OrthogonalVectorRaisesRank(existing: seq<Vec>, k: nat, offset: nat)
    requires Uniform(existing, k) && OrthogonalVector(existing, k, offset).Some?
    ensures Rank(existing + [OrthogonalVector(existing, k, offset).value]) == Rank(existing) + 1
  {
    OrthogonalVectorCorrect(existing, k, offset);
    RankAppend(existing, OrthogonalVector(existing, k, offset).value);
  }

  /** The family after repairing with the given offsets in turn, stopping at the first None. */
  ghost function Repaired(existing: seq<Vec>, k: nat, offsets: seq<nat>): seq<Vec>
    decreases |offsets|
  {
    if |offsets| == 0 then existing
    else match OrthogonalVector(existing, k, offsets[0])
      case None => existing
      case Some(v) => Repaired(existing + [v], k, offsets[1..])
  }

  /** Repeated repair gains one dimension a round and stops after exactly `k - rank` rounds. */
  lemma {:induction false} RepairTerminates(existing: seq<Vec>, k: nat, offsets: seq<nat>)
    requires Uniform(existing, k) && k > 0
    ensures Rank(Repaired(existing, k, offsets)) ==
      if Rank(existing) + |offsets| <= k then Rank(existing) + |offsets| else k
    ensures Uniform(Repaired(existing, k, offsets), k)
    ensures forall o: nat ::
      OrthogonalVector(Repaired(existing, k, offsets), k, o).None? <==> |offsets| >= k - Rank(existing)
    decreases |offsets|
  {
    RankAtMostDimension(existing, k);
    if |offsets| == 0 {
      forall o: nat { OrthogonalVectorCorrect(existing, k, o); }
    } else {
      OrthogonalVectorCorrect(existing, k, offsets[0]);
      match OrthogonalVector(existing, k, offsets[0])
      case None =>
        forall o: nat { OrthogonalVectorCorrect(existing, k, o); }
      case Some(v) =>
        RankAppend(existing, v);
        RepairTerminates(existing + [v], k, offsets[1..]);
    }
  }

  // ---------- Simultaneous repairs ----------

  lemma {:induction false} RankOfConcat(us: seq<Vec>, vs: seq<Vec>)
    ensures Rank(us + vs) <= Rank(us) + |vs|
    decreases |vs|
  {
    if |vs| == 0 {
      assert us + vs == us;
    } else {
      var init, last := vs[..|vs| - 1], vs[|vs| - 1];
      RankOfConcat(us, init);
      RankAppend(us + init, last);
      assert us + vs == us + init + [last];
    }
  }

  /** The unit vectors of the given columns. */
  function Units(n: nat, columns: seq<nat>): (r: seq<Vec>)
    ensures |r| == |columns| && Uniform(r, n)
  {
    seq(|columns|, i requires 0 <= i < |columns| => Unit(n, columns[i]))
  }

  /** A vector supported on the given columns is a combination of their unit vectors. */
  lemma SupportedVector(v: Vec, columns: seq<nat>)
    requires forall i, j :: 0 <= i < j < |columns| ==> columns[i] != columns[j]
    requires forall i :: 0 <= i < |columns| ==> columns[i] < |v|
    requires forall c: nat :: c < |v| && c !in columns ==> v[c] == 0
    ensures InSpan(v, Units(|v|, columns))
  {
    var n, us := |v|, Units(|v|, columns);
    var cs := seq(|columns|, i requires 0 <= i < |columns| => v[columns[i]]);
    forall c | 0 <= c < n ensures Dot(cs, Col(us, n, c)) == v[c] {
      if i :| 0 <= i < |columns| && columns[i] == c {
        assert Col(us, n, c) == Unit(|cs|, i);
        DotUnit(i, cs);
      } else {
        assert Col(us, n, c) == Zeros(|cs|);
        DotZeros(cs);
      }
    }
    assert IsComb(cs, us, v);
  }

  /** The existing vectors and the unit vectors of all free columns span the whole space. */
  lemma FreeColumnsComplete(vs: seq<Vec>, n: nat)
    requires Uniform(vs, n)
    ensures Rank(vs + Units(n, FreeColumns(vs, n, n))) == n
  {
    var free := FreeColumns(vs, n, n);
    var us := Units(n, free);
    var all := vs + us;
    FreeColumnsMembers(vs, n, n);
    forall i | 0 <= i < |free| ensures free[i] < n { FreeColumnBound(vs, n, i); }
    forall i | 0 <= i < n ensures InSpan(Identity(n)[i], all) {
      UnitReached(vs, n, i);
    }
    IdentityIndependent(n);
    FullRankIffIndependent(Identity(n), n);
    RankMonotone(Identity(n), all, n);
    RankAtMostDimension(all, n);
  }

  lemma SpanOfSuffix(v: Vec, vs: seq<Vec>, us: seq<Vec>)
    requires InSpan(v, us) && Uniform(vs, |v|)
    ensures InSpan(v, vs + us)
  {
    LargerFamilySpans(v, us, vs);
    SpansMembers(us + vs, vs + us, |v|);
    SpanTransitive(v, us + vs, vs + us);
  }

  /** A pivot row differs from its unit vector only in free columns. */
  lemma PivotRowRest(vs: seq<Vec>, n: nat, m: seq<Vec>, pivots: seq<nat>, j: nat, c: nat)
    requires Uniform(vs, n) && Reduces(vs, m, n, n, pivots) && j < |pivots| && c < n
    requires c !in FreeColumns(vs, n, n)
    ensures AddV(m[j], Unit(n, pivots[j]))[c] == 0
  {
    FreeColumnsMembers(vs, n, n);
    PivotIffLeading(vs, m, n, pivots, c);
    var i :| 0 <= i < |pivots| && pivots[i] == c;
    AddSelf(m[j][c]);
  }

  lemma PivotUnitReached(vs: seq<Vec>, n: nat, m: seq<Vec>, pivots: seq<nat>, j: nat)
    requires Uniform(vs, n) && Reduces(vs, m, n, n, pivots) && j < |pivots|
    ensures InSpan(Unit(n, pivots[j]), vs + Units(n, FreeColumns(vs, n, n)))
  {
    var free := FreeColumns(vs, n, n);
    var us, e, row := Units(n, free), Unit(n, pivots[j]), m[j];
    var rest := AddV(row, e);
    forall c: nat | c < n && c !in free ensures rest[c] == 0 {
      PivotRowRest(vs, n, m, pivots, j, c);
    }
    FreeVectorReached(vs, n, rest);
    LargerFamilySpans(row, vs, us);
    SumInSpan(rest, row, vs + us);
    AddVLaws(row, e);
    AddVLaws(e, row);
  }

  /** A vector supported on the free columns is reached by their unit vectors. */
  lemma FreeVectorReached(vs: seq<Vec>, n: nat, v: Vec)
    requires Uniform(vs, n) && |v| == n
    requires forall c: nat :: c < n && c !in FreeColumns(vs, n, n) ==> v[c] == 0
    ensures InSpan(v, vs + Units(n, FreeColumns(vs, n, n)))
  {
    var free := FreeColumns(vs, n, n);
    FreeColumnsMembers(vs, n, n);
    forall j | 0 <= j < |free| ensures free[j] < n { FreeColumnBound(vs, n, j); }
    SupportedVector(v, free);
    SpanOfSuffix(v, vs, Units(n, free));
  }

  lemma UnitReached(vs: seq<Vec>, n: nat, i: nat)
    requires Uniform(vs, n) && i < n
    ensures InSpan(Unit(n, i), vs + Units(n, FreeColumns(vs, n, n)))
  {
    FreeColumnsMembers(vs, n, n);
    if LeadingColumn(vs, n, i) {
      var m, pivots := ReducedForm(vs, n);
      PivotIffLeading(vs, m, n, pivots, i);
      var j :| 0 <= j < |pivots| && pivots[j] == i;
      PivotUnitReached(vs, n, m, pivots, j);
    } else {
      assert i in FreeColumns(vs, n, n);
      FreeVectorReached(vs, n, Unit(n, i));
    }
  }

  function Picks(columns: seq<nat>, offsets: seq<nat>): seq<nat>
    requires |columns| > 0
  {
    seq(|offsets|, i requires 0 <= i < |offsets| => columns[Wrap(offsets[i], |columns|)])
  }

  lemma PicksConcat(columns: seq<nat>, a: seq<nat>, b: seq<nat>)
    requires |columns| > 0
    ensures Picks(columns, a + b) == Picks(columns, a) + Picks(columns, b)
  {}

  lemma UnitsConcat(n: nat, a: seq<nat>, b: seq<nat>)
    ensures Units(n, a + b) == Units(n, a) + Units(n, b)
  {
    forall i | 0 <= i < |a + b| ensures Units(n, a + b)[i] == (Units(n, a) + Units(n, b))[i] {
      if i < |a| {
        assert (a + b)[i] == a[i];
      } else {
        assert (a + b)[i] == b[i - |a|];
      }
    }
  }

  /** The vectors chosen by nodes that repair at the same time with the given offsets. */
  ghost function Simultaneous(existing: seq<Vec>, k: nat, offsets: seq<nat>): (r: seq<Vec>)
    requires Uniform(existing, k) && |existing| > 0 && Rank(existing) < k
    ensures Uniform(r, k)
  {
    FreeColumnsOfRank(existing, k);
    var free := FreeColumns(existing, k, k);
    Units(k, Picks(free, offsets))
  }

  lemma SimultaneousConcat(existing: seq<Vec>, k: nat, a: seq<nat>, b: seq<nat>)
    requires Uniform(existing, k) && |existing| > 0 && Rank(existing) < k
    ensures Simultaneous(existing, k, a + b) == Simultaneous(existing, k, a) + Simultaneous(existing, k, b)
  {
    FreeColumnsOfRank(existing, k);
    var free := FreeColumns(existing, k, k);
    PicksConcat(free, a, b);
    UnitsConcat(k, Picks(free, a), Picks(free, b));
  }

  lemma SimultaneousIsOrthogonal(existing: seq<Vec>, k: nat, offsets: seq<nat>, i: nat)
    requires Uniform(existing, k) && |existing| > 0 && Rank(existing) < k && i < |offsets|
    ensures OrthogonalVector(existing, k, offsets[i]) == Some(Simultaneous(existing, k, offsets)[i])
  {
    FreeColumnsOfRank(existing, k);
  }

  lemma UnitsDiffer(n: nat, i: nat, j: nat)
    requires i < n && j < n
    ensures Unit(n, i) == Unit(n, j) <==> i == j
  {
    assert Unit(n, i)[i] == 1 && Unit(n, j)[i] == if i == j then 1 else 0;
  }

  /** Repairs produce the same vector exactly when they target the same column. */
  lemma SameVectorIffSameColumn(existing: seq<Vec>, k: nat, a: nat, b: nat)
    requires Uniform(existing, k)
    ensures OrthogonalVector(existing, k, a) == OrthogonalVector(existing, k, b)
      <==> TargetColumn(existing, k, a) == TargetColumn(existing, k, b)
  {
    var i, j := TargetColumn(existing, k, a), TargetColumn(existing, k, b);
    if i.Some? && j.Some? {
      TargetInRange(existing, k, a);
      TargetInRange(existing, k, b);
      UnitsDiffer(k, i.value, j.value);
    }
  }

  lemma TargetInRange(existing: seq<Vec>, k: nat, offset: nat)
    requires Uniform(existing, k) && TargetColumn(existing, k, offset).Some?
    ensures TargetColumn(existing, k, offset).value < k
  {
    if |existing| > 0 {
      FreeColumnBound(existing, k, Wrap(offset, |FreeColumns(existing, k, k)|));
    }
  }

  /** Free columns come in increasing order: `c` is preceded by the free columns below it. */
  lemma {:induction false} FreeColumnsBelow(vs: seq<Vec>, n: nat, c: nat, upTo: nat)
    requires c < upTo && !LeadingColumn(vs, n, c)
    ensures |FreeColumns(vs, n, c)| < |FreeColumns(vs, n, upTo)|
    ensures FreeColumns(vs, n, upTo)[|FreeColumns(vs, n, c)|] == c
  {
    if c < upTo - 1 {
      FreeColumnsBelow(vs, n, c, upTo - 1);
    }
  }

  /** The selected column is free, and as many free columns precede it as the offset says, modulo the
      number of missing dimensions; with no vectors at all it is the first column. */
  lemma TargetIsNth(existing: seq<Vec>, k: nat, offset: nat)
    requires Uniform(existing, k) && Rank(existing) < k
    ensures var target := TargetColumn(existing, k, offset);
      && target.Some? && target.value < k && !LeadingColumn(existing, k, target.value)
      && |FreeColumns(existing, k, target.value)| == if |existing| == 0 then 0 else Wrap(offset, k - Rank(existing))
  {
    if |existing| == 0 {
      NothingLeads(existing, k, 0);
    } else {
      FreeColumnsOfRank(existing, k);
      NthFreeColumn(existing, k, Wrap(offset, k - Rank(existing)));
    }
  }

  lemma NthFreeColumn(existing: seq<Vec>, k: nat, i: nat)
    requires i < |FreeColumns(existing, k, k)|
    ensures var c := FreeColumns(existing, k, k)[i];
      c < k && !LeadingColumn(existing, k, c) && |FreeColumns(existing, k, c)| == i
  {
    FreeColumnsMembers(existing, k, k);
    FreeColumnBound(existing, k, i);
    FreeColumnsBelow(existing, k, FreeColumns(existing, k, k)[i], k);
  }

  lemma NothingLeads(existing: seq<Vec>, k: nat, c: nat)
    requires |existing| == 0
    ensures !LeadingColumn(existing, k, c)
  {
    forall v: Vec | |v| == k && InSpan(v, existing) ensures !LeadsAt(v, c) {
      assert existing == [];
      EmptySpan(v);
    }
  }

  /** Offsets beyond the number of missing dimensions wrap around to the remainder, and only equal remainders
      collide. */
  lemma OffsetsWrap(existing: seq<Vec>, k: nat, a: nat, b: nat)
    requires Uniform(existing, k) && |existing| > 0 && Rank(existing) < k
    ensures TargetColumn(existing, k, a) == TargetColumn(existing, k, b)
      <==> Wrap(a, k - Rank(existing)) == Wrap(b, k - Rank(existing))
  {
    FreeColumnsOfRank(existing, k);
    FreeColumnsMembers(existing, k, k);
    var free, n := FreeColumns(existing, k, k), k - Rank(existing);
    assert TargetColumn(existing, k, a) == Some(free[Wrap(a, n)]);
    assert TargetColumn(existing, k, b) == Some(free[Wrap(b, n)]);
  }

  lemma EmptyTarget(k: nat, offset: nat)
    requires k > 0
    ensures TargetColumn([], k, offset) == Some(0)
  {}

  lemma DistinctOffsets(existing: seq<Vec>, k: nat, a: nat, b: nat)
    requires Uniform(existing, k) && |existing| > 0
    requires a < k - Rank(existing) && b < k - Rank(existing) && a != b
    ensures TargetColumn(existing, k, a) != TargetColumn(existing, k, b)
  {
    OffsetsWrap(existing, k, a, b);
    WrapSmall(a, k - Rank(existing));
    WrapSmall(b, k - Rank(existing));
  }

  /** Two different offsets within the missing dimensions target different columns exactly when some
      vector exists already; with none, every offset targets the first column. */
  lemma OffsetsDistinctIffNonEmpty(existing: seq<Vec>, k: nat, a: nat, b: nat)
    requires Uniform(existing, k) && a < k - Rank(existing) && b < k - Rank(existing) && a != b
    ensures TargetColumn(existing, k, a) != TargetColumn(existing, k, b) <==> |existing| > 0
  {
    if |existing| > 0 {
      DistinctOffsets(existing, k, a, b);
    } else {
      assert existing == [];
      EmptyTarget(k, a);
      EmptyTarget(k, b);
    }
  }

  lemma {:induction false} MissingOffsets(offsets: seq<nat>, n: nat) returns (rest: seq<nat>)
    requires forall i, j :: 0 <= i < j < |offsets| ==> offsets[i] != offsets[j]
    requires forall i :: 0 <= i < |offsets| ==> offsets[i] < n
    ensures |rest| + |offsets| == n && forall o: nat :: o < n ==> o in offsets + rest
    decreases n
  {
    assert |offsets| > 0 ==> offsets[0] < n;
    if n == 0 {
      rest := [];
    } else if i :| 0 <= i < |offsets| && offsets[i] == n - 1 {
      var without := RemoveAt(offsets, i);
      rest := MissingOffsets(without, n - 1);
      forall o: nat | o < n ensures o in offsets + rest {
        if o < n - 1 { assert o in without + rest; }
      }
    } else {
      var before := MissingOffsets(offsets, n - 1);
      rest := before + [n - 1];
      forall o: nat | o < n ensures o in offsets + rest {
        if o < n - 1 { assert o in offsets + before; }
      }
    }
  }

  /** When the offsets cover all missing dimensions, some node picked each free column. */
  lemma EveryFreeColumnPicked(existing: seq<Vec>, k: nat, offsets: seq<nat>, i: nat)
    requires Uniform(existing, k) && |existing| > 0 && Rank(existing) < k
    requires i < k - Rank(existing) && i in offsets
    ensures |FreeColumns(existing, k, k)| == k - Rank(existing)
    ensures Unit(k, FreeColumns(existing, k, k)[i]) in Simultaneous(existing, k, offsets)
  {
    FreeColumnsOfRank(existing, k);
    var j :| 0 <= j < |offsets| && offsets[j] == i;
    assert Simultaneous(existing, k, offsets)[j] == Unit(k, FreeColumns(existing, k, k)[i]);
  }

  lemma CoveringOffsetsComplete(existing: seq<Vec>, k: nat, offsets: seq<nat>)
    requires Uniform(existing, k) && |existing| > 0 && Rank(existing) < k
    requires forall o: nat :: o < k - Rank(existing) ==> o in offsets
    ensures Rank(existing + Simultaneous(existing, k, offsets)) == k
  {
    FreeColumnsOfRank(existing, k);
    var units := Units(k, FreeColumns(existing, k, k));
    var all := existing + Simultaneous(existing, k, offsets);
    FreeColumnsComplete(existing, k);
    forall v | v in existing + units ensures v in all {
      if v !in existing {
        var i :| 0 <= i < |units| && units[i] == v;
        EveryFreeColumnPicked(existing, k, offsets, i);
      }
    }
    SpansMembers(existing + units, all, k);
    RankMonotone(existing + units, all, k);
    RankAtMostDimension(all, k);
  }

  lemma ConcatAssoc<T>(a: seq<T>, b: seq<T>, c: seq<T>)
    ensures a + (b + c) == a + b + c
  {}

  /** Nodes with distinct offsets below the number of missing dimensions never collide: together
      they raise the rank by as many dimensions as there are nodes. */
  lemma SimultaneousRepairsIndependent(existing: seq<Vec>, k: nat, offsets: seq<nat>)
    requires Uniform(existing, k) && |existing| > 0 && Rank(existing) < k
    requires forall i, j :: 0 <= i < j < |offsets| ==> offsets[i] != offsets[j]
    requires forall i :: 0 <= i < |offsets| ==> offsets[i] < k - Rank(existing)
    ensures Rank(existing + Simultaneous(existing, k, offsets)) == Rank(existing) + |offsets|
  {
    var rest := MissingOffsets(offsets, k - Rank(existing));
    var chosen, missing := Simultaneous(existing, k, offsets), Simultaneous(existing, k, rest);
    CoveringOffsetsComplete(existing, k, offsets + rest);
    SimultaneousConcat(existing, k, offsets, rest);
    ConcatAssoc(existing, chosen, missing);
    RankOfConcat(existing + chosen, missing);
    RankOfConcat(existing, chosen);
  }
}
