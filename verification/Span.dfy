/** Span, independence and rank of finite families of vectors over GF(2^8). */
module Span {
  import opened Bytes
  import opened GF256
  import opened Vectors

  // ---------- Span ----------

  ghost predicate IsComb(cs: Vec, vs: seq<Vec>, v: Vec) {
    |cs| == |vs| && Uniform(vs, |v|) && Comb(cs, vs, |v|) == v
  }

  ghost predicate InSpan(v: Vec, vs: seq<Vec>) {
    exists cs: Vec :: IsComb(cs, vs, v)
  }

  /** Every vector of `vs` is a combination of `bs`. */
  ghost predicate Spans(bs: seq<Vec>, vs: seq<Vec>) {
    forall i :: 0 <= i < |vs| ==> InSpan(vs[i], bs)
  }

  ghost predicate SameSpan(us: seq<Vec>, vs: seq<Vec>) {
    Spans(us, vs) && Spans(vs, us)
  }

  ghost predicate Independent(vs: seq<Vec>, n: nat)
    requires Uniform(vs, n)
  {
    forall cs: Vec :: IsComb(cs, vs, Zeros(n)) ==> cs == Zeros(|vs|)
  }

  /** Some coefficients that express `v` over `vs`. */
  ghost function Coordinates(v: Vec, vs: seq<Vec>): (cs: Vec)
    requires InSpan(v, vs)
    ensures IsComb(cs, vs, v)
  {
    var cs: Vec :| IsComb(cs, vs, v);
    cs
  }

  lemma MemberInSpan(i: nat, vs: seq<Vec>, n: nat)
    requires i < |vs| && Uniform(vs, n)
    ensures InSpan(vs[i], vs)
  {
    CombUnit(i, vs, n);
    assert IsComb(Unit(|vs|, i), vs, vs[i]);
  }

  lemma SpansSelf(vs: seq<Vec>, n: nat)
    requires Uniform(vs, n)
    ensures Spans(vs, vs)
  {
    forall i | 0 <= i < |vs| ensures InSpan(vs[i], vs) { MemberInSpan(i, vs, n); }
  }

  lemma ZerosInSpan(vs: seq<Vec>, n: nat)
    requires Uniform(vs, n)
    ensures InSpan(Zeros(n), vs)
  {
    CombZeros(vs, n);
    assert IsComb(Zeros(|vs|), vs, Zeros(n));
  }

  lemma SumInSpan(u: Vec, v: Vec, vs: seq<Vec>)
    requires |u| == |v| && InSpan(u, vs) && InSpan(v, vs)
    ensures InSpan(AddV(u, v), vs)
  {
    var a, b := Coordinates(u, vs), Coordinates(v, vs);
    CombAdd(a, b, vs, |u|);
    assert IsComb(AddV(a, b), vs, AddV(u, v));
  }

  lemma ScaledInSpan(c: byte, v: Vec, vs: seq<Vec>)
    requires InSpan(v, vs)
    ensures InSpan(ScaleV(c, v), vs)
  {
    var a := Coordinates(v, vs);
    CombScale(c, a, vs, |v|);
    assert IsComb(ScaleV(c, a), vs, ScaleV(c, v));
  }

  /** `cs` applied to a family spanned by `vs` gives a vector spanned by `vs`. */
  lemma SpanTransitive(v: Vec, us: seq<Vec>, vs: seq<Vec>)
    requires InSpan(v, us) && Spans(vs, us) && Uniform(vs, |v|)
    ensures InSpan(v, vs)
  {
    var c := Coordinates(v, us);
    var t := seq(|us|, i requires 0 <= i < |us| => Coordinates(us[i], vs));
    assert Combs(t, vs, |v|) == us;
    CombCombs(c, t, vs, |v|);
    assert IsComb(Comb(c, t, |vs|), vs, v);
  }

  lemma SpansTransitive(us: seq<Vec>, vs: seq<Vec>, ws: seq<Vec>, n: nat)
    requires Uniform(us, n) && Uniform(vs, n) && Uniform(ws, n)
    requires Spans(us, vs) && Spans(vs, ws)
    ensures Spans(us, ws)
  {
    forall i | 0 <= i < |ws| ensures InSpan(ws[i], us) { SpanTransitive(ws[i], vs, us); }
  }

  lemma SameSpanTransitive(us: seq<Vec>, vs: seq<Vec>, ws: seq<Vec>, n: nat)
    requires Uniform(us, n) && Uniform(vs, n) && Uniform(ws, n)
    requires SameSpan(us, vs) && SameSpan(vs, ws)
    ensures SameSpan(us, ws)
  {
    SpansTransitive(us, vs, ws, n);
    SpansTransitive(ws, vs, us, n);
  }

  lemma LargerFamilySpans(v: Vec, vs: seq<Vec>, us: seq<Vec>)
    requires InSpan(v, vs) && Uniform(us, |v|)
    ensures InSpan(v, vs + us)
  {
    forall i | 0 <= i < |vs| ensures InSpan(vs[i], vs + us) {
      MemberInSpan(i, vs + us, |v|);
      assert (vs + us)[i] == vs[i];
    }
    SpanTransitive(v, vs, vs + us);
  }

  /** A vector orthogonal to a family is orthogonal to everything the family spans. */
  lemma SpanKernel(v: Vec, vs: seq<Vec>, w: Vec)
    requires InSpan(v, vs) && |v| == |w| && Apply(vs, w) == Zeros(|vs|)
    ensures Dot(v, w) == 0
  {
    var c := Coordinates(v, vs);
    DotExchange(c, vs, w);
    DotZeros(c);
  }

  // ---------- Exchange lemma ----------

  function RemoveAt<T>(s: seq<T>, p: nat): (r: seq<T>)
    requires p < |s|
    ensures |r| == |s| - 1
  {
    s[..p] + s[p + 1..]
  }

  function InsertAt<T>(s: seq<T>, p: nat, x: T): (r: seq<T>)
    requires p <= |s|
    ensures |r| == |s| + 1
  {
    s[..p] + [x] + s[p..]
  }

  /** Re-inserting a vector with coefficient `x` adds `x` times that vector. */
  lemma CombInsert(c: Vec, vs: seq<Vec>, p: nat, x: byte, n: nat)
    requires p < |vs| && |c| == |vs| - 1 && Uniform(vs, n)
    ensures Comb(InsertAt(c, p, x), vs, n) == AddV(Comb(c, RemoveAt(vs, p), n), ScaleV(x, vs[p]))
  {
    var a, b, us, ws := c[..p], c[p..], vs[..p], vs[p + 1..];
    assert vs == us + [vs[p]] + ws && c == a + b;
    CombConcat(a + [x], us + [vs[p]], b, ws, n);
    CombSnoc(a, us, x, vs[p]);
    CombConcat(a, us, b, ws, n);
    var p0, p1, p2 := Comb(a, us, n), Comb(b, ws, n), ScaleV(x, vs[p]);
    AddVAssoc(p0, p2, p1);
    AddVLaws(p2, p1);
    AddVAssoc(p0, p1, p2);
  }

  /** The first `c` columns of a family. */
  function Prefixes(vs: seq<Vec>, c: nat): (r: seq<Vec>)
    requires AtLeast(vs, c)
    ensures |r| == |vs| && Uniform(r, c)
  {
    seq(|vs|, i requires 0 <= i < |vs| => vs[i][..c])
  }

  lemma UniformPrefixes(vs: seq<Vec>, n: nat)
    requires Uniform(vs, n)
    ensures Prefixes(vs, n) == vs
  {
    forall i | 0 <= i < |vs| ensures Prefixes(vs, n)[i] == vs[i] {}
  }

  /** A combination vanishes when it vanishes both on the first `b` columns and on the last one. */
  lemma VanishByParts(c: Vec, vs: seq<Vec>, b: nat)
    requires |c| == |vs| && Uniform(vs, b + 1)
    requires Comb(c, Prefixes(vs, b), b) == Zeros(b) && Dot(c, Col(vs, b + 1, b)) == 0
    ensures Comb(c, vs, b + 1) == Zeros(b + 1)
  {
    var whole := Comb(c, vs, b + 1);
    forall j | 0 <= j < b + 1 ensures whole[j] == 0 {
      if j < b {
        assert Col(Prefixes(vs, b), b, j) == Col(vs, b + 1, j);
        assert Comb(c, Prefixes(vs, b), b)[j] == 0;
      }
    }
  }

  /** More vectors than coordinates are dependent. */
  lemma {:induction false} TooManyVectors(vs: seq<Vec>, b: nat) returns (c: Vec)
    requires Uniform(vs, b) && |vs| > b
    ensures |c| == |vs| && c != Zeros(|vs|) && Comb(c, vs, b) == Zeros(b)
    decreases b, 1
  {
    if b == 0 {
      c := Unit(|vs|, 0);
      assert c[0] == 1;
    } else if p :| 0 <= p < |vs| && vs[p][b - 1] != 0 {
      c := EliminateAndRecurse(vs, b, p);
    } else {
      c := TooManyVectors(Prefixes(vs, b - 1), b - 1);
      assert Col(vs, b, b - 1) == Zeros(|c|);
      DotZeros(c);
      VanishByParts(c, vs, b - 1);
    }
  }

  /** Every vector minus a multiple of the pivot. */
  function ClearedBy(us: seq<Vec>, f: Vec, pivot: Vec): (r: seq<Vec>)
    requires |f| == |us| && Uniform(us, |pivot|)
    ensures |r| == |us| && Uniform(r, |pivot|)
  {
    seq(|us|, i requires 0 <= i < |us| => AddV(us[i], ScaleV(f[i], pivot)))
  }

  /** The multiples that cancel column `c`. */
  function Multiples(us: seq<Vec>, n: nat, c: nat, inv: byte): (f: Vec)
    requires Uniform(us, n) && c < n
    ensures |f| == |us|
  {
    seq(|us|, i requires 0 <= i < |us| => Mul(us[i][c], inv))
  }

  lemma ClearedColumn(us: seq<Vec>, pivot: Vec, c: nat, inv: byte)
    requires Uniform(us, |pivot|) && c < |pivot| && Mul(pivot[c], inv) == 1
    ensures Col(ClearedBy(us, Multiples(us, |pivot|, c, inv), pivot), |pivot|, c) == Zeros(|us|)
  {
    forall i | 0 <= i < |us| ensures Add(us[i][c], Mul(Mul(us[i][c], inv), pivot[c])) == 0 {
      CancelEntry(us[i][c], pivot[c], inv);
    }
  }

  /** The pivot case: clear the last column of the other vectors, recurse, and put the pivot back. */
  lemma {:induction false} EliminateAndRecurse(vs: seq<Vec>, b: nat, p: nat) returns (c: Vec)
    requires Uniform(vs, b) && |vs| > b > 0 && p < |vs| && vs[p][b - 1] != 0
    ensures |c| == |vs| && c != Zeros(|vs|) && Comb(c, vs, b) == Zeros(b)
    decreases b, 0
  {
    var us, pivot := RemoveAt(vs, p), vs[p];
    InvCorrect(pivot[b - 1]);
    var inv := Inv(pivot[b - 1]).value;
    var f := Multiples(us, b, b - 1, inv);
    var cleared := ClearedBy(us, f, pivot);
    ClearedColumn(us, pivot, b - 1, inv);
    var d := TooManyVectors(Prefixes(cleared, b - 1), b - 1);
    ClearedVanishes(d, cleared, b);
    PutBack(d, vs, b, p, f);
    c := InsertAt(d, p, Dot(d, f));
    NonZeroInsert(d, p, Dot(d, f));
  }

  lemma ClearedVanishes(d: Vec, cleared: seq<Vec>, b: nat)
    requires b > 0 && |d| == |cleared| && Uniform(cleared, b) && Col(cleared, b, b - 1) == Zeros(|d|)
    requires Comb(d, Prefixes(cleared, b - 1), b - 1) == Zeros(b - 1)
    ensures Comb(d, cleared, b) == Zeros(b)
  {
    DotZeros(d);
    VanishByParts(d, cleared, b - 1);
  }

  /** What vanishes over the cleared vectors vanishes over all once the pivot has its scalar back. */
  lemma PutBack(d: Vec, vs: seq<Vec>, b: nat, p: nat, f: Vec)
    requires Uniform(vs, b) && p < |vs| && |d| == |f| == |vs| - 1
    requires Comb(d, ClearedBy(RemoveAt(vs, p), f, vs[p]), b) == Zeros(b)
    ensures Comb(InsertAt(d, p, Dot(d, f)), vs, b) == Zeros(b)
  {
    CombOfCleared(d, RemoveAt(vs, p), f, vs[p]);
    CombInsert(d, vs, p, Dot(d, f), b);
  }

  /** `x` plus `x / y` times `y` is zero. */
  lemma CancelEntry(x: byte, y: byte, inv: byte)
    requires Mul(y, inv) == 1
    ensures Add(x, Mul(Mul(x, inv), y)) == 0
  {
    MulAssoc(x, inv, y);
    MulComm(inv, y);
    MulOne(x);
    AddSelf(x);
  }

  lemma NonZeroInsert(d: Vec, p: nat, x: byte)
    requires p <= |d| && d != Zeros(|d|)
    ensures InsertAt(d, p, x) != Zeros(|d| + 1)
  {
    var i :| 0 <= i < |d| && d[i] != 0;
    assert InsertAt(d, p, x)[if i < p then i else i + 1] == d[i];
  }

  lemma CombOfCleared(d: Vec, us: seq<Vec>, f: Vec, pivot: Vec)
    requires |d| == |us| == |f| && Uniform(us, |pivot|)
    ensures Comb(d, ClearedBy(us, f, pivot), |pivot|) == AddV(Comb(d, us, |pivot|), ScaleV(Dot(d, f), pivot))
  {
    var n := |pivot|;
    var cleared := ClearedBy(us, f, pivot);
    forall j | 0 <= j < n
      ensures Dot(d, Col(cleared, n, j)) == Add(Dot(d, Col(us, n, j)), Mul(Dot(d, f), pivot[j]))
    {
      var scaled := ScaleV(pivot[j], f);
      assert Col(cleared, n, j) == AddV(Col(us, n, j), scaled) by {
        forall i | 0 <= i < |us| ensures Mul(f[i], pivot[j]) == Mul(pivot[j], f[i]) {
          MulComm(f[i], pivot[j]);
        }
      }
      DotComm(d, Col(cleared, n, j));
      DotAdd(Col(us, n, j), scaled, d);
      DotScale(pivot[j], f, d);
      DotComm(f, d);
      DotComm(Col(us, n, j), d);
      MulComm(pivot[j], Dot(d, f));
    }
  }

  lemma TooManyAreDependent(us: seq<Vec>, vs: seq<Vec>, n: nat)
    requires Uniform(us, n) && Uniform(vs, n) && Spans(vs, us) && |us| > |vs|
    ensures !Independent(us, n)
  {
    var t := seq(|us|, i requires 0 <= i < |us| => Coordinates(us[i], vs));
    assert Combs(t, vs, n) == us;
    var c := TooManyVectors(t, |vs|);
    CombCombs(c, t, vs, n);
    CombZeros(vs, n);
    assert IsComb(c, us, Zeros(n));
  }

  /** Steinitz: an independent family is no larger than a family that spans it. */
  lemma Exchange(us: seq<Vec>, vs: seq<Vec>, n: nat)
    requires Uniform(us, n) && Uniform(vs, n) && Independent(us, n) && Spans(vs, us)
    ensures |us| <= |vs|
  {
    if |us| > |vs| {
      TooManyAreDependent(us, vs, n);
    }
  }

  // ---------- Rank ----------

  /** The number of vectors that are not combinations of the vectors before them. */
  ghost function Rank(vs: seq<Vec>): nat {
    if |vs| == 0 then 0
    else Rank(vs[..|vs| - 1]) + (if InSpan(vs[|vs| - 1], vs[..|vs| - 1]) then 0 else 1)
  }

  /** The vectors that `Rank` counts. */
  ghost function Basis(vs: seq<Vec>): seq<Vec> {
    if |vs| == 0 then []
    else
      var init, last := vs[..|vs| - 1], vs[|vs| - 1];
      if InSpan(last, init) then Basis(init) else Basis(init) + [last]
  }

  lemma IndependentExtend(bs: seq<Vec>, v: Vec)
    requires Uniform(bs, |v|) && Independent(bs, |v|) && !InSpan(v, bs)
    ensures Independent(bs + [v], |v|)
  {
    var n := |v|;
    forall cs: Vec | IsComb(cs, bs + [v], Zeros(n)) ensures cs == Zeros(|bs| + 1) {
      var m := |bs|;
      assert cs == cs[..m] + [cs[m]];
      CombSnoc(cs[..m], bs, cs[m], v);
      var rest, last := Comb(cs[..m], bs, n), ScaleV(cs[m], v);
      AddVEqualsZero(rest, last);
      if cs[m] == 0 {
        ScaleVLaws(0, 0, v);
        assert IsComb(cs[..m], bs, Zeros(n));
      } else {
        InvCorrect(cs[m]);
        var inv := Inv(cs[m]).value;
        MulComm(inv, cs[m]);
        ScaleVLaws(inv, cs[m], v);
        assert IsComb(cs[..m], bs, last);
        ScaledInSpan(inv, last, bs);
      }
    }
  }

  lemma {:induction false} BasisCorrect(vs: seq<Vec>, n: nat)
    requires Uniform(vs, n)
    ensures |Basis(vs)| == Rank(vs)
    ensures Uniform(Basis(vs), n) && Independent(Basis(vs), n)
    ensures SameSpan(Basis(vs), vs)
    ensures forall b :: b in Basis(vs) ==> b in vs
  {
    if |vs| > 0 {
      var init, last := vs[..|vs| - 1], vs[|vs| - 1];
      BasisCorrect(init, n);
      var bs := Basis(init);
      assert vs == init + [last];
      forall i | 0 <= i < |bs| ensures InSpan(bs[i], vs) { LargerFamilySpans(bs[i], init, [last]); }
      if InSpan(last, init) {
        SpanTransitive(last, init, bs);
      } else {
        if InSpan(last, bs) { SpanTransitive(last, bs, init); }
        IndependentExtend(bs, last);
        forall i | 0 <= i < |init| ensures InSpan(init[i], bs + [last]) {
          LargerFamilySpans(init[i], bs, [last]);
        }
        MemberInSpan(|bs|, bs + [last], n);
        MemberInSpan(|init|, vs, n);
      }
    }
  }

  /** Every independent family with the same span has exactly `Rank` vectors. */
  lemma RankUnique(bs: seq<Vec>, vs: seq<Vec>, n: nat)
    requires Uniform(bs, n) && Uniform(vs, n) && Independent(bs, n) && SameSpan(bs, vs)
    ensures |bs| == Rank(vs)
  {
    BasisCorrect(vs, n);
    SameSpanTransitive(bs, vs, Basis(vs), n);
    Exchange(bs, Basis(vs), n);
    Exchange(Basis(vs), bs, n);
  }

  lemma RankMonotone(us: seq<Vec>, vs: seq<Vec>, n: nat)
    requires Uniform(us, n) && Uniform(vs, n) && Spans(vs, us)
    ensures Rank(us) <= Rank(vs)
  {
    BasisCorrect(us, n);
    BasisCorrect(vs, n);
    SpansTransitive(vs, us, Basis(us), n);
    SpansTransitive(Basis(vs), vs, Basis(us), n);
    Exchange(Basis(us), Basis(vs), n);
  }

  /** The rank depends only on which vectors occur: order and repetition do not matter. */
  lemma RankOfSameVectors(us: seq<Vec>, vs: seq<Vec>, n: nat)
    requires Uniform(us, n) && Uniform(vs, n) && (forall v :: v in us <==> v in vs)
    ensures Rank(us) == Rank(vs)
  {
    SpansMembers(us, vs, n);
    SpansMembers(vs, us, n);
    RankMonotone(us, vs, n);
    RankMonotone(vs, us, n);
  }

  lemma SpansMembers(us: seq<Vec>, vs: seq<Vec>, n: nat)
    requires Uniform(us, n) && Uniform(vs, n) && forall v :: v in us ==> v in vs
    ensures Spans(vs, us)
  {
    forall i | 0 <= i < |us| ensures InSpan(us[i], vs) {
      assert us[i] in vs;
      var j :| 0 <= j < |vs| && vs[j] == us[i];
      MemberInSpan(j, vs, n);
    }
  }

  lemma {:induction false} RankAtMostLength(vs: seq<Vec>)
    ensures Rank(vs) <= |vs|
  {
    if |vs| > 0 { RankAtMostLength(vs[..|vs| - 1]); }
  }

  lemma IdentityIndependent(n: nat)
    ensures Independent(Identity(n), n)
  {
    forall cs: Vec | IsComb(cs, Identity(n), Zeros(n)) ensures cs == Zeros(n) {
      CombIdentity(cs);
    }
  }

  lemma IdentitySpans(v: Vec)
    ensures InSpan(v, Identity(|v|))
  {
    CombIdentity(v);
    assert IsComb(v, Identity(|v|), v);
  }

  lemma RankAtMostDimension(vs: seq<Vec>, n: nat)
    requires Uniform(vs, n)
    ensures Rank(vs) <= n
  {
    forall i | 0 <= i < |vs| ensures InSpan(vs[i], Identity(n)) { IdentitySpans(vs[i]); }
    RankMonotone(vs, Identity(n), n);
    RankAtMostLength(Identity(n));
  }

  /** A family has full rank exactly when it is independent. */
  lemma FullRankIffIndependent(vs: seq<Vec>, n: nat)
    requires Uniform(vs, n)
    ensures Rank(vs) == |vs| <==> Independent(vs, n)
  {
    if Independent(vs, n) {
      SpansSelf(vs, n);
      RankUnique(vs, vs, n);
    }
    if Rank(vs) == |vs| {
      BasisCorrect(vs, n);
      BasisOfFullRank(vs);
    }
  }

  lemma {:induction false} BasisOfFullRank(vs: seq<Vec>)
    requires Rank(vs) == |vs|
    ensures Basis(vs) == vs
  {
    if |vs| > 0 {
      var init, last := vs[..|vs| - 1], vs[|vs| - 1];
      RankAtMostLength(init);
      BasisOfFullRank(init);
      assert vs == init + [last];
    }
  }

  /** The rank equals the dimension exactly when the family spans the whole space. */
  lemma FullRankIffSpansAll(vs: seq<Vec>, n: nat)
    requires Uniform(vs, n)
    ensures Rank(vs) == n <==> forall v: Vec :: |v| == n ==> InSpan(v, vs)
  {
    RankAtMostDimension(vs, n);
    if Rank(vs) == n {
      forall v: Vec | |v| == n ensures InSpan(v, vs) {
        if !InSpan(v, vs) {
          assert (vs + [v])[..|vs|] == vs;
          RankAtMostDimension(vs + [v], n);
        }
      }
    }
    if forall v: Vec :: |v| == n ==> InSpan(v, vs) {
      IdentityIndependent(n);
      FullRankIffIndependent(Identity(n), n);
      RankMonotone(Identity(n), vs, n);
    }
  }

  lemma RankAppend(vs: seq<Vec>, v: Vec)
    ensures Rank(vs + [v]) == Rank(vs) + (if InSpan(v, vs) then 0 else 1)
  {
    assert (vs + [v])[..|vs|] == vs;
  }

  // ---------- Vectors orthogonal to a family ----------

  /** The columns of a family, as vectors. */
  function Columns(vs: seq<Vec>, n: nat): (r: seq<Vec>)
    requires Uniform(vs, n)
    ensures |r| == n && Uniform(r, |vs|)
  {
    seq(n, j requires 0 <= j < n => Col(vs, n, j))
  }

  /** Fewer vectors than coordinates leave a vector that is orthogonal to all of them. */
  lemma ShortFamilyKernel(vs: seq<Vec>, n: nat) returns (w: Vec)
    requires Uniform(vs, n) && |vs| < n
    ensures |w| == n && w != Zeros(n) && Apply(vs, w) == Zeros(|vs|)
  {
    var t := Columns(vs, n);
    w := TooManyVectors(t, |vs|);
    forall i | 0 <= i < |vs| ensures Dot(vs[i], w) == 0 {
      assert Col(t, |vs|, i) == vs[i];
      assert Comb(w, t, |vs|)[i] == 0;
      DotComm(w, vs[i]);
    }
  }

  /** A family of less than full rank leaves a non-zero vector orthogonal to all of it. */
  lemma LowRankKernel(vs: seq<Vec>, n: nat) returns (w: Vec)
    requires Uniform(vs, n) && Rank(vs) < n
    ensures |w| == n && w != Zeros(n) && Apply(vs, w) == Zeros(|vs|)
  {
    BasisCorrect(vs, n);
    w := ShortFamilyKernel(Basis(vs), n);
    forall i | 0 <= i < |vs| ensures Dot(vs[i], w) == 0 {
      SpanKernel(vs[i], Basis(vs), w);
    }
  }

  /** A family of full rank leaves only the zero vector. */
  lemma FullRankKernel(vs: seq<Vec>, w: Vec)
    requires Uniform(vs, |w|) && Rank(vs) == |w| && Apply(vs, w) == Zeros(|vs|)
    ensures w == Zeros(|w|)
  {
    FullRankIffSpansAll(vs, |w|);
    forall i | 0 <= i < |w| ensures w[i] == 0 {
      SpanKernel(Unit(|w|, i), vs, w);
      DotUnit(i, w);
    }
  }
}
