/** Vectors over GF(2^8): dot products and linear combinations of any length. */
module Vectors {
  import opened Bytes
  import opened GF256

  type Vec = seq<byte>

  /** All vectors of a family have length `n`. */
  predicate Uniform(vs: seq<Vec>, n: nat) {
    forall i :: 0 <= i < |vs| ==> |vs[i]| == n
  }

  /** All vectors of a family have at least `n` entries. */
  predicate AtLeast(vs: seq<Vec>, n: nat) {
    forall i :: 0 <= i < |vs| ==> |vs[i]| >= n
  }

  function Zeros(n: nat): Vec {
    seq(n, _ => 0)
  }

  /** The i-th standard basis vector. */
  function Unit(n: nat, i: nat): Vec {
    seq(n, j => if j == i then 1 else 0)
  }

  function Identity(n: nat): (e: seq<Vec>)
    ensures Uniform(e, n)
  {
    seq(n, i requires 0 <= i => Unit(n, i))
  }

  /** The bytes of `data` from `start`, zero-padded to `size`. */
  function Padded(data: Vec, start: nat, size: nat): (p: Vec)
    ensures |p| == size
  {
    seq(size, i requires 0 <= i => if start + i < |data| then data[start + i] else 0)
  }

  function AddV(a: Vec, b: Vec): Vec
    requires |a| == |b|
  {
    seq(|a|, i requires 0 <= i < |a| => Add(a[i], b[i]))
  }

  function ScaleV(c: byte, a: Vec): Vec {
    seq(|a|, i requires 0 <= i < |a| => Mul(c, a[i]))
  }

  function Dot(a: Vec, b: Vec): byte
    requires |a| == |b|
  {
    if |a| == 0 then 0
    else Add(Dot(a[..|a| - 1], b[..|b| - 1]), Mul(a[|a| - 1], b[|b| - 1]))
  }

  /** The j-th coordinates of a family. */
  function Col(vs: seq<Vec>, n: nat, j: nat): Vec
    requires Uniform(vs, n) && j < n
  {
    seq(|vs|, i requires 0 <= i < |vs| => vs[i][j])
  }

  /** The linear combination of the family `vs` with coefficients `cs`. */
  function Comb(cs: Vec, vs: seq<Vec>, n: nat): Vec
    requires |cs| == |vs| && Uniform(vs, n)
  {
    seq(n, j requires 0 <= j < n => Dot(cs, Col(vs, n, j)))
  }

  /** The dot products of each vector of a family with `w`. */
  function Apply(vs: seq<Vec>, w: Vec): Vec
    requires Uniform(vs, |w|)
  {
    seq(|vs|, i requires 0 <= i < |vs| => Dot(vs[i], w))
  }

  // ---------- Vector space laws ----------

  lemma AddVLaws(a: Vec, b: Vec)
    requires |a| == |b|
    ensures AddV(a, b) == AddV(b, a)
    ensures AddV(a, Zeros(|a|)) == a
    ensures AddV(AddV(a, b), b) == a
    ensures AddV(a, a) == Zeros(|a|)
  {
    forall i | 0 <= i < |a|
      ensures Add(a[i], b[i]) == Add(b[i], a[i])
      ensures Add(a[i], 0) == a[i]
      ensures Add(Add(a[i], b[i]), b[i]) == a[i]
      ensures Add(a[i], a[i]) == 0
    {
      AddComm(a[i], b[i]);
      AddZero(a[i]);
      AddCancel(a[i], b[i]);
      AddSelf(a[i]);
    }
  }

  lemma AddVAssoc(a: Vec, b: Vec, c: Vec)
    requires |a| == |b| == |c|
    ensures AddV(AddV(a, b), c) == AddV(a, AddV(b, c))
  {
    forall i | 0 <= i < |a| ensures Add(Add(a[i], b[i]), c[i]) == Add(a[i], Add(b[i], c[i])) {
      AddAssoc(a[i], b[i], c[i]);
    }
  }

  lemma AddVEqualsZero(a: Vec, b: Vec)
    requires |a| == |b|
    ensures AddV(a, b) == Zeros(|a|) <==> a == b
  {
    AddVLaws(a, a);
    if AddV(a, b) == Zeros(|a|) {
      forall i | 0 <= i < |a| ensures a[i] == b[i] {
        AddCancel(a[i], b[i]);
        assert AddV(a, b)[i] == 0;
      }
    }
  }

  lemma ScaleVLaws(c: byte, d: byte, a: Vec)
    ensures ScaleV(c, ScaleV(d, a)) == ScaleV(Mul(c, d), a)
    ensures ScaleV(1, a) == a
    ensures ScaleV(0, a) == Zeros(|a|)
    ensures ScaleV(c, Zeros(|a|)) == Zeros(|a|)
  {
    forall i | 0 <= i < |a|
      ensures Mul(c, Mul(d, a[i])) == Mul(Mul(c, d), a[i])
      ensures Mul(1, a[i]) == a[i] && Mul(0, a[i]) == 0 && Mul(c, 0) == 0
    {
      MulAssoc(c, d, a[i]);
      MulOne(a[i]);
      MulZero(a[i]);
      MulZero(c);
    }
  }

  // ---------- Dot product laws ----------

  lemma {:induction false} DotComm(a: Vec, b: Vec)
    requires |a| == |b|
    ensures Dot(a, b) == Dot(b, a)
  {
    if |a| > 0 {
      var n := |a| - 1;
      DotComm(a[..n], b[..n]);
      MulComm(a[n], b[n]);
    }
  }

  lemma {:induction false} DotAdd(a: Vec, b: Vec, w: Vec)
    requires |a| == |b| == |w|
    ensures Dot(AddV(a, b), w) == Add(Dot(a, w), Dot(b, w))
  {
    if |a| == 0 {
      AddZero(0);
    } else {
      var n := |a| - 1;
      DotAdd(a[..n], b[..n], w[..n]);
      assert AddV(a, b)[..n] == AddV(a[..n], b[..n]);
      MulDistributes(a[n], b[n], w[n]);
      AddInterchange(Dot(a[..n], w[..n]), Dot(b[..n], w[..n]), Mul(a[n], w[n]), Mul(b[n], w[n]));
    }
  }

  lemma {:induction false} DotScale(c: byte, a: Vec, w: Vec)
    requires |a| == |w|
    ensures Dot(ScaleV(c, a), w) == Mul(c, Dot(a, w))
  {
    if |a| == 0 {
      MulZero(c);
    } else {
      var n := |a| - 1;
      DotScale(c, a[..n], w[..n]);
      assert ScaleV(c, a)[..n] == ScaleV(c, a[..n]);
      MulAssoc(c, a[n], w[n]);
      MulDistributes(Dot(a[..n], w[..n]), Mul(a[n], w[n]), c);
    }
  }

  lemma {:induction false} DotZeros(w: Vec)
    ensures Dot(Zeros(|w|), w) == 0 && Dot(w, Zeros(|w|)) == 0
  {
    if |w| > 0 {
      var n := |w| - 1;
      DotZeros(w[..n]);
      assert Zeros(|w|)[..n] == Zeros(n);
      MulZero(w[n]);
      AddZero(0);
    }
  }

  lemma {:induction false} DotUnit(i: nat, w: Vec)
    requires i < |w|
    ensures Dot(Unit(|w|, i), w) == w[i] && Dot(w, Unit(|w|, i)) == w[i]
  {
    var n := |w| - 1;
    MulOne(w[n]);
    MulZero(w[n]);
    AddZero(w[n]);
    AddZero(w[i]);
    if i == n {
      assert Unit(|w|, i)[..n] == Zeros(n);
      DotZeros(w[..n]);
    } else {
      assert Unit(|w|, i)[..n] == Unit(n, i);
      DotUnit(i, w[..n]);
    }
  }

  lemma {:induction false} DotConcat(a: Vec, b: Vec, c: Vec, d: Vec)
    requires |a| == |c| && |b| == |d|
    ensures Dot(a + b, c + d) == Add(Dot(a, c), Dot(b, d))
  {
    if |b| == 0 {
      assert a + b == a && c + d == c;
      AddZero(Dot(a, c));
    } else {
      var n := |b| - 1;
      DotConcat(a, b[..n], c, d[..n]);
      assert (a + b)[..|a| + n] == a + b[..n] && (c + d)[..|c| + n] == c + d[..n];
      AddAssoc(Dot(a, c), Dot(b[..n], d[..n]), Mul(b[n], d[n]));
    }
  }

  // ---------- Linear combination laws ----------

  lemma CombAdd(a: Vec, b: Vec, vs: seq<Vec>, n: nat)
    requires |a| == |b| == |vs| && Uniform(vs, n)
    ensures Comb(AddV(a, b), vs, n) == AddV(Comb(a, vs, n), Comb(b, vs, n))
  {
    forall j | 0 <= j < n
      ensures Dot(AddV(a, b), Col(vs, n, j)) == Add(Dot(a, Col(vs, n, j)), Dot(b, Col(vs, n, j)))
    {
      DotAdd(a, b, Col(vs, n, j));
    }
  }

  lemma CombScale(c: byte, a: Vec, vs: seq<Vec>, n: nat)
    requires |a| == |vs| && Uniform(vs, n)
    ensures Comb(ScaleV(c, a), vs, n) == ScaleV(c, Comb(a, vs, n))
  {
    forall j | 0 <= j < n ensures Dot(ScaleV(c, a), Col(vs, n, j)) == Mul(c, Dot(a, Col(vs, n, j))) {
      DotScale(c, a, Col(vs, n, j));
    }
  }

  lemma CombUnit(i: nat, vs: seq<Vec>, n: nat)
    requires i < |vs| && Uniform(vs, n)
    ensures Comb(Unit(|vs|, i), vs, n) == vs[i]
  {
    forall j | 0 <= j < n ensures Dot(Unit(|vs|, i), Col(vs, n, j)) == vs[i][j] {
      DotUnit(i, Col(vs, n, j));
    }
  }

  lemma CombZeros(vs: seq<Vec>, n: nat)
    requires Uniform(vs, n)
    ensures Comb(Zeros(|vs|), vs, n) == Zeros(n)
  {
    forall j | 0 <= j < n ensures Dot(Zeros(|vs|), Col(vs, n, j)) == 0 {
      DotZeros(Col(vs, n, j));
    }
  }

  lemma CombConcat(a: Vec, us: seq<Vec>, b: Vec, vs: seq<Vec>, n: nat)
    requires |a| == |us| && |b| == |vs| && Uniform(us, n) && Uniform(vs, n)
    ensures Comb(a + b, us + vs, n) == AddV(Comb(a, us, n), Comb(b, vs, n))
  {
    forall j | 0 <= j < n
      ensures Dot(a + b, Col(us + vs, n, j)) == Add(Dot(a, Col(us, n, j)), Dot(b, Col(vs, n, j)))
    {
      assert Col(us + vs, n, j) == Col(us, n, j) + Col(vs, n, j);
      DotConcat(a, b, Col(us, n, j), Col(vs, n, j));
    }
  }

  lemma CombSingle(c: byte, v: Vec)
    ensures Comb([c], [v], |v|) == ScaleV(c, v)
  {
    forall j | 0 <= j < |v| ensures Dot([c], Col([v], |v|, j)) == Mul(c, v[j]) {
      assert [c][..0] == [] && Col([v], |v|, j)[..0] == [];
      AddZero(Mul(c, v[j]));
    }
  }

  /** One more vector and one more coefficient: the step of every accumulating loop. */
  lemma CombSnoc(cs: Vec, vs: seq<Vec>, c: byte, v: Vec)
    requires |cs| == |vs| && Uniform(vs, |v|)
    ensures Comb(cs + [c], vs + [v], |v|) == AddV(Comb(cs, vs, |v|), ScaleV(c, v))
  {
    CombConcat(cs, vs, [c], [v], |v|);
    CombSingle(c, v);
  }

  lemma CombIdentity(c: Vec)
    ensures Comb(c, Identity(|c|), |c|) == c
  {
    forall j | 0 <= j < |c| ensures Dot(c, Col(Identity(|c|), |c|, j)) == c[j] {
      assert Col(Identity(|c|), |c|, j) == Unit(|c|, j);
      DotUnit(j, c);
    }
  }

  /** Combining the products of a family with `w` is the product of the combination with `w`. */
  lemma {:induction false} DotExchange(c: Vec, vs: seq<Vec>, w: Vec)
    requires |c| == |vs| && Uniform(vs, |w|)
    ensures Dot(c, Apply(vs, w)) == Dot(Comb(c, vs, |w|), w)
  {
    if |c| == 0 {
      assert Comb(c, vs, |w|) == Zeros(|w|);
      DotZeros(w);
    } else {
      var m := |c| - 1;
      DotExchange(c[..m], vs[..m], w);
      assert c == c[..m] + [c[m]] && vs == vs[..m] + [vs[m]];
      CombSnoc(c[..m], vs[..m], c[m], vs[m]);
      assert Apply(vs, w)[..m] == Apply(vs[..m], w);
      DotAdd(Comb(c[..m], vs[..m], |w|), ScaleV(c[m], vs[m]), w);
      DotScale(c[m], vs[m], w);
    }
  }

  /** The family of combinations of `vs` given by the rows of `t`. */
  function Combs(t: seq<Vec>, vs: seq<Vec>, n: nat): (r: seq<Vec>)
    requires Uniform(t, |vs|) && Uniform(vs, n)
    ensures Uniform(r, n)
  {
    seq(|t|, i requires 0 <= i < |t| => Comb(t[i], vs, n))
  }

  /** Combinations compose: this is associativity of the matrix product. */
  lemma CombCombs(c: Vec, t: seq<Vec>, vs: seq<Vec>, n: nat)
    requires |c| == |t| && Uniform(t, |vs|) && Uniform(vs, n)
    ensures Comb(c, Combs(t, vs, n), n) == Comb(Comb(c, t, |vs|), vs, n)
  {
    forall j | 0 <= j < n
      ensures Dot(c, Col(Combs(t, vs, n), n, j)) == Dot(Comb(c, t, |vs|), Col(vs, n, j))
    {
      assert Col(Combs(t, vs, n), n, j) == Apply(t, Col(vs, n, j));
      DotExchange(c, t, Col(vs, n, j));
    }
  }
}
