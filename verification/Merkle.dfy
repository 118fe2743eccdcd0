/** The Merkle root over 32-byte leaves: padding, level-by-level merging, and what the root binds. */
module Merkle {
  import opened Bytes
  import opened Numbers

  /** The hash function is a parameter; collisions are exhibited, never excluded. */
  type Sha256 = seq<byte> -> Bytes32

  function NextPowerOfTwo(n: nat): (p: nat)
    requires n > 0
  {
    PowerFrom(1, n)
  }

  function PowerFrom(p: nat, n: nat): nat
    requires p > 0
    decreases if p < n then n - p else 0
  {
    if p >= n then p else PowerFrom(2 * p, n)
  }

  ghost predicate PowerOfTwo(n: nat) {
    n == 1 || (n > 1 && n % 2 == 0 && PowerOfTwo(n / 2))
  }

  /** The least power of two that is at least `n`. */
  lemma {:induction false} PowerFromIsLeast(p: nat, n: nat)
    requires PowerOfTwo(p) && (p == 1 || p / 2 < n)
    ensures PowerOfTwo(PowerFrom(p, n)) && PowerFrom(p, n) >= n
    ensures PowerFrom(p, n) == 1 || PowerFrom(p, n) / 2 < n
    decreases if p < n then n - p else 0
  {
    if p < n {
      PowerFromIsLeast(2 * p, n);
    }
  }

  function Pad(leaves: seq<Bytes32>): seq<Bytes32>
    requires |leaves| > 0
  {
    PowerFromIsLeast(1, |leaves|);
    leaves + seq(NextPowerOfTwo(|leaves|) - |leaves|, _ => Zero32())
  }

  // ---------- The tree ----------

  /** The parent of two nodes. */
  function Node(sha: Sha256, left: Bytes32, right: Bytes32): Bytes32 {
    sha(left + right)
  }

  /** The balanced tree over a power-of-two number of leaves. */
  function Tree(sha: Sha256, nodes: seq<Bytes32>): Bytes32
    requires |nodes| > 0
    decreases |nodes|
  {
    if |nodes| == 1 then nodes[0]
    else Node(sha, Tree(sha, nodes[..|nodes| / 2]), Tree(sha, nodes[|nodes| / 2..]))
  }

  /** The root of the zero-padded leaves; the empty list has the zero root. */
  function Root(sha: Sha256, leaves: seq<Bytes32>): Bytes32 {
    if |leaves| == 0 then Zero32() else Tree(sha, Pad(leaves))
  }

  /** One merge level: each adjacent pair is hashed. */
  function Level(sha: Sha256, nodes: seq<Bytes32>): (r: seq<Bytes32>)
    requires |nodes| % 2 == 0
    ensures |r| == |nodes| / 2
  {
    seq(|nodes| / 2, i requires 0 <= i < |nodes| / 2 => Node(sha, nodes[2 * i], nodes[2 * i + 1]))
  }

  lemma LevelConcat(sha: Sha256, a: seq<Bytes32>, b: seq<Bytes32>)
    requires |a| % 2 == 0 && |b| % 2 == 0
    ensures Level(sha, a + b) == Level(sha, a) + Level(sha, b)
  {
    var whole, h := Level(sha, a + b), |a| / 2;
    forall i | 0 <= i < |whole| ensures whole[i] == (Level(sha, a) + Level(sha, b))[i] {
      if i >= h {
        assert (a + b)[2 * i] == b[2 * (i - h)] && (a + b)[2 * i + 1] == b[2 * (i - h) + 1];
      }
    }
  }

  /** Merging one level keeps the root. */
  lemma {:induction false} LevelKeepsRoot(sha: Sha256, nodes: seq<Bytes32>)
    requires PowerOfTwo(|nodes|) && |nodes| > 1
    ensures Tree(sha, Level(sha, nodes)) == Tree(sha, nodes)
    decreases |nodes|
  {
    var h := |nodes| / 2;
    var a, b := nodes[..h], nodes[h..];
    if h == 1 {
      assert Tree(sha, a) == nodes[0] && Tree(sha, b) == nodes[1];
    } else {
      assert nodes == a + b;
      LevelConcat(sha, a, b);
      LevelKeepsRoot(sha, a);
      LevelKeepsRoot(sha, b);
      var l := Level(sha, nodes);
      assert l[..h / 2] == Level(sha, a) && l[h / 2..] == Level(sha, b);
    }
  }

  /** One pass of the merge loop. */
  method MergeLevel(sha: Sha256, nodes: seq<Bytes32>) returns (next: seq<Bytes32>)
    requires |nodes| % 2 == 0
    ensures next == Level(sha, nodes)
  {
    next := [];
    var i := 0;
    while i < |nodes|
      invariant 0 <= i <= |nodes| && i % 2 == 0 && |next| == i / 2
      invariant forall j :: 0 <= j < i / 2 ==> next[j] == Node(sha, nodes[2 * j], nodes[2 * j + 1])
    {
      next := next + [Node(sha, nodes[i], nodes[i + 1])];
      i := i + 2;
    }
  }

  /** Pads to the next power of two, then merges level by level. */
  method ComputeMerkleRoot(sha: Sha256, leaves: seq<Bytes32>) returns (root: Bytes32)
    ensures root == Root(sha, leaves)
  {
    if |leaves| == 0 {
      return Zero32();
    }
    PowerFromIsLeast(1, |leaves|);
    if |leaves| == 1 {
      return leaves[0];
    }
    var n := NextPowerOfTwo(|leaves|);
    var nodes := leaves;
    while |nodes| < n
      invariant |leaves| <= |nodes| <= n
      invariant nodes == leaves + seq(|nodes| - |leaves|, _ => Zero32())
    {
      nodes := nodes + [Zero32()];
    }
    assert nodes == Pad(leaves);
    while |nodes| > 1
      invariant PowerOfTwo(|nodes|) && Tree(sha, nodes) == Root(sha, leaves)
      decreases |nodes|
    {
      LevelKeepsRoot(sha, nodes);
      nodes := MergeLevel(sha, nodes);
    }
    return nodes[0];
  }

  /** The root of few leaves: none at all give the zero root, and one leaf is its own root. */
  lemma RootOfFew(sha: Sha256, leaf: Bytes32)
    ensures Root(sha, []) == seq(32, _ => 0) && Root(sha, [leaf]) == leaf
  {
    PowerFromIsLeast(1, 1);
  }

  /** The root over two halves of one power-of-two size is the hash of the two roots, left before right. */
  lemma RootOfHalves(sha: Sha256, a: seq<Bytes32>, b: seq<Bytes32>)
    requires |a| == |b| && PowerOfTwo(|a|)
    ensures Root(sha, a + b) == sha(Root(sha, a) + Root(sha, b))
  {
    PaddedPower(a);
    PaddedPower(b);
    PaddedPower(a + b);
    assert (a + b)[..|a|] == a && (a + b)[|a|..] == b;
  }

  lemma PaddedPower(leaves: seq<Bytes32>)
    requires PowerOfTwo(|leaves|)
    ensures Pad(leaves) == leaves
  {
    PowerFromIsLeast(1, |leaves|);
    PowersApart(NextPowerOfTwo(|leaves|), |leaves|);
  }

  // ---------- Binding ----------

  ghost predicate Collision(sha: Sha256, x: seq<byte>, y: seq<byte>) {
    x != y && sha(x) == sha(y)
  }

  /** The strings that are hashed to compute the tree over the nodes. */
  ghost function Inputs(sha: Sha256, nodes: seq<Bytes32>): set<seq<byte>>
    requires |nodes| > 0
    decreases |nodes|
  {
    if |nodes| == 1 then {}
    else
      var l, r := nodes[..|nodes| / 2], nodes[|nodes| / 2..];
      {Tree(sha, l) + Tree(sha, r)} + Inputs(sha, l) + Inputs(sha, r)
  }

  /** A collision between two computations: different strings, one hashed by each, with the same hash.
      Some collision always exists; one among the strings that were really hashed need not. */
  ghost predicate Clash(sha: Sha256, x: seq<byte>, y: seq<byte>, xs: set<seq<byte>>, ys: set<seq<byte>>) {
    Collision(sha, x, y) && x in xs && y in ys
  }

  /** Two node lists of one length with the same root are the same, or their two trees clash. */
  lemma {:induction false} TreeBinds(sha: Sha256, a: seq<Bytes32>, b: seq<Bytes32>) returns (x: seq<byte>, y: seq<byte>)
    requires |a| == |b| > 0 && Tree(sha, a) == Tree(sha, b)
    ensures a == b || Clash(sha, x, y, Inputs(sha, a), Inputs(sha, b))
    decreases |a|
  {
    x, y := [], [];
    if |a| > 1 {
      var h := |a| / 2;
      var la: seq<byte>, ra: seq<byte> := Tree(sha, a[..h]), Tree(sha, a[h..]);
      var lb: seq<byte>, rb: seq<byte> := Tree(sha, b[..h]), Tree(sha, b[h..]);
      x, y := la + ra, lb + rb;
      if x == y {
        assert la == x[..32] && lb == y[..32] && ra == x[32..] && rb == y[32..];
        assert a == a[..h] + a[h..] && b == b[..h] + b[h..];
        if a[..h] != b[..h] {
          x, y := TreeBinds(sha, a[..h], b[..h]);
        } else {
          x, y := TreeBinds(sha, a[h..], b[h..]);
        }
      }
    }
  }

  /** Distinct powers of two differ by at least a factor of two. */
  lemma {:induction false} PowersApart(p: nat, q: nat)
    requires PowerOfTwo(p) && PowerOfTwo(q)
    ensures p < q ==> 2 * p <= q
    ensures q < p ==> 2 * q <= p
  {
    if p > 1 && q > 1 {
      PowersApart(p / 2, q / 2);
    }
  }

  /** The nodes at the level that has `n` of them. */
  function LevelAt(sha: Sha256, nodes: seq<Bytes32>, n: nat): (r: seq<Bytes32>)
    requires PowerOfTwo(|nodes|) && PowerOfTwo(n) && n <= |nodes|
    ensures |r| == n && Tree(sha, r) == Tree(sha, nodes)
    decreases |nodes|
  {
    if |nodes| == n then nodes
    else
      PowersApart(n, |nodes|);
      LevelKeepsRoot(sha, nodes);
      LevelAt(sha, Level(sha, nodes), n)
  }

  /** The bottom level of the tree that the loop builds; the empty list stands for one zero leaf. */
  function Bottom(leaves: seq<Bytes32>): (r: seq<Bytes32>)
    ensures PowerOfTwo(|r|) && (|leaves| > 0 ==> |r| == NextPowerOfTwo(|leaves|))
  {
    PowerFromIsLeast(1, |leaves|);
    if |leaves| == 0 then [Zero32()] else Pad(leaves)
  }

  /** The strings that are hashed to compute the root of the leaves. */
  ghost function RootInputs(sha: Sha256, leaves: seq<Bytes32>): set<seq<byte>> {
    Inputs(sha, Bottom(leaves))
  }

  /** The widest level that the trees over `a` and over `b` both have. */
  function CommonWidth(a: seq<Bytes32>, b: seq<Bytes32>): (n: nat)
    ensures PowerOfTwo(n) && n <= |Bottom(a)| && n <= |Bottom(b)|
  {
    Least(|Bottom(a)|, |Bottom(b)|)
  }

  /** The nodes over `a` at the widest level it shares with `b`: its padded leaves, or inner nodes. */
  function CommonLevel(sha: Sha256, a: seq<Bytes32>, b: seq<Bytes32>): (r: seq<Bytes32>)
    ensures |r| == CommonWidth(a, b) > 0 && Tree(sha, r) == Root(sha, a)
  {
    LevelAt(sha, Bottom(a), CommonWidth(a, b))
  }

  /** Two leaf lists have the same root exactly when their trees agree at the widest common level, that
      is, when the padded leaves of one are a level of the tree over the other; or else the parts of the
      two trees above that level clash. */
  lemma SameRootIff(sha: Sha256, a: seq<Bytes32>, b: seq<Bytes32>) returns (x: seq<byte>, y: seq<byte>)
    ensures CommonLevel(sha, a, b) == CommonLevel(sha, b, a) ==> Root(sha, a) == Root(sha, b)
    ensures Root(sha, a) == Root(sha, b) ==>
      || CommonLevel(sha, a, b) == CommonLevel(sha, b, a)
      || Clash(sha, x, y, Inputs(sha, CommonLevel(sha, a, b)), Inputs(sha, CommonLevel(sha, b, a)))
    ensures |Bottom(a)| == |Bottom(b)| ==>
      CommonLevel(sha, a, b) == Bottom(a) && CommonLevel(sha, b, a) == Bottom(b)
  {
    x, y := [], [];
    if Root(sha, a) == Root(sha, b) {
      x, y := TreeBinds(sha, CommonLevel(sha, a, b), CommonLevel(sha, b, a));
    }
  }

  /** A list of inner nodes has the root of the leaves below it. */
  lemma InnerNodesSameRoot(sha: Sha256, leaves: seq<Bytes32>)
    requires |leaves| > 1
    ensures Root(sha, Level(sha, Bottom(leaves))) == Root(sha, leaves)
    ensures |Level(sha, Bottom(leaves))| < |leaves|
  {
    var nodes := Bottom(leaves);
    PowerFromIsLeast(1, |leaves|);
    PowerFromIsLeast(1, |nodes| / 2);
    LevelKeepsRoot(sha, nodes);
    BottomOfPower(Level(sha, nodes));
  }

  lemma BottomOfPower(leaves: seq<Bytes32>)
    requires PowerOfTwo(|leaves|)
    ensures Bottom(leaves) == leaves
  {
    PaddedPower(leaves);
  }

  /** Padded to the same length, two lists agree exactly when the longer one only adds zero leaves. */
  lemma SameBottomIff(a: seq<Bytes32>, b: seq<Bytes32>)
    requires |a| <= |b| && |Bottom(a)| == |Bottom(b)|
    ensures Bottom(a) == Bottom(b) <==> b == a + seq(|b| - |a|, _ => Zero32())
  {
    BottomAt(a);
    BottomAt(b);
    if Bottom(a) == Bottom(b) {
      forall i | 0 <= i < |b| ensures b[i] == (a + seq(|b| - |a|, _ => Zero32()))[i] {
        assert Bottom(b)[i] == Bottom(a)[i];
      }
    }
    if b == a + seq(|b| - |a|, _ => Zero32()) {
      forall i | 0 <= i < |Bottom(a)| ensures Bottom(a)[i] == Bottom(b)[i] {}
    }
  }

  lemma BottomAt(leaves: seq<Bytes32>)
    ensures |leaves| <= |Bottom(leaves)|
    ensures forall i :: 0 <= i < |Bottom(leaves)| ==> Bottom(leaves)[i] == if i < |leaves| then leaves[i] else Zero32()
  {
    PowerFromIsLeast(1, |leaves|);
  }

  /** Within one padded length the root binds the leaves up to trailing zero leaves. */
  lemma RootBindsUpToZeros(sha: Sha256, a: seq<Bytes32>, b: seq<Bytes32>) returns (x: seq<byte>, y: seq<byte>)
    requires |a| <= |b| && |Bottom(a)| == |Bottom(b)|
    ensures b == a + seq(|b| - |a|, _ => Zero32()) ==> Root(sha, a) == Root(sha, b)
    ensures Root(sha, a) == Root(sha, b) ==>
      b == a + seq(|b| - |a|, _ => Zero32()) || Clash(sha, x, y, RootInputs(sha, a), RootInputs(sha, b))
  {
    x, y := SameRootIff(sha, a, b);
    SameBottomIff(a, b);
  }

  /** Equal-length leaf lists with equal roots are the same list, or the two computations clash. */
  lemma RootBinds(sha: Sha256, a: seq<Bytes32>, b: seq<Bytes32>) returns (x: seq<byte>, y: seq<byte>)
    requires |a| == |b| && Root(sha, a) == Root(sha, b)
    ensures a == b || Clash(sha, x, y, RootInputs(sha, a), RootInputs(sha, b))
  {
    x, y := RootBindsUpToZeros(sha, a, b);
  }

  lemma NextPowerStays(n: nat)
    requires n > 0 && !PowerOfTwo(n)
    ensures NextPowerOfTwo(n + 1) == NextPowerOfTwo(n)
  {
    PowerFromIsLeast(1, n);
    PowerFromIsLeast(1, n + 1);
    PowersApart(NextPowerOfTwo(n), NextPowerOfTwo(n + 1));
  }

  lemma SameBottomSameRoot(sha: Sha256, a: seq<Bytes32>, b: seq<Bytes32>)
    requires Bottom(a) == Bottom(b)
    ensures Root(sha, a) == Root(sha, b)
  {}

  lemma ZeroLeafIsPadding(leaves: seq<Bytes32>)
    ensures leaves + [Zero32()] == leaves + seq(|leaves + [Zero32()]| - |leaves|, _ => Zero32())
  {}

  lemma ZeroLeafSameBottom(leaves: seq<Bytes32>, more: seq<Bytes32>)
    requires |leaves| > 0 && more == leaves + [Zero32()] && NextPowerOfTwo(|more|) == NextPowerOfTwo(|leaves|)
    ensures Bottom(more) == Bottom(leaves)
  {
    ZeroLeafIsPadding(leaves);
    SameBottomIff(leaves, more);
  }

  /** The length matters: an explicit zero leaf in place of padding leaves the root unchanged. */
  lemma ZeroLeafSameRoot(sha: Sha256, leaves: seq<Bytes32>)
    requires !PowerOfTwo(|leaves|)
    ensures Root(sha, leaves + [seq(32, _ => 0)]) == Root(sha, leaves)
  {
    var more := leaves + [Zero32()];
    if |leaves| == 0 {
      assert more == [Zero32()];
      BottomOfPower(more);
    } else {
      NextPowerStays(|leaves|);
      ZeroLeafSameBottom(leaves, more);
    }
    SameBottomSameRoot(sha, leaves, more);
  }
}
