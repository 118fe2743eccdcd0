/** Storage receipts and the batch that settles one pool's receipts. */
module Batch {
  import opened Bytes
  import opened Merkle
  import opened Prover

  datatype StorageReceipt = StorageReceipt(
    contentId: Bytes32, storageNode: Bytes32, challenger: Bytes32, shardIndex: u32, timestamp: u64,
    nonce: Bytes32, proofHash: Bytes32, signature: seq<byte>)

  datatype AggregatorError =
    | InvalidSignature
    | TimestampOutOfRange(timestamp: nat, start: nat, deadline: nat)
    | DuplicateReceipt(hash: Bytes32)
    | UnknownPool
    | ProverFailed(error: ProverError)
    | NoReceipts

  datatype AggResult<T> = Accept(value: T) | Reject(error: AggregatorError)

  /** The claim of a receipt as the string that is hashed. */
  function ClaimBytes(r: StorageReceipt): (b: seq<byte>)
    ensures |b| == 108
  {
    r.contentId + LittleEndian(r.shardIndex, 4) + r.storageNode + r.challenger + LittleEndian(r.timestamp, 8)
  }

  /** The hash by which a receipt counts as already seen. */
  function DedupHash(sha: Sha256, r: StorageReceipt): Bytes32 {
    sha(ClaimBytes(r))
  }

  /** Two receipts state the same claim: same shard of the same content, same node, challenger and time. */
  predicate SameClaim(a: StorageReceipt, b: StorageReceipt) {
    && a.contentId == b.contentId && a.shardIndex == b.shardIndex && a.storageNode == b.storageNode
    && a.challenger == b.challenger && a.timestamp == b.timestamp
  }

  lemma FiveFields(a: seq<byte>, b: seq<byte>, c: seq<byte>, d: seq<byte>, e: seq<byte>)
    requires |a| == 32 && |b| == 4 && |c| == 32 && |d| == 32 && |e| == 8
    ensures var s := a + b + c + d + e;
      s[..32] == a && s[32..36] == b && s[36..68] == c && s[68..100] == d && s[100..] == e
  {}

  /** Where each field of the claim stands in the string, and that it can be read back. */
  lemma ClaimLayout(r: StorageReceipt)
    ensures var b := ClaimBytes(r);
      && b[..32] == r.contentId && FromLittleEndian(b[32..36]) == r.shardIndex
      && b[36..68] == r.storageNode && b[68..100] == r.challenger
      && FromLittleEndian(b[100..]) == r.timestamp
  {
    WidthsInUse();
    LittleEndianRoundTrip(r.shardIndex, 4);
    LittleEndianRoundTrip(r.timestamp, 8);
    FiveFields(r.contentId, LittleEndian(r.shardIndex, 4), r.storageNode, r.challenger, LittleEndian(r.timestamp, 8));
  }

  /** Receipts share a dedup hash exactly when they state the same claim, or their claims collide. */
  lemma SameHashIff(sha: Sha256, a: StorageReceipt, b: StorageReceipt)
    ensures DedupHash(sha, a) == DedupHash(sha, b)
      <==> SameClaim(a, b) || Collision(sha, ClaimBytes(a), ClaimBytes(b))
  {
    ClaimLayout(a);
    ClaimLayout(b);
  }

  /** Every receipt weighs one. */
  function AsContribution(r: StorageReceipt): Contribution {
    Contribution(r.storageNode, 1, r.timestamp)
  }

  function Contributions(receipts: seq<StorageReceipt>): seq<Contribution> {
    seq(|receipts|, i requires 0 <= i < |receipts| => AsContribution(receipts[i]))
  }

  datatype PoolBatch = PoolBatch(
    poolPubkey: Bytes32, weights: seq<Entry>, receiptCount: nat, totalWeight: nat, proof: BatchProof)

  function BatchOf(sha: Sha256, pool: Bytes32, receipts: seq<StorageReceipt>): AggResult<PoolBatch> {
    if |receipts| == 0 then Reject(NoReceipts)
    else match ProofOf(sha, Contributions(receipts), pool)
      case Err(e) => Reject(ProverFailed(e))
      case Ok(proof) =>
        var weights := Fold(Contributions(receipts));
        Accept(PoolBatch(pool, weights, |receipts|, TotalWeight(weights), proof))
  }

  lemma {:induction false} UnitWeights(receipts: seq<StorageReceipt>)
    ensures SumOfWeights(Contributions(receipts)) == |receipts|
  {
    if |receipts| > 0 {
      UnitWeights(receipts[..|receipts| - 1]);
      assert Contributions(receipts)[..|receipts| - 1] == Contributions(receipts[..|receipts| - 1]);
    }
  }

  /** Computes the operator weights, their total and the proof. */
  method Build(sha: Sha256, pool: Bytes32, receipts: seq<StorageReceipt>) returns (r: AggResult<PoolBatch>)
    requires |receipts| < U64
    ensures r == BatchOf(sha, pool, receipts)
  {
    if |receipts| == 0 {
      return Reject(NoReceipts);
    }
    var weights: seq<Entry> := [];
    ghost var all := Contributions(receipts);
    for i := 0 to |receipts|
      invariant weights == Fold(all[..i])
    {
      assert all[..i + 1][..i] == all[..i];
      assert Contributions(receipts[..i]) == all[..i];
      UnitWeights(receipts[..i]);
      SmallSumsExact(all[..i]);
      AddWrappingIsBump(weights, receipts[i].storageNode, 1);
      weights := AddWrapping(weights, receipts[i].storageNode, 1);
      assert Contributions(receipts[..i + 1]) == all[..i + 1];
      UnitWeights(receipts[..i + 1]);
      SmallSumsExact(all[..i + 1]);
    }
    assert all[..|receipts|] == all;
    var proof := ProveBatch(sha, Contributions(receipts), pool);
    if proof.Err? {
      return Reject(ProverFailed(proof.error));
    }
    return Accept(PoolBatch(pool, weights, |receipts|, TotalWeight(weights), proof.value));
  }

  /** What a receipt needs for its batch to be provable. */
  predicate Provable(r: StorageReceipt) {
    r.timestamp != 0 && r.storageNode != Zero32()
  }

  /** A batch is built exactly when there are receipts and each is provable. */
  lemma BuildSucceedsIff(sha: Sha256, pool: Bytes32, receipts: seq<StorageReceipt>)
    ensures BatchOf(sha, pool, receipts).Accept? <==>
      |receipts| > 0 && forall r :: r in receipts ==> Provable(r)
  {
    var all := Contributions(receipts);
    FirstErrorMeaning(all);
    if |receipts| > 0 && FirstError(all) == None {
      forall r | r in receipts ensures Provable(r) {
        var i :| 0 <= i < |receipts| && receipts[i] == r;
        assert all[i] in all;
      }
    }
    if forall r :: r in receipts ==> Provable(r) {
      forall c | c in all ensures Check(c) == None {
        var i :| 0 <= i < |all| && all[i] == c;
        assert receipts[i] in receipts;
      }
    }
  }

  /** Why a batch is not built: there are no receipts, or the prover refuses the first one that has no
      timestamp or, failing that, no node. */
  lemma BuildFails(sha: Sha256, pool: Bytes32, receipts: seq<StorageReceipt>)
    requires BatchOf(sha, pool, receipts).Reject?
    ensures |receipts| == 0 ==> BatchOf(sha, pool, receipts) == Reject(NoReceipts)
    ensures |receipts| > 0 ==> exists i :: RefusedAt(receipts, i, BatchOf(sha, pool, receipts).error)
  {
    var all := Contributions(receipts);
    AggregationFails(all);
    if |receipts| > 0 {
      var i :| FailsAt(all, i, Aggregated(all).error);
      assert forall j :: 0 <= j < i ==> Sane(all[j]) && Provable(receipts[j]);
      assert RefusedAt(receipts, i, BatchOf(sha, pool, receipts).error);
    }
  }

  /** Receipt `i` is the first that cannot be proved, and `e` says why. */
  ghost predicate RefusedAt(receipts: seq<StorageReceipt>, i: nat, e: AggregatorError) {
    && i < |receipts| && (forall j :: 0 <= j < i ==> Provable(receipts[j])) && !Provable(receipts[i])
    && e == ProverFailed(if receipts[i].timestamp == 0 then ZeroTimestamp else ZeroOperator)
  }

  /** The posted total is the number of receipts, and the proof attests the same total. */
  lemma BatchConservesWeight(sha: Sha256, pool: Bytes32, receipts: seq<StorageReceipt>)
    requires |receipts| < U64 && BatchOf(sha, pool, receipts).Accept?
    ensures var batch := BatchOf(sha, pool, receipts).value;
      && batch.totalWeight == TotalWeight(batch.weights) == batch.receiptCount == |receipts|
      && VerifyBatch(batch.proof).Ok?
      && VerifyBatch(batch.proof).value.totalWeight == |receipts|
      && VerifyBatch(batch.proof).value.root == Root(sha, Leaves(sha, batch.weights))
      && VerifyBatch(batch.proof).value.poolId == pool
  {
    UnitWeights(receipts);
    FoldMeaning(Contributions(receipts), pool);
    ProvedBatchVerifies(sha, Contributions(receipts), pool);
  }

  lemma ContributionsOfPermutation(a: seq<StorageReceipt>, b: seq<StorageReceipt>)
    requires multiset(a) == multiset(b)
    ensures multiset(Contributions(a)) == multiset(Contributions(b))
    decreases |a|
  {
    if |a| == 0 {
      assert |multiset(b)| == 0;
    } else {
      var init, last := a[..|a| - 1], a[|a| - 1];
      assert a == init + [last];
      assert last in multiset(b);
      var j :| 0 <= j < |b| && b[j] == last;
      var before, after := b[..j], b[j + 1..];
      assert b == before + [last] + after;
      CancelElement(init, last, before, after);
      ContributionsOfPermutation(init, before + after);
      ContributionsConcat(init, [last]);
      ContributionsConcat(before + [last], after);
      ContributionsConcat(before, [last]);
      ContributionsConcat(before, after);
    }
  }

  lemma ContributionsConcat(a: seq<StorageReceipt>, b: seq<StorageReceipt>)
    ensures Contributions(a + b) == Contributions(a) + Contributions(b)
  {}

  /** Reordering the receipts of a pool changes nothing in its batch. */
  lemma BatchIsCanonical(sha: Sha256, pool: Bytes32, a: seq<StorageReceipt>, b: seq<StorageReceipt>)
    requires multiset(a) == multiset(b)
    ensures BatchOf(sha, pool, a).Accept? <==> BatchOf(sha, pool, b).Accept?
    ensures BatchOf(sha, pool, a).Accept? ==> BatchOf(sha, pool, a) == BatchOf(sha, pool, b)
  {
    assert |a| == |multiset(a)| && |b| == |multiset(b)|;
    ContributionsOfPermutation(a, b);
    FoldOfPermutation(Contributions(a), Contributions(b));
    ProofIsCanonical(sha, Contributions(a), Contributions(b), pool);
  }
}
