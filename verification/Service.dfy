/** The aggregator service: closes an epoch by settling every pool, then opens the next window. */
module Service {
  import opened Bytes
  import opened Numbers
  import opened Merkle
  import opened Prover
  import opened Batch
  import opened Collector

  /** What is posted for a pool. */
  datatype Posting = Posting(poolPubkey: Bytes32, root: Bytes32, totalWeight: nat, weights: seq<Entry>)

  /** The root is read back from the first 32 public bytes of the proof. */
  function BuildPostDistribution(batch: PoolBatch): Posting {
    var inputs := batch.proof.publicInputs;
    Posting(batch.poolPubkey, if |inputs| >= 32 then inputs[..32] else Zero32(), batch.totalWeight, batch.weights)
  }

  function Settle(sha: Sha256, pool: Bytes32, receipts: seq<StorageReceipt>): AggResult<Posting> {
    match BatchOf(sha, pool, receipts)
    case Reject(e) => Reject(e)
    case Accept(batch) => Accept(BuildPostDistribution(batch))
  }

  /** A posting carries the Merkle root of the leaves of its own weights, and their total. */
  lemma SettledRoot(sha: Sha256, pool: Bytes32, receipts: seq<StorageReceipt>)
    requires |receipts| < U64 && Settle(sha, pool, receipts).Accept?
    ensures var p := Settle(sha, pool, receipts).value;
      && p.poolPubkey == pool && p.root == Root(sha, Leaves(sha, p.weights))
      && p.totalWeight == TotalWeight(p.weights) == |receipts|
  {
    BatchConservesWeight(sha, pool, receipts);
    VerifyAcceptsIff(BatchOf(sha, pool, receipts).value.proof);
  }

  /** The result for one pool; a pool without receipts is skipped. */
  function SettleOne(sha: Sha256, pool: Bytes32, m: map<Bytes32, seq<StorageReceipt>>): seq<AggResult<Posting>> {
    if |Queue(m, pool)| == 0 then [] else [Settle(sha, pool, Queue(m, pool))]
  }

  /** The results for the listed pools in order. */
  function SettleAll(sha: Sha256, order: seq<Bytes32>, m: map<Bytes32, seq<StorageReceipt>>): seq<AggResult<Posting>> {
    if |order| == 0 then []
    else SettleAll(sha, order[..|order| - 1], m) + SettleOne(sha, order[|order| - 1], m)
  }

  function AlignToEpoch(timestamp: nat, duration: nat): nat
    requires duration > 0
  {
    (timestamp / duration) * duration
  }

  class AggregatorService {
    const duration: nat
    var collector: ReceiptCollector
    var currentEpoch: nat

    /** `new`, with the clock reading as a parameter. */
    constructor (env: Env, now: nat, duration: nat, grace: nat)
      requires duration > 0
      ensures this.duration == duration && currentEpoch == now / duration && collector.env == env && fresh(collector)
      ensures collector.State() == CollectorState(map[], {}, currentEpoch * duration,
                                                  currentEpoch * duration + duration, grace, map[])
    {
      var epochStart := AlignToEpoch(now, duration);
      this.duration := duration;
      this.collector := new ReceiptCollector(env, epochStart, epochStart + duration, grace);
      this.currentEpoch := epochStart / duration;
      QuotientOfMultiple(now / duration, duration);
    }

    /** Opens the next epoch window and empties the collector. */
    method AdvanceEpoch()
      modifies this`currentEpoch, collector
      ensures currentEpoch == old(currentEpoch) + 1
      ensures collector.State() == AfterReset(old(collector.State()), currentEpoch * duration,
                                              currentEpoch * duration + duration)
    {
      currentEpoch := currentEpoch + 1;
      var epochStart := currentEpoch * duration;
      collector.Reset(epochStart, epochStart + duration);
    }

    /** Drains one pool and settles it; a pool without receipts yields nothing. */
    method SettlePool(pool: Bytes32) returns (results: seq<AggResult<Posting>>)
      requires |Queue(collector.poolReceipts, pool)| < U64
      modifies collector
      ensures collector.State() == old(collector.State()).(poolReceipts := old(collector.poolReceipts) - {pool})
      ensures results == SettleOne(collector.env.sha, pool, old(collector.poolReceipts))
    {
      var receipts := collector.TakeReceipts(pool);
      if |receipts| == 0 {
        return [];
      }
      var batch := Build(collector.env.sha, pool, receipts);
      match batch
      case Accept(b) => results := [Accept(BuildPostDistribution(b))];
      case Reject(e) => results := [Reject(e)];
    }

    /** The loop over the listed pools. */
    method SettlePools(pools: seq<Bytes32>) returns (results: seq<AggResult<Posting>>)
      requires forall p :: p in collector.poolReceipts ==> |collector.poolReceipts[p]| < U64
      requires forall i, j :: 0 <= i < j < |pools| ==> pools[i] != pools[j]
      modifies collector
      ensures collector.State() == old(collector.State()).(poolReceipts := collector.poolReceipts)
      ensures results == SettleAll(collector.env.sha, pools, old(collector.poolReceipts))
    {
      results := [];
      ghost var m, st := collector.poolReceipts, collector.State();
      for i := 0 to |pools|
        invariant collector.State() == st.(poolReceipts := collector.poolReceipts)
        invariant forall j :: i <= j < |pools| ==> Queue(collector.poolReceipts, pools[j]) == Queue(m, pools[j])
        invariant results == SettleAll(collector.env.sha, pools[..i], m)
      {
        assert pools[..i + 1][..i] == pools[..i];
        SettleSameQueue(collector.env.sha, pools[i], collector.poolReceipts, m);
        var settled := SettlePool(pools[i]);
        results := results + settled;
      }
      assert pools[..|pools|] == pools;
    }

    /** Settles every pool that has receipts and advances the epoch. */
    method ProcessEpochEnd() returns (results: seq<AggResult<Posting>>, ghost order: seq<Bytes32>)
      requires forall p :: p in collector.poolReceipts ==> |collector.poolReceipts[p]| < U64
      modifies this`currentEpoch, collector
      ensures Lists(order, old(collector.poolReceipts).Keys)
      ensures results == SettleAll(collector.env.sha, order, old(collector.poolReceipts))
      ensures currentEpoch == old(currentEpoch) + 1
      ensures collector.State() == AfterReset(old(collector.State()), currentEpoch * duration,
                                              currentEpoch * duration + duration)
    {
      var pools := collector.Pools();
      order := pools;
      results := [];
      if |pools| == 0 {
        AdvanceEpoch();
        return;
      }
      results := SettlePools(pools);
      AdvanceEpoch();
    }
  }

  lemma SettleSameQueue(sha: Sha256, pool: Bytes32, a: map<Bytes32, seq<StorageReceipt>>,
                        b: map<Bytes32, seq<StorageReceipt>>)
    requires Queue(a, pool) == Queue(b, pool)
    ensures SettleOne(sha, pool, a) == SettleOne(sha, pool, b)
  {}
}
