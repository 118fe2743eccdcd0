/** The receipt collector: validates, deduplicates and queues receipts by pool. */
module Collector {
  import opened Bytes
  import opened Merkle
  import opened Batch

  /** The hash function and the signature check, about which nothing is assumed. */
  datatype Env = Env(sha: Sha256, signatureOk: StorageReceipt -> bool)

  datatype CollectorState = CollectorState(
    poolReceipts: map<Bytes32, seq<StorageReceipt>>, seen: set<Bytes32>,
    epochStart: nat, epochEnd: nat, graceSecs: nat, cidToPool: map<Bytes32, Bytes32>)

  // ---------- The transitions ----------

  /** The first check that fails, or the pool that takes the receipt. */
  function Verdict(env: Env, st: CollectorState, r: StorageReceipt): AggResult<Bytes32> {
    var deadline := st.epochEnd + st.graceSecs;
    if r.timestamp < st.epochStart || r.timestamp >= deadline
    then Reject(TimestampOutOfRange(r.timestamp, st.epochStart, deadline))
    else if r.storageNode == Zero32() || r.contentId == Zero32() then Reject(InvalidSignature)
    else if DedupHash(env.sha, r) in st.seen then Reject(DuplicateReceipt(DedupHash(env.sha, r)))
    else if !env.signatureOk(r) then Reject(InvalidSignature)
    else if r.contentId !in st.cidToPool then Reject(UnknownPool)
    else Accept(st.cidToPool[r.contentId])
  }

  function Queue(m: map<Bytes32, seq<StorageReceipt>>, pool: Bytes32): seq<StorageReceipt> {
    if pool in m then m[pool] else []
  }

  function AfterIngest(env: Env, st: CollectorState, r: StorageReceipt): CollectorState {
    match Verdict(env, st, r)
    case Reject(_) => st
    case Accept(pool) =>
      st.(seen := st.seen + {DedupHash(env.sha, r)},
          poolReceipts := st.poolReceipts[pool := Queue(st.poolReceipts, pool) + [r]])
  }

  function AfterReset(st: CollectorState, epochStart: nat, epochEnd: nat): CollectorState {
    st.(poolReceipts := map[], seen := {}, epochStart := epochStart, epochEnd := epochEnd)
  }

  /** Some listing of the keys: a hash map promises no order. */
  ghost predicate Lists(order: seq<Bytes32>, keys: set<Bytes32>) {
    && (forall i, j :: 0 <= i < j < |order| ==> order[i] != order[j])
    && (forall p: Bytes32 :: p in order <==> p in keys)
  }

  // ---------- The collector ----------

  class ReceiptCollector {
    const env: Env
    var poolReceipts: map<Bytes32, seq<StorageReceipt>>
    var seen: set<Bytes32>
    var epochStart: nat
    var epochEnd: nat
    var graceSecs: nat
    var cidToPool: map<Bytes32, Bytes32>

    ghost function State(): CollectorState
      reads this
    {
      CollectorState(poolReceipts, seen, epochStart, epochEnd, graceSecs, cidToPool)
    }

    constructor (env: Env, epochStart: nat, epochEnd: nat, graceSecs: nat)
      ensures this.env == env
      ensures State() == CollectorState(map[], {}, epochStart, epochEnd, graceSecs, map[])
    {
      this.env := env;
      this.poolReceipts := map[];
      this.seen := {};
      this.epochStart := epochStart;
      this.epochEnd := epochEnd;
      this.graceSecs := graceSecs;
      this.cidToPool := map[];
    }

    method RegisterPool(contentId: Bytes32, pool: Bytes32)
      modifies this
      ensures State() == old(State()).(cidToPool := old(cidToPool)[contentId := pool])
    {
      cidToPool := cidToPool[contentId := pool];
    }

    /** The pools that have receipts, in no particular order. */
    method Pools() returns (pools: seq<Bytes32>)
      ensures Lists(pools, poolReceipts.Keys)
    {
      pools := [];
      var rest := poolReceipts.Keys;
      while rest != {}
        invariant rest <= poolReceipts.Keys
        invariant forall i, j :: 0 <= i < j < |pools| ==> pools[i] != pools[j]
        invariant forall p: Bytes32 :: p in pools <==> p in poolReceipts.Keys && p !in rest
        decreases |rest|
      {
        var p :| p in rest;
        pools := pools + [p];
        rest := rest - {p};
      }
    }

    /** Drains the queue of one pool. */
    method TakeReceipts(pool: Bytes32) returns (receipts: seq<StorageReceipt>)
      modifies this
      ensures receipts == Queue(old(poolReceipts), pool)
      ensures State() == old(State()).(poolReceipts := old(poolReceipts) - {pool})
    {
      receipts := if pool in poolReceipts then poolReceipts[pool] else [];
      poolReceipts := poolReceipts - {pool};
    }

    /** Validates a receipt and queues it, or reports the first failed check and changes nothing. */
    method Ingest(r: StorageReceipt) returns (verdict: AggResult<Bytes32>)
      modifies this
      ensures verdict == Verdict(env, old(State()), r)
      ensures State() == AfterIngest(env, old(State()), r)
    {
      var deadline := epochEnd + graceSecs;
      if r.timestamp < epochStart || r.timestamp >= deadline {
        return Reject(TimestampOutOfRange(r.timestamp, epochStart, deadline));
      }
      if r.storageNode == Zero32() || r.contentId == Zero32() {
        return Reject(InvalidSignature);
      }
      var dedup := DedupHash(env.sha, r);
      if dedup in seen {
        return Reject(DuplicateReceipt(dedup));
      }
      var signed := env.signatureOk(r);
      if !signed {
        return Reject(InvalidSignature);
      }
      if r.contentId !in cidToPool {
        return Reject(UnknownPool);
      }
      var pool := cidToPool[r.contentId];
      seen := seen + {dedup};
      var queue := if pool in poolReceipts then poolReceipts[pool] else [];
      poolReceipts := poolReceipts[pool := queue + [r]];
      return Accept(pool);
    }

    /** Forgets the receipts and the hashes, but not the pools, for a new window. */
    method Reset(epochStart: nat, epochEnd: nat)
      modifies this
      ensures State() == AfterReset(old(State()), epochStart, epochEnd)
    {
      poolReceipts := map[];
      seen := {};
      this.epochStart := epochStart;
      this.epochEnd := epochEnd;
    }
  }
}
