/** Whole runs of the aggregator: at-most-once acceptance, conservation of weight, and how far
    the grace periods of consecutive epochs can overlap. */
module Epochs {
  import opened Bytes
  import opened Numbers
  import opened Merkle
  import opened Prover
  import opened Batch
  import opened Collector
  import opened Service

  datatype Config = Config(env: Env, duration: nat, grace: nat)

  datatype Event =
    | Register(contentId: Bytes32, pool: Bytes32)
    | Offer(receipt: StorageReceipt)
    | EpochEnd

  /** One accepted receipt: when, and for which pool. */
  datatype Accepted = Accepted(epoch: nat, pool: Bytes32, receipt: StorageReceipt)

  /** The service's state, with the log of everything ever accepted. */
  datatype RunState = RunState(epoch: nat, collector: CollectorState, log: seq<Accepted>)

  /** The collector at the opening of an epoch. */
  function EmptyCollector(cfg: Config, epoch: nat, pools: map<Bytes32, Bytes32>): CollectorState {
    CollectorState(map[], {}, epoch * cfg.duration, epoch * cfg.duration + cfg.duration, cfg.grace, pools)
  }

  /** The state of a new service whose clock reads `now`. */
  function Start(cfg: Config, now: nat): RunState
    requires cfg.duration > 0
  {
    var epoch := now / cfg.duration;
    RunState(epoch, EmptyCollector(cfg, epoch, map[]), [])
  }

  function Step(cfg: Config, s: RunState, ev: Event): RunState {
    match ev
    case Register(contentId, pool) =>
      s.(collector := s.collector.(cidToPool := s.collector.cidToPool[contentId := pool]))
    case Offer(r) =>
      s.(collector := AfterIngest(cfg.env, s.collector, r),
         log := s.log + (match Verdict(cfg.env, s.collector, r)
                         case Accept(pool) => [Accepted(s.epoch, pool, r)]
                         case Reject(_) => []))
    case EpochEnd =>
      var next := (s.epoch + 1) * cfg.duration;
      s.(epoch := s.epoch + 1, collector := AfterReset(s.collector, next, next + cfg.duration))
  }

  function Run(cfg: Config, now: nat, events: seq<Event>): RunState
    requires cfg.duration > 0
  {
    if |events| == 0 then Start(cfg, now)
    else Step(cfg, Run(cfg, now, events[..|events| - 1]), events[|events| - 1])
  }

  lemma RunSnoc(cfg: Config, now: nat, events: seq<Event>, ev: Event)
    requires cfg.duration > 0
    ensures Run(cfg, now, events + [ev]) == Step(cfg, Run(cfg, now, events), ev)
  {
    assert (events + [ev])[..|events|] == events;
  }

  // ---------- Views of the log ----------

  /** The entries accepted in one epoch, in order. */
  function OfEpoch(log: seq<Accepted>, epoch: nat): seq<Accepted> {
    if |log| == 0 then []
    else OfEpoch(log[..|log| - 1], epoch) + (if log[|log| - 1].epoch == epoch then [log[|log| - 1]] else [])
  }

  /** The receipts of one pool, in order. */
  function OfPool(log: seq<Accepted>, pool: Bytes32): seq<StorageReceipt> {
    if |log| == 0 then []
    else OfPool(log[..|log| - 1], pool) + (if log[|log| - 1].pool == pool then [log[|log| - 1].receipt] else [])
  }

  lemma OfEpochSnoc(log: seq<Accepted>, a: Accepted, epoch: nat)
    ensures OfEpoch(log + [a], epoch) == OfEpoch(log, epoch) + (if a.epoch == epoch then [a] else [])
  {
    assert (log + [a])[..|log|] == log;
  }

  lemma OfPoolSnoc(log: seq<Accepted>, a: Accepted, pool: Bytes32)
    ensures OfPool(log + [a], pool) == OfPool(log, pool) + (if a.pool == pool then [a.receipt] else [])
  {
    assert (log + [a])[..|log|] == log;
  }

  lemma {:induction false} OfEpochMembers(log: seq<Accepted>, epoch: nat, a: Accepted)
    ensures a in OfEpoch(log, epoch) <==> a in log && a.epoch == epoch
  {
    if |log| > 0 {
      OfEpochMembers(log[..|log| - 1], epoch, a);
      assert log == log[..|log| - 1] + [log[|log| - 1]];
    }
  }

  lemma {:induction false} OfPoolMembers(log: seq<Accepted>, pool: Bytes32, r: StorageReceipt)
    ensures r in OfPool(log, pool) <==> exists a :: a in log && a.pool == pool && a.receipt == r
  {
    if |log| > 0 {
      var init, last := log[..|log| - 1], log[|log| - 1];
      OfPoolMembers(init, pool, r);
      assert log == init + [last];
      assert last in log;
    }
  }

  // ---------- The invariant ----------

  /** Timestamp `t` falls into the window of `epoch`, grace period included. */
  predicate InWindow(cfg: Config, epoch: nat, t: nat) {
    epoch * cfg.duration <= t < epoch * cfg.duration + cfg.duration + cfg.grace
  }

  /** What the receipt itself must satisfy to be accepted at all. */
  predicate Acceptable(cfg: Config, r: StorageReceipt) {
    r.storageNode != Zero32() && r.contentId != Zero32() && cfg.env.signatureOk(r)
  }

  ghost predicate Fresh(cfg: Config, log: seq<Accepted>, epoch: nat, hash: Bytes32) {
    forall a :: a in log && a.epoch == epoch ==> DedupHash(cfg.env.sha, a.receipt) != hash
  }

  /** Every logged receipt passed the checks of its own epoch, which is not in the future. */
  ghost predicate LogSound(cfg: Config, log: seq<Accepted>, epoch: nat) {
    forall a :: a in log ==>
      a.epoch <= epoch && InWindow(cfg, a.epoch, a.receipt.timestamp) && Acceptable(cfg, a.receipt)
  }

  /** Within an epoch no two accepted receipts share a hash. */
  ghost predicate AtMostOnce(cfg: Config, log: seq<Accepted>) {
    forall i, j :: 0 <= i < j < |log| && log[i].epoch == log[j].epoch ==>
      DedupHash(cfg.env.sha, log[i].receipt) != DedupHash(cfg.env.sha, log[j].receipt)
  }

  /** The queues hold exactly what this epoch accepted, pool by pool and in order. */
  ghost predicate QueuesMatch(s: RunState) {
    && (forall p :: p in s.collector.poolReceipts ==> |s.collector.poolReceipts[p]| > 0)
    && (forall p :: Queue(s.collector.poolReceipts, p) == OfPool(OfEpoch(s.log, s.epoch), p))
  }

  /** The seen set holds exactly the hashes this epoch accepted. */
  ghost predicate SeenMatches(cfg: Config, s: RunState) {
    forall h :: h in s.collector.seen <==> !Fresh(cfg, s.log, s.epoch, h)
  }

  ghost predicate Inv(cfg: Config, s: RunState) {
    && s.collector.epochStart == s.epoch * cfg.duration
    && s.collector.epochEnd == s.epoch * cfg.duration + cfg.duration
    && s.collector.graceSecs == cfg.grace
    && LogSound(cfg, s.log, s.epoch) && AtMostOnce(cfg, s.log) && QueuesMatch(s) && SeenMatches(cfg, s)
  }

  lemma AcceptKeepsQueues(cfg: Config, s: RunState, r: StorageReceipt, pool: Bytes32)
    requires QueuesMatch(s) && Verdict(cfg.env, s.collector, r) == Accept(pool)
    ensures QueuesMatch(Step(cfg, s, Offer(r)))
  {
    var a, s' := Accepted(s.epoch, pool, r), Step(cfg, s, Offer(r));
    OfEpochSnoc(s.log, a, s.epoch);
    forall p ensures Queue(s'.collector.poolReceipts, p) == OfPool(OfEpoch(s'.log, s'.epoch), p) {
      OfPoolSnoc(OfEpoch(s.log, s.epoch), a, p);
    }
  }

  lemma FreshSnoc(cfg: Config, log: seq<Accepted>, a: Accepted, epoch: nat, hash: Bytes32)
    ensures Fresh(cfg, log + [a], epoch, hash) <==>
      Fresh(cfg, log, epoch, hash) && !(a.epoch == epoch && DedupHash(cfg.env.sha, a.receipt) == hash)
  {
    assert forall b :: b in log + [a] <==> b in log || b == a;
  }

  lemma AcceptedState(cfg: Config, s: RunState, r: StorageReceipt, pool: Bytes32)
    requires Verdict(cfg.env, s.collector, r) == Accept(pool)
    ensures var s' := Step(cfg, s, Offer(r));
      && s'.epoch == s.epoch && s'.log == s.log + [Accepted(s.epoch, pool, r)]
      && s'.collector.seen == s.collector.seen + {DedupHash(cfg.env.sha, r)}
      && s'.collector.cidToPool == s.collector.cidToPool && s'.collector.graceSecs == s.collector.graceSecs
      && DedupHash(cfg.env.sha, r) !in s.collector.seen
  {}

  lemma SeenSnoc(cfg: Config, log: seq<Accepted>, a: Accepted, seen: set<Bytes32>)
    requires forall h :: h in seen <==> !Fresh(cfg, log, a.epoch, h)
    ensures forall h :: h in seen + {DedupHash(cfg.env.sha, a.receipt)} <==> !Fresh(cfg, log + [a], a.epoch, h)
  {
    forall h ensures h in seen + {DedupHash(cfg.env.sha, a.receipt)} <==> !Fresh(cfg, log + [a], a.epoch, h) {
      FreshSnoc(cfg, log, a, a.epoch, h);
    }
  }

  lemma AcceptKeepsSeen(cfg: Config, s: RunState, r: StorageReceipt, pool: Bytes32)
    requires SeenMatches(cfg, s) && Verdict(cfg.env, s.collector, r) == Accept(pool)
    ensures SeenMatches(cfg, Step(cfg, s, Offer(r)))
  {
    AcceptedState(cfg, s, r, pool);
    SeenSnoc(cfg, s.log, Accepted(s.epoch, pool, r), s.collector.seen);
  }

  lemma AtMostOnceSnoc(cfg: Config, log: seq<Accepted>, a: Accepted)
    requires AtMostOnce(cfg, log) && Fresh(cfg, log, a.epoch, DedupHash(cfg.env.sha, a.receipt))
    ensures AtMostOnce(cfg, log + [a])
  {
    var next := log + [a];
    forall i, j | 0 <= i < j < |next| && next[i].epoch == next[j].epoch
      ensures DedupHash(cfg.env.sha, next[i].receipt) != DedupHash(cfg.env.sha, next[j].receipt)
    {
      assert next[i] == log[i];
      if j < |log| {
        assert next[j] == log[j];
      } else {
        FreshDiffers(cfg, log, a, i);
      }
    }
  }

  lemma FreshDiffers(cfg: Config, log: seq<Accepted>, a: Accepted, i: nat)
    requires Fresh(cfg, log, a.epoch, DedupHash(cfg.env.sha, a.receipt)) && i < |log| && log[i].epoch == a.epoch
    ensures DedupHash(cfg.env.sha, log[i].receipt) != DedupHash(cfg.env.sha, a.receipt)
  {
    assert log[i] in log;
  }

  lemma LogSoundSnoc(cfg: Config, log: seq<Accepted>, epoch: nat, a: Accepted)
    requires LogSound(cfg, log, epoch)
    requires a.epoch <= epoch && InWindow(cfg, a.epoch, a.receipt.timestamp) && Acceptable(cfg, a.receipt)
    ensures LogSound(cfg, log + [a], epoch)
  {
    assert forall b :: b in log + [a] <==> b in log || b == a;
  }

  lemma StepKeepsInv(cfg: Config, s: RunState, ev: Event)
    requires cfg.duration > 0 && Inv(cfg, s)
    ensures Inv(cfg, Step(cfg, s, ev))
  {
    var s' := Step(cfg, s, ev);
    match ev {
      case Register(contentId, pool) =>
      case Offer(r) =>
        var verdict := Verdict(cfg.env, s.collector, r);
        if verdict.Accept? {
          AcceptKeepsInv(cfg, s, r, verdict.value);
        } else {
          assert s'.log == s.log;
        }
      case EpochEnd =>
        EpochEndKeepsInv(cfg, s);
    }
  }

  lemma AcceptKeepsInv(cfg: Config, s: RunState, r: StorageReceipt, pool: Bytes32)
    requires Inv(cfg, s) && Verdict(cfg.env, s.collector, r) == Accept(pool)
    ensures Inv(cfg, Step(cfg, s, Offer(r)))
  {
    var a := Accepted(s.epoch, pool, r);
    AcceptKeepsQueues(cfg, s, r, pool);
    AcceptKeepsSeen(cfg, s, r, pool);
    assert Fresh(cfg, s.log, s.epoch, DedupHash(cfg.env.sha, r));
    AtMostOnceSnoc(cfg, s.log, a);
    LogSoundSnoc(cfg, s.log, s.epoch, a);
  }

  lemma EpochEndKeepsInv(cfg: Config, s: RunState)
    requires Inv(cfg, s)
    ensures Inv(cfg, Step(cfg, s, EpochEnd))
  {
    var s' := Step(cfg, s, EpochEnd);
    NothingYet(cfg, s.log, s.epoch + 1);
    assert QueuesMatch(s') && SeenMatches(cfg, s');
  }

  /** A new epoch starts with nothing accepted. */
  lemma {:induction false} NothingYet(cfg: Config, log: seq<Accepted>, epoch: nat)
    requires forall a :: a in log ==> a.epoch < epoch
    ensures OfEpoch(log, epoch) == [] && forall h :: Fresh(cfg, log, epoch, h)
  {
    if |log| > 0 {
      assert log == log[..|log| - 1] + [log[|log| - 1]];
      NothingYet(cfg, log[..|log| - 1], epoch);
    }
  }

  lemma {:induction false} RunKeepsInv(cfg: Config, now: nat, events: seq<Event>)
    requires cfg.duration > 0
    ensures Inv(cfg, Run(cfg, now, events))
    ensures Run(cfg, now, events).epoch >= now / cfg.duration
  {
    if |events| > 0 {
      RunKeepsInv(cfg, now, events[..|events| - 1]);
      StepKeepsInv(cfg, Run(cfg, now, events[..|events| - 1]), events[|events| - 1]);
    }
  }

  // ---------- At most once ----------

  /** In every run, each dedup hash is accepted at most once per epoch. */
  lemma AcceptedAtMostOncePerEpoch(cfg: Config, now: nat, events: seq<Event>, i: nat, j: nat)
    requires cfg.duration > 0
    requires var log := Run(cfg, now, events).log;
      i < j < |log| && DedupHash(cfg.env.sha, log[i].receipt) == DedupHash(cfg.env.sha, log[j].receipt)
    ensures Run(cfg, now, events).log[i].epoch != Run(cfg, now, events).log[j].epoch
  {
    RunKeepsInv(cfg, now, events);
  }

  // ---------- What an offered receipt meets ----------

  /** The pool last registered for the content. */
  function Registered(events: seq<Event>, contentId: Bytes32): Option<Bytes32> {
    if |events| == 0 then None
    else
      var last := events[|events| - 1];
      if last.Register? && last.contentId == contentId then Some(last.pool)
      else Registered(events[..|events| - 1], contentId)
  }

  /** The collector knows exactly the registered content, across epochs, each with its last pool. */
  lemma {:induction false} RegistryMatches(cfg: Config, now: nat, events: seq<Event>, contentId: Bytes32)
    requires cfg.duration > 0
    ensures var known := Run(cfg, now, events).collector.cidToPool;
      && (contentId in known <==> Registered(events, contentId).Some?)
      && (contentId in known ==> known[contentId] == Registered(events, contentId).value)
  {
    if |events| > 0 {
      RegistryMatches(cfg, now, events[..|events| - 1], contentId);
    }
  }

  /** This epoch has already accepted a receipt with the claim of `r`. */
  ghost predicate ClaimedNow(s: RunState, r: StorageReceipt) {
    exists a :: a in s.log && a.epoch == s.epoch && SameClaim(a.receipt, r)
  }

  /** The claim of `r` collides with that of a receipt which this epoch has accepted. */
  ghost predicate CollidesNow(cfg: Config, s: RunState, r: StorageReceipt) {
    exists a :: a in s.log && a.epoch == s.epoch
      && Collision(cfg.env.sha, ClaimBytes(a.receipt), ClaimBytes(r))
  }

  lemma SeenIffClaimed(cfg: Config, s: RunState, r: StorageReceipt)
    requires SeenMatches(cfg, s)
    ensures DedupHash(cfg.env.sha, r) in s.collector.seen <==> ClaimedNow(s, r) || CollidesNow(cfg, s, r)
  {
    forall a | a in s.log
      ensures DedupHash(cfg.env.sha, a.receipt) == DedupHash(cfg.env.sha, r)
        <==> SameClaim(a.receipt, r) || Collision(cfg.env.sha, ClaimBytes(a.receipt), ClaimBytes(r))
    {
      SameHashIff(cfg.env.sha, a.receipt, r);
    }
  }

  /** In every run, the outcome of offering a receipt in terms of what the run has registered and
      accepted: the first obstacle decides, and without one the receipt goes to its content's pool. */
  lemma OfferOutcome(cfg: Config, now: nat, events: seq<Event>, r: StorageReceipt)
    requires cfg.duration > 0
    ensures var s, pool := Run(cfg, now, events), Registered(events, r.contentId);
      var start := s.epoch * cfg.duration;
      Verdict(cfg.env, s.collector, r) ==
        if !(start <= r.timestamp < start + cfg.duration + cfg.grace)
        then Reject(TimestampOutOfRange(r.timestamp, start, start + cfg.duration + cfg.grace))
        else if r.storageNode == Zero32() || r.contentId == Zero32() then Reject(InvalidSignature)
        else if ClaimedNow(s, r) || CollidesNow(cfg, s, r) then Reject(DuplicateReceipt(DedupHash(cfg.env.sha, r)))
        else if !cfg.env.signatureOk(r) then Reject(InvalidSignature)
        else if pool.None? then Reject(UnknownPool)
        else Accept(pool.value)
  {
    RunKeepsInv(cfg, now, events);
    RegistryMatches(cfg, now, events, r.contentId);
    SeenIffClaimed(cfg, Run(cfg, now, events), r);
  }

  /** Exactly: offering a receipt adds it to the log if and only if it is in the window, acceptable and
      registered, and this epoch has accepted no receipt with its claim, nor one whose claim collides with
      it. Otherwise nothing changes. */
  lemma OfferAcceptedIff(cfg: Config, now: nat, events: seq<Event>, r: StorageReceipt)
    requires cfg.duration > 0
    ensures var s, s' := Run(cfg, now, events), Run(cfg, now, events + [Offer(r)]);
      var pool := Registered(events, r.contentId);
      if InWindow(cfg, s.epoch, r.timestamp) && Acceptable(cfg, r) && pool.Some?
         && !ClaimedNow(s, r) && !CollidesNow(cfg, s, r)
      then s'.log == s.log + [Accepted(s.epoch, pool.value, r)] && s'.epoch == s.epoch
      else s' == s
  {
    RunSnoc(cfg, now, events, Offer(r));
    OfferOutcome(cfg, now, events, r);
    assert Run(cfg, now, events).log + [] == Run(cfg, now, events).log;
  }

  /** Every entry of the log was offered at some step, in the epoch and for the pool that it names. */
  lemma {:induction false} AcceptedWasOffered(cfg: Config, now: nat, events: seq<Event>, i: nat) returns (n: nat)
    requires cfg.duration > 0 && i < |Run(cfg, now, events).log|
    ensures var a := Run(cfg, now, events).log[i];
      && n < |events| && events[n] == Offer(a.receipt)
      && Run(cfg, now, events[..n]).epoch == a.epoch
      && Registered(events[..n], a.receipt.contentId) == Some(a.pool)
  {
    var init, last := events[..|events| - 1], events[|events| - 1];
    assert events == init + [last];
    LogGrows(cfg, now, init, last);
    if i < |Run(cfg, now, init).log| {
      n := AcceptedWasOffered(cfg, now, init, i);
      assert init[..n] == events[..n];
    } else {
      n := |init|;
    }
  }

  /** One event leaves the log alone or appends the offered receipt, with its epoch and its pool. */
  lemma LogGrows(cfg: Config, now: nat, events: seq<Event>, ev: Event)
    requires cfg.duration > 0
    ensures var s, log := Run(cfg, now, events), Run(cfg, now, events + [ev]).log;
      || log == s.log
      || (ev.Offer? && Registered(events, ev.receipt.contentId).Some?
          && log == s.log + [Accepted(s.epoch, Registered(events, ev.receipt.contentId).value, ev.receipt)])
  {
    if ev.Offer? {
      OfferAcceptedIff(cfg, now, events, ev.receipt);
    } else {
      RunSnoc(cfg, now, events, ev);
    }
  }

  /** The epoch advances once for each epoch end, from the one that holds the clock reading. */
  lemma {:induction false} EpochsCounted(cfg: Config, now: nat, events: seq<Event>)
    requires cfg.duration > 0
    ensures var s := Run(cfg, now, events);
      (s.epoch - EpochEnds(events)) * cfg.duration <= now < (s.epoch - EpochEnds(events) + 1) * cfg.duration
  {
    if |events| == 0 {
      QuotientParts(now, cfg.duration);
      assert (now / cfg.duration + 1) * cfg.duration == now / cfg.duration * cfg.duration + cfg.duration;
    } else {
      EpochsCounted(cfg, now, events[..|events| - 1]);
    }
  }

  function EpochEnds(events: seq<Event>): nat {
    if |events| == 0 then 0
    else EpochEnds(events[..|events| - 1]) + (if events[|events| - 1].EpochEnd? then 1 else 0)
  }

  // ---------- Conservation of weight ----------

  /** The total weight of the postings that went through. */
  function PostedWeight(results: seq<AggResult<Posting>>): nat {
    if |results| == 0 then 0
    else PostedWeight(results[..|results| - 1]) + WeightOfResult(results[|results| - 1])
  }

  function WeightOfResult(r: AggResult<Posting>): nat {
    match r
    case Accept(p) => p.totalWeight
    case Reject(_) => 0
  }

  /** A pool whose pending receipts include one stamped zero. */
  ghost predicate Blocked(pending: seq<Accepted>, pool: Bytes32) {
    exists r :: r in OfPool(pending, pool) && r.timestamp == 0
  }

  /** How many entries of `log` belong to a pool that `pending` blocks. */
  ghost function BlockedCount(pending: seq<Accepted>, log: seq<Accepted>): nat {
    if |log| == 0 then 0
    else BlockedCount(pending, log[..|log| - 1]) + (if Blocked(pending, log[|log| - 1].pool) then 1 else 0)
  }

  /** How many entries of `log` belong to the listed pools that `pending` does not block. */
  ghost function SettledCount(pending: seq<Accepted>, log: seq<Accepted>, order: seq<Bytes32>): nat {
    if |order| == 0 then 0
    else
      var pool := order[|order| - 1];
      SettledCount(pending, log, order[..|order| - 1]) + (if Blocked(pending, pool) then 0 else |OfPool(log, pool)|)
  }

  lemma {:induction false} SettledCountSnoc(pending: seq<Accepted>, log: seq<Accepted>, a: Accepted,
                                            order: seq<Bytes32>)
    requires forall i, j :: 0 <= i < j < |order| ==> order[i] != order[j]
    ensures SettledCount(pending, log + [a], order) ==
      SettledCount(pending, log, order) + (if a.pool in order && !Blocked(pending, a.pool) then 1 else 0)
    decreases |order|
  {
    if |order| > 0 {
      var init, last := order[..|order| - 1], order[|order| - 1];
      assert order == init + [last];
      SettledCountSnoc(pending, log, a, init);
      OfPoolSnoc(log, a, last);
    }
  }

  /** Every accepted receipt counts once: in a settled pool or in a blocked one. */
  lemma {:induction false} SettledAndBlocked(pending: seq<Accepted>, log: seq<Accepted>, order: seq<Bytes32>)
    requires forall i, j :: 0 <= i < j < |order| ==> order[i] != order[j]
    requires forall a :: a in log ==> a.pool in order
    ensures SettledCount(pending, log, order) + BlockedCount(pending, log) == |log|
    decreases |log|
  {
    if |log| == 0 {
      SettledCountEmpty(pending, order);
    } else {
      var init, last := log[..|log| - 1], log[|log| - 1];
      assert log == init + [last];
      SettledAndBlocked(pending, init, order);
      SettledCountSnoc(pending, init, last, order);
    }
  }

  lemma {:induction false} SettledCountEmpty(pending: seq<Accepted>, order: seq<Bytes32>)
    ensures SettledCount(pending, [], order) == 0
  {
    if |order| > 0 { SettledCountEmpty(pending, order[..|order| - 1]); }
  }

  lemma {:induction false} BlockedCountZeroIff(pending: seq<Accepted>, log: seq<Accepted>)
    ensures BlockedCount(pending, log) == 0 <==> forall a :: a in log ==> !Blocked(pending, a.pool)
  {
    if |log| > 0 {
      BlockedCountZeroIff(pending, log[..|log| - 1]);
      assert log == log[..|log| - 1] + [log[|log| - 1]];
    }
  }

  /** Nothing is blocked exactly when nothing pending is stamped zero. */
  lemma NothingBlockedIff(pending: seq<Accepted>)
    ensures BlockedCount(pending, pending) == 0 <==> forall a :: a in pending ==> a.receipt.timestamp != 0
  {
    BlockedCountZeroIff(pending, pending);
    forall a | a in pending && a.receipt.timestamp == 0 ensures Blocked(pending, a.pool) {
      OfPoolMembers(pending, a.pool, a.receipt);
    }
    forall a | a in pending && Blocked(pending, a.pool)
      ensures exists b :: b in pending && b.receipt.timestamp == 0
    {
      var r :| r in OfPool(pending, a.pool) && r.timestamp == 0;
      OfPoolMembers(pending, a.pool, r);
    }
  }

  lemma {:induction false} PostedWeightConcat(a: seq<AggResult<Posting>>, b: seq<AggResult<Posting>>)
    ensures PostedWeight(a + b) == PostedWeight(a) + PostedWeight(b)
    decreases |b|
  {
    if |b| == 0 {
      assert a + b == a;
    } else {
      PostedWeightConcat(a, b[..|b| - 1]);
      assert (a + b)[..|a + b| - 1] == a + b[..|b| - 1];
    }
  }

  /** A pending receipt names a storage node, so only a zero stamp can make it unprovable. */
  lemma PendingProvableIff(cfg: Config, s: RunState, pool: Bytes32)
    requires Inv(cfg, s)
    ensures forall r :: r in OfPool(OfEpoch(s.log, s.epoch), pool) ==> (Provable(r) <==> r.timestamp != 0)
  {
    forall r | r in OfPool(OfEpoch(s.log, s.epoch), pool) ensures r.storageNode != Zero32() {
      OfPoolMembers(OfEpoch(s.log, s.epoch), pool, r);
      var a :| a in OfEpoch(s.log, s.epoch) && a.pool == pool && a.receipt == r;
      OfEpochMembers(s.log, s.epoch, a);
    }
  }

  /** In any run, a pending batch can be settled exactly when none of its receipts is stamped zero. */
  lemma SettledIffNoZeroTimestamp(cfg: Config, now: nat, events: seq<Event>, pool: Bytes32)
    requires cfg.duration > 0
    requires pool in Run(cfg, now, events).collector.poolReceipts
    ensures var receipts := Run(cfg, now, events).collector.poolReceipts[pool];
      Settle(cfg.env.sha, pool, receipts).Accept? <==> forall r :: r in receipts ==> r.timestamp != 0
  {
    var s := Run(cfg, now, events);
    RunKeepsInv(cfg, now, events);
    PendingProvableIff(cfg, s, pool);
    assert Queue(s.collector.poolReceipts, pool) == OfPool(OfEpoch(s.log, s.epoch), pool);
    BuildSucceedsIff(cfg.env.sha, pool, s.collector.poolReceipts[pool]);
  }

  /** Settling one pool posts the number of receipts pending for it, or nothing when it is blocked. */
  lemma SettleOneConserves(cfg: Config, s: RunState, pool: Bytes32)
    requires Inv(cfg, s) && |Queue(s.collector.poolReceipts, pool)| < U64
    ensures var pending := OfEpoch(s.log, s.epoch);
      PostedWeight(SettleOne(cfg.env.sha, pool, s.collector.poolReceipts))
      == if Blocked(pending, pool) then 0 else |OfPool(pending, pool)|
  {
    var receipts := Queue(s.collector.poolReceipts, pool);
    assert receipts == OfPool(OfEpoch(s.log, s.epoch), pool);
    if |receipts| > 0 {
      PendingProvableIff(cfg, s, pool);
      BuildSucceedsIff(cfg.env.sha, pool, receipts);
      if BatchOf(cfg.env.sha, pool, receipts).Accept? {
        BatchConservesWeight(cfg.env.sha, pool, receipts);
      }
      PostedWeightOne(Settle(cfg.env.sha, pool, receipts));
    }
  }

  lemma PostedWeightOne(r: AggResult<Posting>)
    ensures PostedWeight([r]) == WeightOfResult(r)
  {
    assert [r][..0] == [];
  }

  /** In epoch zero a receipt stamped zero is accepted and then blocks its pool's batch. */
  lemma EpochZeroCanFail(cfg: Config, r: StorageReceipt, pool: Bytes32)
    requires cfg.duration > 0 && cfg.env.signatureOk(r)
    requires r.timestamp == 0 && r.storageNode != Zero32() && r.contentId != Zero32()
    ensures var s := Run(cfg, 0, [Register(r.contentId, pool), Offer(r)]);
      && s.log == [Accepted(0, pool, r)] && s.collector.poolReceipts == map[pool := [r]]
      && Settle(cfg.env.sha, pool, [r]).Reject?
  {
    var events := [Register(r.contentId, pool), Offer(r)];
    assert events[..1] == [Register(r.contentId, pool)] && events[..1][..0] == [];
    assert Run(cfg, 0, events[..1]) == Step(cfg, Start(cfg, 0), Register(r.contentId, pool));
    assert Run(cfg, 0, events).collector.poolReceipts == map[][pool := [r]] by { assert [] + [r] == [r]; }
    assert r in [r];
    SettledIffNoZeroTimestamp(cfg, 0, events, pool);
  }

  lemma {:induction false} SettleAllConserves(cfg: Config, s: RunState, order: seq<Bytes32>)
    requires Inv(cfg, s) && forall p :: |Queue(s.collector.poolReceipts, p)| < U64
    ensures var pending := OfEpoch(s.log, s.epoch);
      PostedWeight(SettleAll(cfg.env.sha, order, s.collector.poolReceipts)) == SettledCount(pending, pending, order)
    decreases |order|
  {
    if |order| > 0 {
      var init, pool, m := order[..|order| - 1], order[|order| - 1], s.collector.poolReceipts;
      SettleAllConserves(cfg, s, init);
      SettleOneConserves(cfg, s, pool);
      PostedWeightConcat(SettleAll(cfg.env.sha, init, m), SettleOne(cfg.env.sha, pool, m));
    }
  }

  /** Closing an epoch of any run, in whatever order the pools are visited: the posted weights and the
      receipts of blocked pools add up to the receipts accepted in the epoch. */
  lemma EpochEndAccounts(cfg: Config, now: nat, events: seq<Event>, order: seq<Bytes32>)
    requires cfg.duration > 0 && |Run(cfg, now, events).log| < U64
    requires Lists(order, Run(cfg, now, events).collector.poolReceipts.Keys)
    ensures var s := Run(cfg, now, events);
      var pending := OfEpoch(s.log, s.epoch);
      PostedWeight(SettleAll(cfg.env.sha, order, s.collector.poolReceipts)) + BlockedCount(pending, pending)
      == |pending|
  {
    var s := Run(cfg, now, events);
    var pending := OfEpoch(s.log, s.epoch);
    RunKeepsInv(cfg, now, events);
    forall p ensures |Queue(s.collector.poolReceipts, p)| < U64 {
      assert Queue(s.collector.poolReceipts, p) == OfPool(pending, p);
      OfPoolLength(pending, p);
      OfEpochLength(s.log, s.epoch);
    }
    SettleAllConserves(cfg, s, order);
    forall a | a in pending ensures a.pool in order {
      OfPoolMembers(pending, a.pool, a.receipt);
      assert Queue(s.collector.poolReceipts, a.pool) == OfPool(pending, a.pool);
    }
    SettledAndBlocked(pending, pending, order);
  }

  /** So the weight of the epoch is conserved exactly when nothing accepted in it is stamped zero. */
  lemma EpochEndConservesIff(cfg: Config, now: nat, events: seq<Event>, order: seq<Bytes32>)
    requires cfg.duration > 0 && |Run(cfg, now, events).log| < U64
    requires Lists(order, Run(cfg, now, events).collector.poolReceipts.Keys)
    ensures var s := Run(cfg, now, events);
      PostedWeight(SettleAll(cfg.env.sha, order, s.collector.poolReceipts)) == |OfEpoch(s.log, s.epoch)|
      <==> forall a :: a in s.log && a.epoch == s.epoch ==> a.receipt.timestamp != 0
  {
    var s := Run(cfg, now, events);
    var pending := OfEpoch(s.log, s.epoch);
    EpochEndAccounts(cfg, now, events, order);
    NothingBlockedIff(pending);
    forall a ensures a in pending <==> a in s.log && a.epoch == s.epoch {
      OfEpochMembers(s.log, s.epoch, a);
    }
  }

  /** Only epoch zero accepts a zero stamp, so every later epoch conserves its weight. */
  lemma LaterEpochsUnblocked(cfg: Config, log: seq<Accepted>, epoch: nat)
    requires cfg.duration > 0 && LogSound(cfg, log, epoch) && epoch >= 1
    ensures BlockedCount(OfEpoch(log, epoch), OfEpoch(log, epoch)) == 0
  {
    OneMultiple(0, epoch, cfg.duration);
    forall a | a in OfEpoch(log, epoch) ensures a.receipt.timestamp != 0 {
      OfEpochMembers(log, epoch, a);
    }
    NothingBlockedIff(OfEpoch(log, epoch));
  }

  /** In every run, closing an epoch after epoch zero settles every pool with receipts and posts one unit
      for each receipt accepted in it. */
  lemma LaterEpochsConserve(cfg: Config, now: nat, events: seq<Event>, order: seq<Bytes32>)
    requires cfg.duration > 0 && |Run(cfg, now, events).log| < U64
    requires Lists(order, Run(cfg, now, events).collector.poolReceipts.Keys)
    requires Run(cfg, now, events).epoch >= 1
    ensures var s := Run(cfg, now, events);
      && PostedWeight(SettleAll(cfg.env.sha, order, s.collector.poolReceipts)) == |OfEpoch(s.log, s.epoch)|
      && forall p :: p in s.collector.poolReceipts ==>
           Settle(cfg.env.sha, p, s.collector.poolReceipts[p]).Accept?
  {
    var s := Run(cfg, now, events);
    var pending := OfEpoch(s.log, s.epoch);
    RunKeepsInv(cfg, now, events);
    LaterEpochsUnblocked(cfg, s.log, s.epoch);
    EpochEndAccounts(cfg, now, events, order);
    NothingBlockedIff(pending);
    forall p | p in s.collector.poolReceipts ensures Settle(cfg.env.sha, p, s.collector.poolReceipts[p]).Accept? {
      SettledIffNoZeroTimestamp(cfg, now, events, p);
      assert Queue(s.collector.poolReceipts, p) == OfPool(pending, p);
      forall r | r in OfPool(pending, p) ensures r.timestamp != 0 {
        OfPoolMembers(pending, p, r);
      }
    }
  }

  /** How many receipts of an operator the log holds for one epoch and pool. */
  function AcceptedFrom(log: seq<Accepted>, epoch: nat, pool: Bytes32, operator: Bytes32): nat {
    if |log| == 0 then 0
    else
      var last := log[|log| - 1];
      AcceptedFrom(log[..|log| - 1], epoch, pool, operator)
      + (if last.epoch == epoch && last.pool == pool && last.receipt.storageNode == operator then 1 else 0)
  }

  lemma PendingSnoc(log: seq<Accepted>, a: Accepted, epoch: nat, pool: Bytes32)
    ensures OfPool(OfEpoch(log + [a], epoch), pool)
      == if a.epoch == epoch && a.pool == pool
         then OfPool(OfEpoch(log, epoch), pool) + [a.receipt]
         else OfPool(OfEpoch(log, epoch), pool)
  {
    OfEpochSnoc(log, a, epoch);
    if a.epoch == epoch {
      OfPoolSnoc(OfEpoch(log, epoch), a, pool);
    } else {
      assert OfEpoch(log + [a], epoch) == OfEpoch(log, epoch);
    }
  }

  lemma EarnedSnoc(receipts: seq<StorageReceipt>, r: StorageReceipt, operator: Bytes32)
    ensures Earned(Contributions(receipts + [r]), operator)
      == Earned(Contributions(receipts), operator) + (if r.storageNode == operator then 1 else 0)
  {
    var all := Contributions(receipts + [r]);
    assert all[..|receipts|] == Contributions(receipts);
  }

  /** The queue of a pool gives each operator one unit for each of its receipts. */
  lemma {:induction false} EarnedIsAccepted(log: seq<Accepted>, epoch: nat, pool: Bytes32, operator: Bytes32)
    ensures Earned(Contributions(OfPool(OfEpoch(log, epoch), pool)), operator)
      == AcceptedFrom(log, epoch, pool, operator)
  {
    if |log| > 0 {
      var init, last := log[..|log| - 1], log[|log| - 1];
      EarnedIsAccepted(init, epoch, pool, operator);
      assert log == init + [last];
      var before := OfPool(OfEpoch(init, epoch), pool);
      PendingSnoc(init, last, epoch, pool);
      EarnedSnoc(before, last.receipt, operator);
    }
  }

  /** In every run, a pool that can be settled is posted with, for each operator, exactly the number of
      receipts that the epoch accepted for that pool from that operator. */
  lemma PostingPaysOperators(cfg: Config, now: nat, events: seq<Event>, pool: Bytes32, operator: Bytes32)
    requires cfg.duration > 0 && pool in Run(cfg, now, events).collector.poolReceipts
    ensures var s := Run(cfg, now, events);
      var posted := Settle(cfg.env.sha, pool, s.collector.poolReceipts[pool]);
      posted.Accept? ==>
        && posted.value.poolPubkey == pool
        && WeightOf(posted.value.weights, operator) == AcceptedFrom(s.log, s.epoch, pool, operator)
        && (HasKey(posted.value.weights, operator) <==> AcceptedFrom(s.log, s.epoch, pool, operator) > 0)
  {
    var s := Run(cfg, now, events);
    var receipts := s.collector.poolReceipts[pool];
    RunKeepsInv(cfg, now, events);
    assert Queue(s.collector.poolReceipts, pool) == OfPool(OfEpoch(s.log, s.epoch), pool);
    FoldMeaning(Contributions(receipts), operator);
    MentionedIsEarned(receipts, operator);
    EarnedIsAccepted(s.log, s.epoch, pool, operator);
  }

  /** In every run, closing the epoch reports one result for each pool with receipts, failed or not. */
  lemma OneResultPerPool(cfg: Config, now: nat, events: seq<Event>, order: seq<Bytes32>)
    requires cfg.duration > 0
    requires Lists(order, Run(cfg, now, events).collector.poolReceipts.Keys)
    ensures var m := Run(cfg, now, events).collector.poolReceipts;
      var results := SettleAll(cfg.env.sha, order, m);
      && |results| == |order|
      && forall i :: 0 <= i < |order| ==>
           order[i] in m && |m[order[i]]| > 0 && results[i] == Settle(cfg.env.sha, order[i], m[order[i]])
  {
    var m := Run(cfg, now, events).collector.poolReceipts;
    RunKeepsInv(cfg, now, events);
    forall i | 0 <= i < |order| ensures order[i] in m && |m[order[i]]| > 0 {
      assert order[i] in order;
    }
    ResultsInOrder(cfg.env.sha, order, m);
  }

  lemma {:induction false} ResultsInOrder(sha: Sha256, order: seq<Bytes32>, m: map<Bytes32, seq<StorageReceipt>>)
    requires forall i :: 0 <= i < |order| ==> order[i] in m && |m[order[i]]| > 0
    ensures |SettleAll(sha, order, m)| == |order|
    ensures forall i :: 0 <= i < |order| ==> SettleAll(sha, order, m)[i] == Settle(sha, order[i], m[order[i]])
  {
    if |order| > 0 {
      ResultsInOrder(sha, order[..|order| - 1], m);
    }
  }

  /** In every run, the root and the total of a posted pool are those of the posted weights. */
  lemma PostingCommits(cfg: Config, now: nat, events: seq<Event>, pool: Bytes32)
    requires cfg.duration > 0 && pool in Run(cfg, now, events).collector.poolReceipts
    requires |Run(cfg, now, events).log| < U64
    ensures var receipts := Run(cfg, now, events).collector.poolReceipts[pool];
      var posted := Settle(cfg.env.sha, pool, receipts);
      posted.Accept? ==>
        && posted.value.root == Root(cfg.env.sha, Leaves(cfg.env.sha, posted.value.weights))
        && posted.value.totalWeight == TotalWeight(posted.value.weights) == |receipts|
  {
    var s := Run(cfg, now, events);
    RunKeepsInv(cfg, now, events);
    assert Queue(s.collector.poolReceipts, pool) == OfPool(OfEpoch(s.log, s.epoch), pool);
    OfPoolLength(OfEpoch(s.log, s.epoch), pool);
    OfEpochLength(s.log, s.epoch);
    if Settle(cfg.env.sha, pool, s.collector.poolReceipts[pool]).Accept? {
      SettledRoot(cfg.env.sha, pool, s.collector.poolReceipts[pool]);
    }
  }

  lemma {:induction false} MentionedIsEarned(receipts: seq<StorageReceipt>, operator: Bytes32)
    ensures Mentions(Contributions(receipts), operator) <==> Earned(Contributions(receipts), operator) > 0
  {
    var all := Contributions(receipts);
    if |receipts| > 0 {
      var init, last := receipts[..|receipts| - 1], receipts[|receipts| - 1];
      MentionedIsEarned(init, operator);
      EarnedSnoc(init, last, operator);
      assert receipts == init + [last];
      assert forall i :: 0 <= i < |init| ==> Contributions(init)[i] == all[i];
      assert all[|init|] == AsContribution(last);
    }
  }

  lemma {:induction false} OfPoolLength(log: seq<Accepted>, pool: Bytes32)
    ensures |OfPool(log, pool)| <= |log|
  {
    if |log| > 0 { OfPoolLength(log[..|log| - 1], pool); }
  }

  lemma {:induction false} OfEpochLength(log: seq<Accepted>, epoch: nat)
    ensures |OfEpoch(log, epoch)| <= |log|
  {
    if |log| > 0 { OfEpochLength(log[..|log| - 1], epoch); }
  }

  // ---------- Overlapping windows ----------

  /** How often one receipt was accepted over the whole run. */
  function TimesAccepted(log: seq<Accepted>, r: StorageReceipt): nat {
    if |log| == 0 then 0
    else TimesAccepted(log[..|log| - 1], r) + (if log[|log| - 1].receipt == r then 1 else 0)
  }

  /** How often receipts with the claim of `r` were accepted over the whole run. */
  function TimesClaimed(log: seq<Accepted>, r: StorageReceipt): nat {
    if |log| == 0 then 0
    else TimesClaimed(log[..|log| - 1], r) + (if SameClaim(log[|log| - 1].receipt, r) then 1 else 0)
  }

  /** The first epoch whose window, grace period included, holds the timestamp. */
  function FirstWindow(cfg: Config, t: nat): nat
    requires cfg.duration > 0
  {
    if t < cfg.grace then 0 else (t - cfg.grace) / cfg.duration
  }

  /** The windows that hold a timestamp, exactly: the last one is the timestamp's own epoch. */
  lemma WindowsOfTimestamp(cfg: Config, epoch: nat, t: nat)
    requires cfg.duration > 0
    ensures InWindow(cfg, epoch, t) <==> FirstWindow(cfg, t) <= epoch <= t / cfg.duration
  {
    var d := cfg.duration;
    MultipleFitsIff(epoch, d, t);
    if t >= cfg.grace {
      MultipleFitsIff(epoch + 1, d, t - cfg.grace);
      NextMultiple(epoch, d);
    }
  }

  lemma ReachArithmetic(first: nat, own: nat, c: nat, d: nat, grace: nat, t: nat)
    requires own * d <= t < first * d + d + grace && grace <= c * d
    ensures own <= first + c
  {
    assert (first + c) * d == first * d + c * d;
    if own > first + c {
      OneMultiple(first + c, own, d);
    }
  }

  lemma OwnWindow(cfg: Config, t: nat)
    requires cfg.duration > 0
    ensures InWindow(cfg, t / cfg.duration, t)
    ensures t >= cfg.duration ==>
      t / cfg.duration >= 1 && (InWindow(cfg, t / cfg.duration - 1, t) <==> t % cfg.duration < cfg.grace)
    ensures t < cfg.duration ==> t / cfg.duration == 0
  {
    var d, own := cfg.duration, t / cfg.duration;
    QuotientParts(t, d);
    if t >= d {
      assert (own - 1) * d == own * d - d;
    }
  }

  /** The windows of a timestamp reach back over the grace period, and there is only one exactly when
      the stamp lies in epoch zero or past the grace period of the epoch before. */
  lemma GraceReach(cfg: Config, t: nat)
    requires cfg.duration > 0
    ensures FirstWindow(cfg, t) <= t / cfg.duration <= FirstWindow(cfg, t) + DivCeil(cfg.grace, cfg.duration)
    ensures FirstWindow(cfg, t) == t / cfg.duration <==> t < cfg.duration || t % cfg.duration >= cfg.grace
  {
    var d, own, first, c := cfg.duration, t / cfg.duration, FirstWindow(cfg, t), DivCeil(cfg.grace, cfg.duration);
    OwnWindow(cfg, t);
    WindowsOfTimestamp(cfg, own, t);
    WindowsOfTimestamp(cfg, first, t);
    DivCeilCovers(cfg.grace, d, c);
    ReachArithmetic(first, own, c, d, cfg.grace, t);
    if t >= d {
      WindowsOfTimestamp(cfg, own - 1, t);
    }
  }

  /** How many windows hold the timestamp. */
  function WindowCount(cfg: Config, t: nat): nat
    requires cfg.duration > 0
  {
    GraceReach(cfg, t);
    t / cfg.duration - FirstWindow(cfg, t) + 1
  }

  /** The epochs in which a claim was accepted. */
  ghost function EpochsOf(log: seq<Accepted>, r: StorageReceipt): set<nat> {
    if |log| == 0 then {}
    else
      var last := log[|log| - 1];
      EpochsOf(log[..|log| - 1], r) + (if SameClaim(last.receipt, r) then {last.epoch} else {})
  }

  lemma {:induction false} EpochsMembers(log: seq<Accepted>, r: StorageReceipt, e: nat)
    ensures e in EpochsOf(log, r) <==> exists a :: a in log && SameClaim(a.receipt, r) && a.epoch == e
  {
    if |log| > 0 {
      var init, last := log[..|log| - 1], log[|log| - 1];
      EpochsMembers(init, r, e);
      assert log == init + [last];
      assert last in log;
    }
  }

  lemma {:induction false} EpochsCount(cfg: Config, log: seq<Accepted>, r: StorageReceipt)
    requires AtMostOnce(cfg, log)
    ensures |EpochsOf(log, r)| == TimesClaimed(log, r)
  {
    if |log| > 0 {
      var init, last := log[..|log| - 1], log[|log| - 1];
      EpochsCount(cfg, init, r);
      EpochsMembers(init, r, last.epoch);
    }
  }

  lemma {:induction false} IntervalCardinality(s: set<nat>, lo: int, hi: int)
    requires forall e :: e in s ==> lo <= e <= hi
    requires lo <= hi + 1
    ensures |s| <= hi - lo + 1
    decreases hi - lo + 1
  {
    if lo == hi + 1 {
      assert s == {};
    } else {
      IntervalCardinality(s - {hi}, lo, hi - 1);
    }
  }

  /** Over a whole run, all the receipts that state one claim together are accepted at most once for each
      window that holds its timestamp, whatever their nonces and signatures. */
  lemma ClaimedAtMostWindows(cfg: Config, now: nat, events: seq<Event>, r: StorageReceipt)
    requires cfg.duration > 0
    ensures TimesClaimed(Run(cfg, now, events).log, r) <= WindowCount(cfg, r.timestamp)
  {
    var log := Run(cfg, now, events).log;
    var first, own := FirstWindow(cfg, r.timestamp), r.timestamp / cfg.duration;
    RunKeepsInv(cfg, now, events);
    EpochsCount(cfg, log, r);
    forall e | e in EpochsOf(log, r) ensures first <= e <= own {
      EpochsMembers(log, r, e);
      WindowsOfTimestamp(cfg, e, r.timestamp);
    }
    GraceReach(cfg, r.timestamp);
    IntervalCardinality(EpochsOf(log, r), first, own);
  }

  lemma {:induction false} AcceptedWithinClaim(log: seq<Accepted>, a: StorageReceipt, r: StorageReceipt)
    requires SameClaim(a, r)
    ensures TimesAccepted(log, a) <= TimesClaimed(log, r) <= |log|
  {
    if |log| > 0 { AcceptedWithinClaim(log[..|log| - 1], a, r); }
  }

  lemma {:induction false} SomeAccepted(log: seq<Accepted>, r: StorageReceipt) returns (a: Accepted)
    requires TimesClaimed(log, r) > 0
    ensures a in log && SameClaim(a.receipt, r)
    ensures TimesAccepted(log, r) > 0 ==> exists b :: b in log && b.receipt == r
  {
    var init, last := log[..|log| - 1], log[|log| - 1];
    assert log == init + [last];
    a := last;
    if SameClaim(last.receipt, r) {
      assert last in log;
    }
    if TimesClaimed(init, r) > 0 {
      a := SomeAccepted(init, r);
    }
    AcceptedWithinClaim(init, r, r);
  }

  /** In particular one receipt; and only an acceptable one is accepted at all. */
  lemma AcceptedAtMostWindows(cfg: Config, now: nat, events: seq<Event>, r: StorageReceipt)
    requires cfg.duration > 0
    ensures TimesAccepted(Run(cfg, now, events).log, r) <= WindowCount(cfg, r.timestamp)
    ensures TimesAccepted(Run(cfg, now, events).log, r) > 0 ==> Acceptable(cfg, r)
  {
    var log := Run(cfg, now, events).log;
    ClaimedAtMostWindows(cfg, now, events, r);
    AcceptedWithinClaim(log, r, r);
    RunKeepsInv(cfg, now, events);
    if TimesAccepted(log, r) > 0 {
      var a := SomeAccepted(log, r);
    }
  }

  /** That is never more than `1 + ceil(grace / duration)` times. */
  lemma OverlapIsBounded(cfg: Config, now: nat, events: seq<Event>, r: StorageReceipt)
    requires cfg.duration > 0
    ensures TimesClaimed(Run(cfg, now, events).log, r) <= 1 + DivCeil(cfg.grace, cfg.duration)
  {
    ClaimedAtMostWindows(cfg, now, events, r);
    GraceReach(cfg, r.timestamp);
  }

  /** The same receipt offered in each of `n` consecutive epochs. */
  function Rounds(r: StorageReceipt, n: nat): seq<Event> {
    if n == 0 then [] else Rounds(r, n - 1) + [Offer(r), EpochEnd]
  }

  function Replay(r: StorageReceipt, pool: Bytes32, n: nat): seq<Event> {
    [Register(r.contentId, pool)] + Rounds(r, n)
  }

  lemma TimesAcceptedSnoc(log: seq<Accepted>, a: Accepted, r: StorageReceipt)
    ensures TimesAccepted(log + [a], r) == TimesAccepted(log, r) + (if a.receipt == r then 1 else 0)
  {
    assert (log + [a])[..|log|] == log;
  }

  /** The epoch has just been opened and the content of the receipt has a pool. */
  ghost predicate Opened(cfg: Config, s: RunState, r: StorageReceipt) {
    && s.collector.seen == {} && r.contentId in s.collector.cidToPool
    && s.collector.epochStart == s.epoch * cfg.duration && s.collector.graceSecs == cfg.grace
    && s.collector.epochEnd == s.epoch * cfg.duration + cfg.duration
  }

  /** An epoch whose window holds the timestamp accepts the receipt, whatever was accepted before. */
  lemma RoundIsAccepted(cfg: Config, s: RunState, r: StorageReceipt)
    requires Acceptable(cfg, r) && InWindow(cfg, s.epoch, r.timestamp) && Opened(cfg, s, r)
    ensures var s' := Step(cfg, Step(cfg, s, Offer(r)), EpochEnd);
      && s'.epoch == s.epoch + 1 && Opened(cfg, s', r)
      && TimesAccepted(s'.log, r) == TimesAccepted(s.log, r) + 1 && |s'.log| == |s.log| + 1
  {
    var pool := s.collector.cidToPool[r.contentId];
    FreshIsAccepted(cfg, s, r);
    AcceptedState(cfg, s, r, pool);
    EpochEndOpens(cfg, Step(cfg, s, Offer(r)), r);
    TimesAcceptedSnoc(s.log, Accepted(s.epoch, pool, r), r);
  }

  lemma EpochEndOpens(cfg: Config, s: RunState, r: StorageReceipt)
    requires r.contentId in s.collector.cidToPool && s.collector.graceSecs == cfg.grace
    ensures var s' := Step(cfg, s, EpochEnd);
      s'.epoch == s.epoch + 1 && s'.log == s.log && Opened(cfg, s', r)
  {}

  lemma FreshIsAccepted(cfg: Config, s: RunState, r: StorageReceipt)
    requires Acceptable(cfg, r) && InWindow(cfg, s.epoch, r.timestamp) && Opened(cfg, s, r)
    ensures Verdict(cfg.env, s.collector, r) == Accept(s.collector.cidToPool[r.contentId])
  {}

  lemma StartIsOpened(cfg: Config, first: nat, r: StorageReceipt, pool: Bytes32)
    requires cfg.duration > 0
    ensures var s := Step(cfg, Start(cfg, first * cfg.duration), Register(r.contentId, pool));
      s.epoch == first && Opened(cfg, s, r) && s.log == []
  {
    QuotientOfMultiple(first, cfg.duration);
  }

  /** The epoch is freshly opened after `n` epochs that each accepted the receipt. */
  ghost predicate Replayed(cfg: Config, s: RunState, r: StorageReceipt, first: nat, n: nat) {
    s.epoch == first + n && Opened(cfg, s, r) && TimesAccepted(s.log, r) == |s.log| == n
  }

  lemma ReplayStart(cfg: Config, r: StorageReceipt, pool: Bytes32, first: nat)
    requires cfg.duration > 0
    ensures Replayed(cfg, Run(cfg, first * cfg.duration, Replay(r, pool, 0)), r, first, 0)
  {
    assert Replay(r, pool, 0) == [] + [Register(r.contentId, pool)];
    RunSnoc(cfg, first * cfg.duration, [], Register(r.contentId, pool));
    StartIsOpened(cfg, first, r, pool);
  }

  lemma RunRound(cfg: Config, now: nat, r: StorageReceipt, pool: Bytes32, n: nat)
    requires cfg.duration > 0 && n > 0
    ensures Run(cfg, now, Replay(r, pool, n))
      == Step(cfg, Step(cfg, Run(cfg, now, Replay(r, pool, n - 1)), Offer(r)), EpochEnd)
  {
    var before := Replay(r, pool, n - 1);
    assert Replay(r, pool, n) == before + [Offer(r)] + [EpochEnd];
    RunSnoc(cfg, now, before, Offer(r));
    RunSnoc(cfg, now, before + [Offer(r)], EpochEnd);
  }

  /** Every window that holds the timestamp accepts an acceptable receipt again. */
  lemma {:induction false} ReplayIsAccepted(cfg: Config, r: StorageReceipt, pool: Bytes32, first: nat, n: nat)
    requires cfg.duration > 0 && Acceptable(cfg, r)
    requires FirstWindow(cfg, r.timestamp) <= first && (n > 0 ==> first + n - 1 <= r.timestamp / cfg.duration)
    ensures Replayed(cfg, Run(cfg, first * cfg.duration, Replay(r, pool, n)), r, first, n)
  {
    if n == 0 {
      ReplayStart(cfg, r, pool, first);
    } else {
      ReplayIsAccepted(cfg, r, pool, first, n - 1);
      RunRound(cfg, first * cfg.duration, r, pool, n);
      WindowsOfTimestamp(cfg, first + n - 1, r.timestamp);
      RoundIsAccepted(cfg, Run(cfg, first * cfg.duration, Replay(r, pool, n - 1)), r);
    }
  }

  lemma WindowsAttained(cfg: Config, r: StorageReceipt, n: nat)
    requires cfg.duration > 0 && n > 0 && Acceptable(cfg, r) && n <= WindowCount(cfg, r.timestamp)
    ensures exists now, events ::
      TimesAccepted(Run(cfg, now, events).log, r) == |Run(cfg, now, events).log| == n
  {
    var first := FirstWindow(cfg, r.timestamp);
    var now, events := first * cfg.duration, Replay(r, Zero32(), n);
    ReplayIsAccepted(cfg, r, Zero32(), first, n);
    assert TimesAccepted(Run(cfg, now, events).log, r) == |Run(cfg, now, events).log| == n;
  }

  /** Exactly: some run accepts the receipt `n` times if and only if it is acceptable and `n` windows
      hold its timestamp. */
  lemma AcceptedTimesIff(cfg: Config, r: StorageReceipt, n: nat)
    requires cfg.duration > 0 && n > 0
    ensures (exists now, events :: TimesAccepted(Run(cfg, now, events).log, r) == n)
      <==> Acceptable(cfg, r) && n <= WindowCount(cfg, r.timestamp)
  {
    if now, events :| TimesAccepted(Run(cfg, now, events).log, r) == n {
      AcceptedAtMostWindows(cfg, now, events, r);
    }
    if Acceptable(cfg, r) && n <= WindowCount(cfg, r.timestamp) {
      WindowsAttained(cfg, r, n);
    }
  }

  /** The same for a claim, which any receipt that states it can carry. */
  lemma ClaimedTimesIff(cfg: Config, r: StorageReceipt, n: nat)
    requires cfg.duration > 0 && n > 0
    ensures (exists now, events :: TimesClaimed(Run(cfg, now, events).log, r) == n)
      <==> (exists a :: SameClaim(a, r) && Acceptable(cfg, a)) && n <= WindowCount(cfg, r.timestamp)
  {
    if now, events :| TimesClaimed(Run(cfg, now, events).log, r) == n {
      ClaimedAtMostWindows(cfg, now, events, r);
      RunKeepsInv(cfg, now, events);
      var b := SomeAccepted(Run(cfg, now, events).log, r);
      assert SameClaim(b.receipt, r) && Acceptable(cfg, b.receipt);
    }
    if a :| SameClaim(a, r) && Acceptable(cfg, a) && n <= WindowCount(cfg, r.timestamp) {
      WindowsAttained(cfg, a, n);
      var now, events :|
        TimesAccepted(Run(cfg, now, events).log, a) == |Run(cfg, now, events).log| == n;
      AcceptedWithinClaim(Run(cfg, now, events).log, a, r);
    }
  }

  /** A receipt can count twice exactly when its stamp lies past epoch zero and within the grace
      period that the previous epoch still has open. */
  lemma AcceptedTwiceIff(cfg: Config, r: StorageReceipt)
    requires cfg.duration > 0
    ensures (exists now, events :: TimesAccepted(Run(cfg, now, events).log, r) >= 2)
      <==> Acceptable(cfg, r) && r.timestamp >= cfg.duration && r.timestamp % cfg.duration < cfg.grace
  {
    GraceReach(cfg, r.timestamp);
    AcceptedTimesIff(cfg, r, 2);
    if now, events :| TimesAccepted(Run(cfg, now, events).log, r) >= 2 {
      AcceptedAtMostWindows(cfg, now, events, r);
    }
  }

  // ---------- The objects follow the state machine ----------

  /** The service object is in the state that the run prescribes. */
  ghost predicate Represents(service: AggregatorService, cfg: Config, s: RunState)
    reads service, service.collector
  {
    && service.duration == cfg.duration && service.collector.env == cfg.env
    && service.currentEpoch == s.epoch && service.collector.State() == s.collector
  }

  lemma {:induction false} LogAtMostEvents(cfg: Config, now: nat, events: seq<Event>)
    requires cfg.duration > 0
    ensures |Run(cfg, now, events).log| <= |events|
  {
    if |events| > 0 { LogAtMostEvents(cfg, now, events[..|events| - 1]); }
  }

  lemma QueuesAreBounded(cfg: Config, now: nat, events: seq<Event>, p: Bytes32)
    requires cfg.duration > 0 && |events| < U64
    ensures |Queue(Run(cfg, now, events).collector.poolReceipts, p)| < U64
  {
    var s := Run(cfg, now, events);
    RunKeepsInv(cfg, now, events);
    LogAtMostEvents(cfg, now, events);
    OfPoolLength(OfEpoch(s.log, s.epoch), p);
    OfEpochLength(s.log, s.epoch);
  }

  /** What is accepted but will never be posted: the receipts of the pools that a zero stamp blocked
      when epoch zero was closed. */
  ghost function Stranded(log: seq<Accepted>, epoch: nat): nat {
    if epoch == 0 then 0 else BlockedCount(OfEpoch(log, 0), OfEpoch(log, 0))
  }

  /** What is neither pending nor stranded, and so must have been posted. */
  ghost function Due(log: seq<Accepted>, epoch: nat): int {
    |log| - |OfEpoch(log, epoch)| - Stranded(log, epoch)
  }

  lemma NextEpochDue(log: seq<Accepted>, epoch: nat, pending: seq<Accepted>)
    requires pending == OfEpoch(log, epoch) && OfEpoch(log, epoch + 1) == []
    requires epoch >= 1 ==> BlockedCount(pending, pending) == 0
    ensures Due(log, epoch + 1) == Due(log, epoch) + |pending| - BlockedCount(pending, pending)
  {}

  lemma EpochEndDue(cfg: Config, log: seq<Accepted>, epoch: nat)
    requires cfg.duration > 0 && LogSound(cfg, log, epoch)
    ensures var pending := OfEpoch(log, epoch);
      Due(log, epoch + 1) == Due(log, epoch) + |pending| - BlockedCount(pending, pending)
    ensures OfEpoch(log, epoch + 1) == []
  {
    NothingYet(cfg, log, epoch + 1);
    if epoch >= 1 {
      LaterEpochsUnblocked(cfg, log, epoch);
    }
    NextEpochDue(log, epoch, OfEpoch(log, epoch));
  }

  /** Closing the epoch posts exactly what becomes due, and nothing is pending afterwards. */
  lemma EpochEndSettlesDue(cfg: Config, now: nat, events: seq<Event>, order: seq<Bytes32>)
    requires cfg.duration > 0 && |events| < U64
    requires Lists(order, Run(cfg, now, events).collector.poolReceipts.Keys)
    ensures var s := Run(cfg, now, events);
      && Due(s.log, s.epoch + 1)
         == Due(s.log, s.epoch) + PostedWeight(SettleAll(cfg.env.sha, order, s.collector.poolReceipts))
      && OfEpoch(s.log, s.epoch + 1) == []
  {
    LogAtMostEvents(cfg, now, events);
    EpochEndAccounts(cfg, now, events, order);
    RunKeepsInv(cfg, now, events);
    EpochEndDue(cfg, Run(cfg, now, events).log, Run(cfg, now, events).epoch);
  }

  lemma AcceptKeepsDue(log: seq<Accepted>, a: Accepted)
    ensures Due(log + [a], a.epoch) == Due(log, a.epoch)
  {
    OfEpochSnoc(log, a, a.epoch);
    OfEpochSnoc(log, a, 0);
    assert a.epoch > 0 ==> OfEpoch(log + [a], 0) == OfEpoch(log, 0);
  }

  lemma OfferKeepsDue(cfg: Config, s: RunState, ev: Event)
    requires !ev.EpochEnd?
    ensures var s' := Step(cfg, s, ev); s'.epoch == s.epoch && Due(s'.log, s.epoch) == Due(s.log, s.epoch)
  {
    if ev.Offer? && Verdict(cfg.env, s.collector, ev.receipt).Accept? {
      AcceptKeepsDue(s.log, Accepted(s.epoch, Verdict(cfg.env, s.collector, ev.receipt).value, ev.receipt));
    } else {
      assert Step(cfg, s, ev).log == s.log;
    }
  }

  /** Nothing is stranded exactly while epoch zero is open or when it accepted no zero stamp. */
  lemma NothingStrandedIff(log: seq<Accepted>, epoch: nat)
    ensures Stranded(log, epoch) == 0
      <==> epoch == 0 || forall a :: a in log && a.epoch == 0 ==> a.receipt.timestamp != 0
  {
    NothingBlockedIff(OfEpoch(log, 0));
    forall a ensures a in OfEpoch(log, 0) <==> a in log && a.epoch == 0 {
      OfEpochMembers(log, 0, a);
    }
  }

  /** The posted part of what the run has accepted. */
  ghost function DueAfter(cfg: Config, now: nat, events: seq<Event>): int
    requires cfg.duration > 0
  {
    Due(Run(cfg, now, events).log, Run(cfg, now, events).epoch)
  }

  /** One event, carried out on the service object; returns the weight it posted. */
  method Perform(service: AggregatorService, cfg: Config, ghost now: nat, ghost events: seq<Event>, ev: Event)
    returns (posted: nat)
    requires cfg.duration > 0 && |events| + 1 < U64
    requires Represents(service, cfg, Run(cfg, now, events))
    modifies service`currentEpoch, service.collector
    ensures service.collector == old(service.collector)
    ensures Represents(service, cfg, Run(cfg, now, events + [ev]))
    ensures DueAfter(cfg, now, events + [ev]) == DueAfter(cfg, now, events) + posted
  {
    ghost var s := Run(cfg, now, events);
    RunSnoc(cfg, now, events, ev);
    posted := 0;
    match ev {
      case Register(contentId, pool) =>
        OfferKeepsDue(cfg, s, ev);
        service.collector.RegisterPool(contentId, pool);
      case Offer(r) =>
        OfferKeepsDue(cfg, s, ev);
        var _ := service.collector.Ingest(r);
      case EpochEnd =>
        forall p | p in s.collector.poolReceipts ensures |s.collector.poolReceipts[p]| < U64 {
          QueuesAreBounded(cfg, now, events, p);
        }
        var results, order := service.ProcessEpochEnd();
        EpochEndSettlesDue(cfg, now, events, order);
        posted := PostedWeight(results);
    }
  }

  /** Over any sequence of events from any clock reading, the service object follows the state machine,
      and everything accepted is posted, pending in the current epoch, or stranded by a zero stamp. */
  method Execute(cfg: Config, now: nat, events: seq<Event>) returns (service: AggregatorService, posted: nat)
    requires cfg.duration > 0 && |events| < U64
    ensures Represents(service, cfg, Run(cfg, now, events))
    ensures var s := Run(cfg, now, events);
      posted + |OfEpoch(s.log, s.epoch)| + Stranded(s.log, s.epoch) == |s.log|
  {
    service := new AggregatorService(cfg.env, now, cfg.duration, cfg.grace);
    posted := 0;
    for i := 0 to |events|
      invariant fresh(service) && fresh(service.collector)
      invariant Represents(service, cfg, Run(cfg, now, events[..i]))
      invariant DueAfter(cfg, now, events[..i]) == posted
    {
      assert events[..i + 1] == events[..i] + [events[i]];
      var weight := Perform(service, cfg, now, events[..i], events[i]);
      posted := posted + weight;
    }
    assert events[..|events|] == events;
  }
}
