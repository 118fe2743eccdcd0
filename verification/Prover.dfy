/** Aggregating receipts into weights, the distribution output, and the mock proof around it. */
module Prover {
  import opened Bytes
  import opened Numbers
  import opened Merkle

  /** What the prover reads of a receipt. */
  datatype Contribution = Contribution(operator: Bytes32, weight: nat, timestamp: nat)

  datatype Entry = Entry(operator: Bytes32, weight: nat)

  datatype ProverError = EmptyBatch | ZeroWeight | ZeroTimestamp | ZeroOperator | InvalidProof | OutputMismatch

  datatype ProverResult<T> = Ok(value: T) | Err(error: ProverError)

  // ---------- The weight map, kept in key order ----------

  /** Keys strictly increase, as a `BTreeMap` iterates them. */
  ghost predicate Sorted(entries: seq<Entry>) {
    forall i, j :: 0 <= i < j < |entries| ==> Less(entries[i].operator, entries[j].operator)
  }

  /** `*map.entry(key).or_insert(0) += weight`. */
  function Bump(entries: seq<Entry>, key: Bytes32, weight: nat): (r: seq<Entry>)
    ensures |r| > 0
  {
    if |entries| == 0 then [Entry(key, weight)]
    else if entries[0].operator == key then [Entry(key, entries[0].weight + weight)] + entries[1..]
    else if Less(key, entries[0].operator) then [Entry(key, weight)] + entries
    else [entries[0]] + Bump(entries[1..], key, weight)
  }

  /** The weight stored for a key; zero when the key is absent. */
  function WeightOf(entries: seq<Entry>, key: Bytes32): nat {
    if |entries| == 0 then 0
    else if entries[0].operator == key then entries[0].weight
    else WeightOf(entries[1..], key)
  }

  ghost predicate HasKey(entries: seq<Entry>, key: Bytes32) {
    exists i :: 0 <= i < |entries| && entries[i].operator == key
  }

  function TotalWeight(entries: seq<Entry>): nat {
    if |entries| == 0 then 0 else entries[0].weight + TotalWeight(entries[1..])
  }

  lemma {:induction false} BumpKeys(entries: seq<Entry>, key: Bytes32, weight: nat)
    ensures forall k: Bytes32 :: HasKey(Bump(entries, key, weight), k) <==> k == key || HasKey(entries, k)
  {
    var r := Bump(entries, key, weight);
    if |entries| == 0 {
      assert r[0].operator == key;
    } else if entries[0].operator == key || Less(key, entries[0].operator) {
      var d := |r| - |entries|;
      forall k: Bytes32 ensures HasKey(r, k) <==> k == key || HasKey(entries, k) {
        assert r[0].operator == key;
        if i :| 0 <= i < |entries| && entries[i].operator == k {
          assert r[i + d].operator == k;
        }
      }
    } else {
      var tail := Bump(entries[1..], key, weight);
      BumpKeys(entries[1..], key, weight);
      forall k: Bytes32 ensures HasKey(r, k) <==> k == key || HasKey(entries, k) {
        KeyOfCons(entries[0], tail, k);
        assert entries == [entries[0]] + entries[1..];
        KeyOfCons(entries[0], entries[1..], k);
      }
    }
  }

  lemma KeyOfCons(head: Entry, tail: seq<Entry>, key: Bytes32)
    ensures HasKey([head] + tail, key) <==> head.operator == key || HasKey(tail, key)
  {
    var s := [head] + tail;
    assert s[0] == head;
    if i :| 0 <= i < |tail| && tail[i].operator == key {
      assert s[i + 1].operator == key;
    }
  }

  lemma SortedCons(head: Entry, tail: seq<Entry>)
    requires Sorted(tail) && forall k: Bytes32 :: HasKey(tail, k) ==> Less(head.operator, k)
    ensures Sorted([head] + tail)
  {
    forall i | 0 <= i < |tail| ensures Less(head.operator, tail[i].operator) {
      assert HasKey(tail, tail[i].operator);
    }
  }

  lemma SortedTail(entries: seq<Entry>)
    requires |entries| > 0 && Sorted(entries)
    ensures Sorted(entries[1..])
    ensures forall k: Bytes32 :: HasKey(entries[1..], k) ==> Less(entries[0].operator, k) && k != entries[0].operator
  {
    forall k: Bytes32 | HasKey(entries[1..], k) ensures Less(entries[0].operator, k) && k != entries[0].operator {
      var i :| 0 <= i < |entries[1..]| && entries[1..][i].operator == k;
      assert Less(entries[0].operator, entries[i + 1].operator);
      LessTrichotomy(entries[0].operator, k);
    }
  }

  lemma {:induction false} BumpSorted(entries: seq<Entry>, key: Bytes32, weight: nat)
    requires Sorted(entries)
    ensures Sorted(Bump(entries, key, weight))
  {
    if |entries| > 0 {
      SortedTail(entries);
      LessTrichotomy(entries[0].operator, key);
      if entries[0].operator == key {
        SortedCons(Entry(key, entries[0].weight + weight), entries[1..]);
      } else if Less(key, entries[0].operator) {
        forall k: Bytes32 | HasKey(entries, k) ensures Less(key, k) {
          assert entries == [entries[0]] + entries[1..];
          KeyOfCons(entries[0], entries[1..], k);
          if k != entries[0].operator { LessTransitive(key, entries[0].operator, k); }
        }
        SortedCons(Entry(key, weight), entries);
      } else {
        BumpSorted(entries[1..], key, weight);
        BumpKeys(entries[1..], key, weight);
        SortedCons(entries[0], Bump(entries[1..], key, weight));
      }
    }
  }

  lemma {:induction false} AbsentWeight(entries: seq<Entry>, key: Bytes32)
    ensures !HasKey(entries, key) ==> WeightOf(entries, key) == 0
  {
    if |entries| > 0 {
      assert entries == [entries[0]] + entries[1..];
      KeyOfCons(entries[0], entries[1..], key);
      AbsentWeight(entries[1..], key);
    }
  }

  lemma {:induction false} BumpWeight(entries: seq<Entry>, key: Bytes32, weight: nat, k: Bytes32)
    requires Sorted(entries)
    ensures WeightOf(Bump(entries, key, weight), k) == WeightOf(entries, k) + (if k == key then weight else 0)
    ensures TotalWeight(Bump(entries, key, weight)) == TotalWeight(entries) + weight
  {
    if |entries| > 0 {
      SortedTail(entries);
      LessTrichotomy(entries[0].operator, key);
      if entries[0].operator != key && Less(key, entries[0].operator) {
        forall q: Bytes32 | HasKey(entries, q) ensures q != key {
          assert entries == [entries[0]] + entries[1..];
          KeyOfCons(entries[0], entries[1..], q);
          if q != entries[0].operator {
            LessTransitive(key, entries[0].operator, q);
            LessTrichotomy(key, q);
          }
        }
        AbsentWeight(entries, key);
      } else if entries[0].operator != key {
        BumpWeight(entries[1..], key, weight, k);
      }
    }
  }

  /** Two sorted lists with the same keys and weights are the same list. */
  lemma {:induction false} SortedUnique(a: seq<Entry>, b: seq<Entry>)
    requires Sorted(a) && Sorted(b)
    requires forall k: Bytes32 :: HasKey(a, k) <==> HasKey(b, k)
    requires forall k: Bytes32 :: WeightOf(a, k) == WeightOf(b, k)
    ensures a == b
  {
    if |a| == 0 || |b| == 0 {
      if |a| > 0 { assert HasKey(a, a[0].operator); }
      if |b| > 0 { assert HasKey(b, b[0].operator); }
    } else {
      var x, y := a[0].operator, b[0].operator;
      SortedTail(a);
      SortedTail(b);
      assert a == [a[0]] + a[1..] && b == [b[0]] + b[1..];
      assert HasKey(a, x) && HasKey(b, y);
      KeyOfCons(b[0], b[1..], x);
      KeyOfCons(a[0], a[1..], y);
      LessTrichotomy(x, y);
      assert WeightOf(a, x) == WeightOf(b, x);
      forall k: Bytes32 ensures HasKey(a[1..], k) <==> HasKey(b[1..], k) {
        KeyOfCons(a[0], a[1..], k);
        KeyOfCons(b[0], b[1..], k);
      }
      forall k: Bytes32 ensures WeightOf(a[1..], k) == WeightOf(b[1..], k) {
        AbsentWeight(a[1..], k);
        AbsentWeight(b[1..], k);
        assert WeightOf(a, k) == WeightOf(b, k);
      }
      SortedUnique(a[1..], b[1..]);
    }
  }

  // ---------- Aggregation ----------

  function Check(c: Contribution): Option<ProverError> {
    if c.weight == 0 then Some(ZeroWeight)
    else if c.timestamp == 0 then Some(ZeroTimestamp)
    else if c.operator == Zero32() then Some(ZeroOperator)
    else None
  }

  /** The error of the first receipt that fails its checks. */
  function FirstError(receipts: seq<Contribution>): Option<ProverError> {
    if |receipts| == 0 then None
    else match FirstError(receipts[..|receipts| - 1])
      case Some(e) => Some(e)
      case None => Check(receipts[|receipts| - 1])
  }

  /** The weights of all receipts, added in order of arrival. */
  function Fold(receipts: seq<Contribution>): seq<Entry> {
    if |receipts| == 0 then []
    else
      var last := receipts[|receipts| - 1];
      Bump(Fold(receipts[..|receipts| - 1]), last.operator, last.weight)
  }

  /** The weights as `u64` sums leave them: a sum past 2^64 wraps around. */
  function Wrapped(entries: seq<Entry>): (r: seq<Entry>)
    ensures |r| == |entries|
  {
    if |entries| == 0 then []
    else [Entry(entries[0].operator, Wrap(entries[0].weight, U64))] + Wrapped(entries[1..])
  }

  function Aggregated(receipts: seq<Contribution>): ProverResult<seq<Entry>> {
    if |receipts| == 0 then Err(EmptyBatch)
    else match FirstError(receipts)
      case Some(e) => Err(e)
      case None => Ok(Wrapped(Fold(receipts)))
  }

  lemma {:induction false} FirstErrorStays(receipts: seq<Contribution>, n: nat)
    requires n <= |receipts| && FirstError(receipts[..n]).Some?
    ensures FirstError(receipts) == FirstError(receipts[..n])
    decreases |receipts| - n
  {
    if n == |receipts| {
      assert receipts[..n] == receipts;
    } else {
      assert receipts[..n + 1][..n] == receipts[..n];
      FirstErrorStays(receipts, n + 1);
    }
  }

  /** `*map.entry(key).or_insert(0) += weight` on `u64` values. */
  function AddWrapping(entries: seq<Entry>, key: Bytes32, weight: nat): seq<Entry> {
    if |entries| == 0 then [Entry(key, Wrap(weight, U64))]
    else if entries[0].operator == key then [Entry(key, Wrap(entries[0].weight + weight, U64))] + entries[1..]
    else if Less(key, entries[0].operator) then [Entry(key, Wrap(weight, U64))] + entries
    else [entries[0]] + AddWrapping(entries[1..], key, weight)
  }

  lemma WrapSum(a: nat, b: nat)
    ensures Wrap(Wrap(a, U64) + b, U64) == Wrap(a + b, U64)
  {
    WrapIsModulo(a, U64);
    WrapIsModulo(a + b, U64);
    WrapIsModulo(Wrap(a, U64) + b, U64);
  }

  lemma {:induction false} AddWrappingIsBump(entries: seq<Entry>, key: Bytes32, weight: nat)
    ensures AddWrapping(Wrapped(entries), key, weight) == Wrapped(Bump(entries, key, weight))
  {
    if |entries| > 0 {
      AddWrappingIsBump(entries[1..], key, weight);
      WrapSum(entries[0].weight, weight);
      assert Wrapped(entries)[1..] == Wrapped(entries[1..]);
      assert Bump(entries, key, weight)[1..] == if entries[0].operator == key then entries[1..]
        else if Less(key, entries[0].operator) then entries
        else Bump(entries[1..], key, weight);
    }
  }

  /** Checks and accumulates in one pass. */
  method AggregateReceipts(receipts: seq<Contribution>) returns (r: ProverResult<seq<Entry>>)
    ensures r == Aggregated(receipts)
  {
    if |receipts| == 0 {
      return Err(EmptyBatch);
    }
    var weights: seq<Entry> := [];
    for i := 0 to |receipts|
      invariant FirstError(receipts[..i]) == None && weights == Wrapped(Fold(receipts[..i]))
    {
      var c := receipts[i];
      assert receipts[..i + 1][..i] == receipts[..i];
      if c.weight == 0 {
        FirstErrorStays(receipts, i + 1);
        return Err(ZeroWeight);
      }
      if c.timestamp == 0 {
        FirstErrorStays(receipts, i + 1);
        return Err(ZeroTimestamp);
      }
      if c.operator == Zero32() {
        FirstErrorStays(receipts, i + 1);
        return Err(ZeroOperator);
      }
      AddWrappingIsBump(Fold(receipts[..i]), c.operator, c.weight);
      weights := AddWrapping(weights, c.operator, c.weight);
    }
    assert receipts[..|receipts|] == receipts;
    return Ok(weights);
  }

  // ---------- What aggregation computes ----------

  function SumOfWeights(receipts: seq<Contribution>): nat {
    if |receipts| == 0 then 0
    else SumOfWeights(receipts[..|receipts| - 1]) + receipts[|receipts| - 1].weight
  }

  /** The weight the receipts give to one operator. */
  function Earned(receipts: seq<Contribution>, key: Bytes32): nat {
    if |receipts| == 0 then 0
    else
      var last := receipts[|receipts| - 1];
      Earned(receipts[..|receipts| - 1], key) + (if last.operator == key then last.weight else 0)
  }

  ghost predicate Mentions(receipts: seq<Contribution>, key: Bytes32) {
    exists i :: 0 <= i < |receipts| && receipts[i].operator == key
  }

  lemma {:induction false} FoldSorted(receipts: seq<Contribution>)
    ensures Sorted(Fold(receipts))
  {
    if |receipts| > 0 {
      FoldSorted(receipts[..|receipts| - 1]);
      var last := receipts[|receipts| - 1];
      BumpSorted(Fold(receipts[..|receipts| - 1]), last.operator, last.weight);
    }
  }

  /** The entries are exactly the operators of the receipts, each with the sum of its weights. */
  lemma {:induction false} FoldMeaning(receipts: seq<Contribution>, key: Bytes32)
    ensures WeightOf(Fold(receipts), key) == Earned(receipts, key)
    ensures HasKey(Fold(receipts), key) <==> Mentions(receipts, key)
    ensures TotalWeight(Fold(receipts)) == SumOfWeights(receipts)
  {
    if |receipts| > 0 {
      var init, last := receipts[..|receipts| - 1], receipts[|receipts| - 1];
      FoldMeaning(init, key);
      FoldSorted(init);
      BumpWeight(Fold(init), last.operator, last.weight, key);
      BumpKeys(Fold(init), last.operator, last.weight);
      assert receipts == init + [last];
      assert Mentions(receipts, key) <==> Mentions(init, key) || last.operator == key by {
        if i :| 0 <= i < |init| && init[i].operator == key {
          assert receipts[i].operator == key;
        }
      }
    }
  }

  lemma {:induction false} EntryWithinTotal(entries: seq<Entry>, i: nat)
    requires i < |entries|
    ensures entries[i].weight <= TotalWeight(entries)
  {
    if i > 0 { EntryWithinTotal(entries[1..], i - 1); }
  }

  lemma {:induction false} WrappedAt(entries: seq<Entry>, i: nat)
    requires i < |entries|
    ensures Wrapped(entries)[i] == Entry(entries[i].operator, Wrap(entries[i].weight, U64))
  {
    if i > 0 { WrappedAt(entries[1..], i - 1); }
  }

  lemma WrappedExactIff(entries: seq<Entry>)
    ensures Wrapped(entries) == entries <==> forall i :: 0 <= i < |entries| ==> entries[i].weight < U64
  {
    forall i | 0 <= i < |entries| ensures Wrapped(entries)[i] == entries[i] <==> entries[i].weight < U64 {
      WrappedAt(entries, i);
    }
  }

  /** Nothing wraps when the sum of all weights fits. */
  lemma SmallSumsExact(receipts: seq<Contribution>)
    requires SumOfWeights(receipts) < U64
    ensures Wrapped(Fold(receipts)) == Fold(receipts)
  {
    var entries := Fold(receipts);
    FoldMeaning(receipts, Zero32());
    forall i | 0 <= i < |entries| ensures entries[i].weight < U64 {
      EntryWithinTotal(entries, i);
    }
    WrappedExactIff(entries);
  }

  lemma {:induction false} EntryWeight(entries: seq<Entry>, i: nat)
    requires Sorted(entries) && i < |entries|
    ensures WeightOf(entries, entries[i].operator) == entries[i].weight
  {
    if i > 0 {
      SortedTail(entries);
      assert HasKey(entries[1..], entries[1..][i - 1].operator);
      EntryWeight(entries[1..], i - 1);
    }
  }

  /** Each entry holds what its operator earned. */
  lemma EntryIsEarned(receipts: seq<Contribution>, i: nat)
    requires i < |Fold(receipts)|
    ensures Fold(receipts)[i].weight == Earned(receipts, Fold(receipts)[i].operator)
  {
    FoldSorted(receipts);
    EntryWeight(Fold(receipts), i);
    FoldMeaning(receipts, Fold(receipts)[i].operator);
  }

  lemma EarnedIsEntry(receipts: seq<Contribution>, key: Bytes32) returns (i: nat)
    requires Earned(receipts, key) > 0
    ensures i < |Fold(receipts)| && Fold(receipts)[i].weight == Earned(receipts, key)
  {
    FoldMeaning(receipts, key);
    AbsentWeight(Fold(receipts), key);
    i :| 0 <= i < |Fold(receipts)| && Fold(receipts)[i].operator == key;
    EntryIsEarned(receipts, i);
  }

  /** No operator earns 2^64 or more. */
  ghost predicate EarningsFit(receipts: seq<Contribution>) {
    forall key: Bytes32 :: Earned(receipts, key) < U64
  }

  /** The aggregated weights are what the operators earned exactly when nobody earns 2^64 or more. */
  lemma AggregatedExactIff(receipts: seq<Contribution>)
    requires Aggregated(receipts).Ok?
    ensures Aggregated(receipts).value == Fold(receipts) <==> EarningsFit(receipts)
  {
    var entries := Fold(receipts);
    WrappedExactIff(entries);
    if Wrapped(entries) == entries {
      forall key: Bytes32 ensures Earned(receipts, key) < U64 {
        if Earned(receipts, key) > 0 {
          var i := EarnedIsEntry(receipts, key);
        }
      }
    } else {
      var i :| 0 <= i < |entries| && entries[i].weight >= U64;
      EntryIsEarned(receipts, i);
    }
  }

  lemma {:induction false} EarnedConcat(a: seq<Contribution>, b: seq<Contribution>, key: Bytes32)
    ensures Earned(a + b, key) == Earned(a, key) + Earned(b, key)
    decreases |b|
  {
    if |b| == 0 {
      assert a + b == a;
    } else {
      EarnedConcat(a, b[..|b| - 1], key);
      assert (a + b)[..|a + b| - 1] == a + b[..|b| - 1];
    }
  }

  lemma CancelElement<T>(init: seq<T>, last: T, before: seq<T>, after: seq<T>)
    requires multiset(init + [last]) == multiset(before + [last] + after)
    ensures multiset(init) == multiset(before + after)
  {
    assert multiset(init + [last]) == multiset(init) + multiset{last};
    assert multiset(before + [last] + after) == multiset(before) + multiset{last} + multiset(after);
    assert multiset(before + after) == multiset(before) + multiset(after);
    assert multiset(init) == multiset(init) + multiset{last} - multiset{last};
  }

  lemma {:induction false} EarnedOfPermutation(a: seq<Contribution>, b: seq<Contribution>, key: Bytes32)
    requires multiset(a) == multiset(b)
    ensures Earned(a, key) == Earned(b, key)
    decreases |a|
  {
    if |a| == 0 {
      assert |multiset(b)| == 0;
    } else {
      var init, last := a[..|a| - 1], a[|a| - 1];
      assert a == init + [last];
      assert last in multiset(b);
      var j :| 0 <= j < |b| && b[j] == last;
      var before, after := b[..j], b[j + 1..];
      assert b == before + [last] + after;
      CancelElement(init, last, before, after);
      EarnedOfPermutation(init, before + after, key);
      EarnedConcat(before, after, key);
      EarnedConcat(before + [last], after, key);
      EarnedConcat(before, [last], key);
    }
  }

  /** The aggregated entries do not depend on the order of the receipts. */
  lemma FoldOfPermutation(a: seq<Contribution>, b: seq<Contribution>)
    requires multiset(a) == multiset(b)
    ensures Fold(a) == Fold(b)
  {
    FoldSorted(a);
    FoldSorted(b);
    forall k: Bytes32
      ensures WeightOf(Fold(a), k) == WeightOf(Fold(b), k)
      ensures HasKey(Fold(a), k) <==> HasKey(Fold(b), k)
    {
      FoldMeaning(a, k);
      FoldMeaning(b, k);
      EarnedOfPermutation(a, b, k);
      MentionsOfPermutation(a, b, k);
      MentionsOfPermutation(b, a, k);
    }
    SortedUnique(Fold(a), Fold(b));
  }

  lemma MentionsOfPermutation(a: seq<Contribution>, b: seq<Contribution>, key: Bytes32)
    requires multiset(a) == multiset(b)
    ensures Mentions(a, key) ==> Mentions(b, key)
  {
    if i :| 0 <= i < |a| && a[i].operator == key {
      assert a[i] in multiset(b);
      var j :| 0 <= j < |b| && b[j] == a[i];
    }
  }

  lemma {:induction false} FirstErrorMeaning(receipts: seq<Contribution>)
    ensures FirstError(receipts) == None <==> forall c :: c in receipts ==> Check(c) == None
  {
    if |receipts| > 0 {
      var init, last := receipts[..|receipts| - 1], receipts[|receipts| - 1];
      FirstErrorMeaning(init);
      assert receipts == init + [last];
    }
  }

  /** A receipt that aggregation takes. */
  predicate Sane(c: Contribution) {
    c.weight > 0 && c.timestamp > 0 && c.operator != seq(32, _ => 0)
  }

  /** Receipt `i` is the first that is not sane, and `e` names the first of its three faults. */
  ghost predicate FailsAt(receipts: seq<Contribution>, i: nat, e: ProverError) {
    && i < |receipts| && (forall j :: 0 <= j < i ==> Sane(receipts[j])) && !Sane(receipts[i])
    && (receipts[i].weight == 0 ==> e == ZeroWeight)
    && (receipts[i].weight > 0 && receipts[i].timestamp == 0 ==> e == ZeroTimestamp)
    && (receipts[i].weight > 0 && receipts[i].timestamp > 0 ==> e == ZeroOperator)
  }

  /** Aggregation fails exactly on an empty batch or at the first receipt that is not sane. */
  lemma AggregationFails(receipts: seq<Contribution>)
    ensures |receipts| == 0 ==> Aggregated(receipts) == Err(EmptyBatch)
    ensures |receipts| > 0 ==> (Aggregated(receipts).Ok? <==> forall i :: 0 <= i < |receipts| ==> Sane(receipts[i]))
    ensures |receipts| > 0 && Aggregated(receipts).Err? ==>
      exists i :: FailsAt(receipts, i, Aggregated(receipts).error)
  {
    FirstErrorFound(receipts);
  }

  lemma {:induction false} FirstErrorFound(receipts: seq<Contribution>)
    ensures FirstError(receipts) == None <==> forall i :: 0 <= i < |receipts| ==> Sane(receipts[i])
    ensures FirstError(receipts).Some? ==> exists i :: FailsAt(receipts, i, FirstError(receipts).value)
  {
    if |receipts| > 0 {
      var n := |receipts| - 1;
      var init, last := receipts[..n], receipts[n];
      FirstErrorFound(init);
      assert forall j :: 0 <= j < n ==> receipts[j] == init[j];
      if FirstError(init).Some? {
        var i :| FailsAt(init, i, FirstError(init).value);
        assert FailsAt(receipts, i, FirstError(init).value);
      } else if !Sane(last) {
        assert FailsAt(receipts, n, Check(last).value);
      }
    }
  }

  /** Reordering never turns success into failure; on success the entries are identical. */
  lemma AggregationIsCanonical(a: seq<Contribution>, b: seq<Contribution>)
    requires multiset(a) == multiset(b)
    ensures Aggregated(a).Ok? <==> Aggregated(b).Ok?
    ensures Aggregated(a).Ok? ==> Aggregated(a) == Aggregated(b)
  {
    assert |a| == |multiset(a)| && |b| == |multiset(b)|;
    assert forall c :: c in a <==> c in multiset(a);
    assert forall c :: c in b <==> c in multiset(b);
    FirstErrorMeaning(a);
    FirstErrorMeaning(b);
    FoldOfPermutation(a, b);
  }

  // ---------- The guest program ----------

  datatype DistributionOutput =
    DistributionOutput(root: Bytes32, totalWeight: nat, entryCount: nat, poolId: Bytes32)
  {
    predicate Fits() {
      totalWeight < U64 && entryCount < U32
    }
  }

  function LeafInput(e: Entry): seq<byte> {
    e.operator + LittleEndian(e.weight, 8)
  }

  function LeafHash(sha: Sha256, e: Entry): Bytes32 {
    sha(LeafInput(e))
  }

  function Leaves(sha: Sha256, entries: seq<Entry>): seq<Bytes32> {
    seq(|entries|, i requires 0 <= i < |entries| => LeafHash(sha, entries[i]))
  }

  /** Places an entry after all entries with a key that is not greater. */
  function Insert(sorted: seq<Entry>, e: Entry): seq<Entry> {
    if |sorted| > 0 && Less(e.operator, sorted[|sorted| - 1].operator)
    then Insert(sorted[..|sorted| - 1], e) + [sorted[|sorted| - 1]]
    else sorted + [e]
  }

  /** The stable sort by key. */
  function SortByKey(entries: seq<Entry>): seq<Entry> {
    if |entries| == 0 then [] else Insert(SortByKey(entries[..|entries| - 1]), entries[|entries| - 1])
  }

  function GuestOutput(sha: Sha256, entries: seq<Entry>, poolId: Bytes32): DistributionOutput {
    var sorted := SortByKey(entries);
    DistributionOutput(Root(sha, Leaves(sha, sorted)), Wrap(TotalWeight(sorted), U64), |entries| % U32, poolId)
  }

  method ExecuteGuestLogic(sha: Sha256, entries: seq<Entry>, poolId: Bytes32) returns (output: DistributionOutput)
    ensures output == GuestOutput(sha, entries, poolId)
  {
    var sorted := SortByKey(entries);
    SortIsStable(entries);
    var root := ComputeMerkleRoot(sha, Leaves(sha, sorted));
    return DistributionOutput(root, Wrap(TotalWeight(sorted), U64), |sorted| % U32, poolId);
  }

  /** Keys never decrease. */
  ghost predicate Ordered(entries: seq<Entry>) {
    forall i, j :: 0 <= i < j < |entries| ==> !Less(entries[j].operator, entries[i].operator)
  }

  /** The entries of one key, in order. */
  function OfKey(entries: seq<Entry>, key: Bytes32): seq<Entry> {
    if |entries| == 0 then []
    else
      var last := entries[|entries| - 1];
      OfKey(entries[..|entries| - 1], key) + (if last.operator == key then [last] else [])
  }

  lemma OfKeySnoc(entries: seq<Entry>, e: Entry, key: Bytes32)
    ensures OfKey(entries + [e], key) == OfKey(entries, key) + (if e.operator == key then [e] else [])
  {
    assert (entries + [e])[..|entries|] == entries;
  }

  lemma {:induction false} InsertMembers(sorted: seq<Entry>, e: Entry)
    ensures multiset(Insert(sorted, e)) == multiset(sorted) + multiset{e}
  {
    if |sorted| > 0 {
      var init, last := sorted[..|sorted| - 1], sorted[|sorted| - 1];
      assert sorted == init + [last];
      InsertMembers(init, e);
    }
  }

  lemma NotGreaterTransitive(a: Bytes32, b: Bytes32, c: Bytes32)
    requires !Less(b, a) && !Less(c, b)
    ensures !Less(c, a)
  {
    LessTrichotomy(a, b);
    LessTrichotomy(b, c);
    LessTrichotomy(a, c);
    if a != b && b != c {
      LessTransitive(a, b, c);
    }
  }

  /** A key that is not less than the last one of an ordered list is not less than any. */
  lemma NotLessThanLast(sorted: seq<Entry>, e: Entry, x: Entry)
    requires Ordered(sorted) && |sorted| > 0 && x in multiset(sorted)
    requires !Less(e.operator, sorted[|sorted| - 1].operator)
    ensures !Less(e.operator, x.operator)
  {
    var last := sorted[|sorted| - 1].operator;
    var i :| 0 <= i < |sorted| && sorted[i] == x;
    LessTrichotomy(last, last);
    NotGreaterTransitive(x.operator, last, e.operator);
  }

  lemma OrderedSnoc(entries: seq<Entry>, e: Entry)
    requires Ordered(entries) && forall x :: x in multiset(entries) ==> !Less(e.operator, x.operator)
    ensures Ordered(entries + [e])
  {
    forall i | 0 <= i < |entries| ensures !Less(e.operator, entries[i].operator) {
      assert entries[i] in multiset(entries);
    }
  }

  lemma {:induction false} InsertOrdered(sorted: seq<Entry>, e: Entry)
    requires Ordered(sorted)
    ensures Ordered(Insert(sorted, e))
  {
    if |sorted| > 0 {
      var init, last := sorted[..|sorted| - 1], sorted[|sorted| - 1];
      assert sorted == init + [last];
      if Less(e.operator, last.operator) {
        InsertOrdered(init, e);
        InsertMembers(init, e);
        LessTrichotomy(e.operator, last.operator);
        LessTrichotomy(last.operator, last.operator);
        forall x | x in multiset(Insert(init, e)) ensures !Less(last.operator, x.operator) {
          assert x != e ==> x in multiset(sorted);
          if x != e { NotLessThanLast(sorted, last, x); }
        }
        OrderedSnoc(Insert(init, e), last);
      } else {
        forall x | x in multiset(sorted) ensures !Less(e.operator, x.operator) {
          NotLessThanLast(sorted, e, x);
        }
        OrderedSnoc(sorted, e);
      }
    }
  }

  lemma {:induction false} InsertStable(sorted: seq<Entry>, e: Entry, key: Bytes32)
    ensures OfKey(Insert(sorted, e), key) == OfKey(sorted, key) + (if e.operator == key then [e] else [])
  {
    OfKeySnoc(sorted, e, key);
    if |sorted| > 0 {
      var init, last := sorted[..|sorted| - 1], sorted[|sorted| - 1];
      InsertStable(init, e, key);
      OfKeySnoc(Insert(init, e), last, key);
      LessTrichotomy(e.operator, last.operator);
    }
  }

  lemma {:induction false} InsertTotal(sorted: seq<Entry>, e: Entry)
    ensures TotalWeight(Insert(sorted, e)) == TotalWeight(sorted) + e.weight
  {
    TotalSnoc(sorted, e);
    if |sorted| > 0 {
      var init, last := sorted[..|sorted| - 1], sorted[|sorted| - 1];
      assert sorted == init + [last];
      InsertTotal(init, e);
      TotalSnoc(Insert(init, e), last);
      TotalSnoc(init, last);
    }
  }

  lemma {:induction false} TotalSnoc(entries: seq<Entry>, e: Entry)
    ensures TotalWeight(entries + [e]) == TotalWeight(entries) + e.weight
  {
    if |entries| > 0 {
      TotalSnoc(entries[1..], e);
      assert (entries + [e])[1..] == entries[1..] + [e];
    }
  }

  /** The sort returns the same entries in key order, keeps those of one key in their order, and keeps
      the total weight. */
  lemma {:induction false} SortIsStable(entries: seq<Entry>)
    ensures Ordered(SortByKey(entries)) && multiset(SortByKey(entries)) == multiset(entries)
    ensures forall k: Bytes32 :: OfKey(SortByKey(entries), k) == OfKey(entries, k)
    ensures TotalWeight(SortByKey(entries)) == TotalWeight(entries) && |SortByKey(entries)| == |entries|
  {
    if |entries| > 0 {
      var init, last := entries[..|entries| - 1], entries[|entries| - 1];
      assert entries == init + [last];
      SortIsStable(init);
      InsertMembers(SortByKey(init), last);
      InsertOrdered(SortByKey(init), last);
      InsertTotal(SortByKey(init), last);
      TotalSnoc(init, last);
      assert |multiset(entries)| == |multiset(SortByKey(entries))|;
      forall k: Bytes32 ensures OfKey(SortByKey(entries), k) == OfKey(entries, k) {
        InsertStable(SortByKey(init), last, k);
      }
    }
  }

  /** A list in key order with the entries of a strictly sorted one is that list. */
  lemma {:induction false} OrderedSameEntries(a: seq<Entry>, b: seq<Entry>)
    requires Ordered(a) && Sorted(b) && multiset(a) == multiset(b)
    ensures a == b
  {
    assert |a| == |multiset(a)| && |b| == |multiset(b)|;
    if |a| > 0 {
      SameHead(a, b);
      assert a == [a[0]] + a[1..] && b == [b[0]] + b[1..];
      assert multiset(a[1..]) == multiset(a) - multiset{a[0]};
      assert multiset(b[1..]) == multiset(b) - multiset{b[0]};
      OrderedSameEntries(a[1..], b[1..]);
    }
  }

  lemma SameHead(a: seq<Entry>, b: seq<Entry>)
    requires |a| > 0 && |b| > 0 && Ordered(a) && Sorted(b) && multiset(a) == multiset(b)
    ensures a[0] == b[0]
  {
    assert a[0] in multiset(b) && b[0] in multiset(a);
    var i :| 0 <= i < |b| && b[i] == a[0];
    var j :| 0 <= j < |a| && a[j] == b[0];
  }

  /** Entries with distinct keys have one sorted arrangement, and the output is that of the arrangement:
      it depends neither on the order of the entries nor on the sorting algorithm. */
  lemma GuestOutputIsCanonical(sha: Sha256, entries: seq<Entry>, sorted: seq<Entry>, poolId: Bytes32)
    requires Sorted(sorted) && multiset(sorted) == multiset(entries)
    ensures GuestOutput(sha, entries, poolId) == DistributionOutput(
      Root(sha, Leaves(sha, sorted)), Wrap(TotalWeight(entries), U64), |entries| % U32, poolId)
  {
    SortIsStable(entries);
    OrderedSameEntries(SortByKey(entries), sorted);
  }

  /** Entries that come out of the weight map are already in the order the guest sorts them into. */
  lemma SortIsIdentity(entries: seq<Entry>)
    requires Sorted(entries)
    ensures SortByKey(entries) == entries
  {
    SortIsStable(entries);
    OrderedSameEntries(SortByKey(entries), entries);
  }

  // ---------- The 76 output bytes ----------

  function ToBytes(o: DistributionOutput): (b: seq<byte>)
    ensures |b| == 76
  {
    o.root + LittleEndian(o.totalWeight, 8) + LittleEndian(o.entryCount, 4) + o.poolId
  }

  function FromBytes(b: seq<byte>): DistributionOutput
    requires |b| == 76
  {
    DistributionOutput(b[..32], FromLittleEndian(b[32..40]), FromLittleEndian(b[40..44]), b[44..])
  }

  /** Where each field of the output stands in the 76 bytes. */
  lemma OutputLayout(o: DistributionOutput)
    requires o.Fits()
    ensures var b := ToBytes(o);
      && b[..32] == o.root && FromLittleEndian(b[32..40]) == o.totalWeight
      && FromLittleEndian(b[40..44]) == o.entryCount && b[44..] == o.poolId
  {
    WidthsInUse();
    LittleEndianRoundTrip(o.totalWeight, 8);
    LittleEndianRoundTrip(o.entryCount, 4);
    FieldsOfBytes(o.root, LittleEndian(o.totalWeight, 8), LittleEndian(o.entryCount, 4), o.poolId);
  }

  lemma FieldsOfBytes(root: seq<byte>, total: seq<byte>, count: seq<byte>, pool: seq<byte>)
    requires |root| == 32 && |total| == 8 && |count| == 4 && |pool| == 32
    ensures var b := root + total + count + pool;
      b[..32] == root && b[32..40] == total && b[40..44] == count && b[44..] == pool
  {}

  lemma OutputRoundTrip(o: DistributionOutput)
    requires o.Fits()
    ensures FromBytes(ToBytes(o)) == o
  {
    OutputLayout(o);
  }

  // ---------- The mock proof ----------

  datatype BatchProof = BatchProof(proofBytes: seq<byte>, publicInputs: seq<byte>)

  function Ascii(text: string): (b: seq<byte>)
    ensures |b| == |text|
  {
    seq(|text|, i requires 0 <= i < |text| => if text[i] as int < 128 then text[i] as int as byte else 0)
  }

  function Magic(): (m: seq<byte>)
    ensures |m| == 21
  {
    Ascii("CRAFTEC_MOCK_PROOF_V1")
  }

  function ProofOf(sha: Sha256, receipts: seq<Contribution>, poolId: Bytes32): ProverResult<BatchProof> {
    match Aggregated(receipts)
    case Err(e) => Err(e)
    case Ok(entries) =>
      var bytes := ToBytes(GuestOutput(sha, entries, poolId));
      Ok(BatchProof(Magic() + bytes, bytes))
  }

  method ProveBatch(sha: Sha256, receipts: seq<Contribution>, poolId: Bytes32) returns (r: ProverResult<BatchProof>)
    ensures r == ProofOf(sha, receipts, poolId)
  {
    var entries := AggregateReceipts(receipts);
    if entries.Err? {
      return Err(entries.error);
    }
    var output := ExecuteGuestLogic(sha, entries.value, poolId);
    var outputBytes := ToBytes(output);
    var proofBytes := Magic();
    proofBytes := proofBytes + outputBytes;
    return Ok(BatchProof(proofBytes, outputBytes));
  }

  function VerifyBatch(proof: BatchProof): ProverResult<DistributionOutput> {
    if |proof.proofBytes| < |Magic()| + 76 then Err(InvalidProof)
    else if proof.proofBytes[..|Magic()|] != Magic() then Err(InvalidProof)
    else if proof.proofBytes[|Magic()|..] != proof.publicInputs then Err(OutputMismatch)
    else if |proof.publicInputs| != 76 then Err(InvalidProof)
    else Ok(FromBytes(proof.publicInputs))
  }

  /** Verification accepts exactly the magic followed by 76 public bytes, and returns what they encode. */
  lemma VerifyAcceptsIff(proof: BatchProof)
    ensures VerifyBatch(proof).Ok? <==> |proof.publicInputs| == 76 && proof.proofBytes == Magic() + proof.publicInputs
    ensures VerifyBatch(proof).Ok? ==> VerifyBatch(proof).value == FromBytes(proof.publicInputs)
  {
    var m := Magic();
    if |proof.proofBytes| >= |m| {
      assert proof.proofBytes == proof.proofBytes[..|m|] + proof.proofBytes[|m|..];
    }
    if proof.proofBytes == m + proof.publicInputs {
      assert proof.proofBytes[..|m|] == m && proof.proofBytes[|m|..] == proof.publicInputs;
    }
  }

  /** The reason for which a proof is refused: a proof that does not start with the magic, or is too short,
      is invalid; one whose embedded output differs from the public inputs is a mismatch; and equal parts
      of any other length than 76 are invalid. */
  lemma VerifyErrors(proof: BatchProof)
    requires VerifyBatch(proof).Err?
    ensures var long := |proof.proofBytes| >= 97 && Magic() <= proof.proofBytes;
      && (!long ==> VerifyBatch(proof) == Err(InvalidProof))
      && (long && proof.proofBytes != Magic() + proof.publicInputs ==> VerifyBatch(proof) == Err(OutputMismatch))
      && (long && proof.proofBytes == Magic() + proof.publicInputs ==> VerifyBatch(proof) == Err(InvalidProof))
  {
    var m := Magic();
    if |proof.proofBytes| >= |m| {
      assert proof.proofBytes == proof.proofBytes[..|m|] + proof.proofBytes[|m|..];
      assert m <= proof.proofBytes <==> proof.proofBytes[..|m|] == m;
    }
    if proof.proofBytes == m + proof.publicInputs {
      assert proof.proofBytes[..|m|] == m && proof.proofBytes[|m|..] == proof.publicInputs;
    }
  }

  /** A proved batch verifies, and verification returns its output: root, total and count of the receipts. */
  lemma ProvedBatchVerifies(sha: Sha256, receipts: seq<Contribution>, poolId: Bytes32)
    requires SumOfWeights(receipts) < U64 && ProofOf(sha, receipts, poolId).Ok?
    ensures VerifyBatch(ProofOf(sha, receipts, poolId).value) == Ok(
      DistributionOutput(Root(sha, Leaves(sha, Fold(receipts))), SumOfWeights(receipts),
                         |Fold(receipts)| % U32, poolId))
  {
    var proof := ProofOf(sha, receipts, poolId).value;
    OutputOfBatch(sha, receipts, poolId);
    VerifyAcceptsIff(proof);
    OutputRoundTrip(GuestOutput(sha, Wrapped(Fold(receipts)), poolId));
  }

  lemma OutputOfBatch(sha: Sha256, receipts: seq<Contribution>, poolId: Bytes32)
    requires SumOfWeights(receipts) < U64
    ensures GuestOutput(sha, Wrapped(Fold(receipts)), poolId) == DistributionOutput(
      Root(sha, Leaves(sha, Fold(receipts))), SumOfWeights(receipts), |Fold(receipts)| % U32, poolId)
  {
    FoldSorted(receipts);
    SortIsIdentity(Fold(receipts));
    FoldMeaning(receipts, poolId);
    SmallSumsExact(receipts);
  }

  /** The proof is the same for every order of the receipts. */
  lemma ProofIsCanonical(sha: Sha256, a: seq<Contribution>, b: seq<Contribution>, poolId: Bytes32)
    requires multiset(a) == multiset(b)
    ensures ProofOf(sha, a, poolId).Ok? <==> ProofOf(sha, b, poolId).Ok?
    ensures ProofOf(sha, a, poolId).Ok? ==> ProofOf(sha, a, poolId) == ProofOf(sha, b, poolId)
  {
    AggregationIsCanonical(a, b);
  }

  // ---------- What the output binds ----------

  /** The strings that are hashed to compute the output of the entries: the leaves, then the tree. */
  ghost function OutputInputs(sha: Sha256, entries: seq<Entry>): set<seq<byte>> {
    (set e | e in entries :: LeafInput(e)) + RootInputs(sha, Leaves(sha, entries))
  }

  /** A leaf is the hash of the operator followed by the weight in eight little-endian bytes. */
  lemma LeafLayout(e: Entry)
    requires e.weight < U64
    ensures var b := LeafInput(e);
      |b| == 40 && b[..32] == e.operator && FromLittleEndian(b[32..]) == e.weight
  {
    WidthsInUse();
    LittleEndianRoundTrip(e.weight, 8);
    assert LeafInput(e)[32..] == LittleEndian(e.weight, 8);
  }

  lemma LeafInputBinds(a: Entry, b: Entry)
    requires a.weight < U64 && b.weight < U64 && LeafInput(a) == LeafInput(b)
    ensures a == b
  {
    LeafLayout(a);
    LeafLayout(b);
  }

  lemma LeafInputIsHashed(sha: Sha256, entries: seq<Entry>, i: nat)
    requires i < |entries|
    ensures LeafInput(entries[i]) in OutputInputs(sha, entries)
  {
    assert entries[i] in entries;
  }

  lemma LeafBinds(sha: Sha256, a: seq<Entry>, b: seq<Entry>, i: nat)
    requires |a| == |b| && Leaves(sha, a) == Leaves(sha, b) && i < |a|
    requires a[i].weight < U64 && b[i].weight < U64
    ensures a[i] == b[i] || Collision(sha, LeafInput(a[i]), LeafInput(b[i]))
  {
    assert Leaves(sha, a)[i] == LeafHash(sha, a[i]) && Leaves(sha, b)[i] == LeafHash(sha, b[i]);
    if LeafInput(a[i]) == LeafInput(b[i]) { LeafInputBinds(a[i], b[i]); }
  }

  lemma LeavesBind(sha: Sha256, a: seq<Entry>, b: seq<Entry>) returns (x: seq<byte>, y: seq<byte>)
    requires |a| == |b| && Leaves(sha, a) == Leaves(sha, b)
    requires forall i :: 0 <= i < |a| ==> a[i].weight < U64 && b[i].weight < U64
    ensures a == b || Clash(sha, x, y, OutputInputs(sha, a), OutputInputs(sha, b))
  {
    x, y := [], [];
    if i :| 0 <= i < |a| && a[i] != b[i] {
      x, y := LeafInput(a[i]), LeafInput(b[i]);
      LeafBinds(sha, a, b, i);
      LeafInputIsHashed(sha, a, i);
      LeafInputIsHashed(sha, b, i);
    }
  }

  lemma OutputOfSorted(sha: Sha256, entries: seq<Entry>, poolId: Bytes32)
    requires Sorted(entries) && |entries| < U32
    ensures var output := GuestOutput(sha, entries, poolId);
      output.root == Root(sha, Leaves(sha, entries)) && output.entryCount == |entries| && output.poolId == poolId
  {
    SortIsIdentity(entries);
  }

  /** Two distributions with the same output, below 2^32 entries, are the same distribution, or the two
      computations of the output clash. */
  lemma OutputBinds(sha: Sha256, a: seq<Entry>, b: seq<Entry>, poolA: Bytes32, poolB: Bytes32)
    returns (x: seq<byte>, y: seq<byte>)
    requires Sorted(a) && Sorted(b) && |a| < U32 && |b| < U32
    requires forall e :: e in a || e in b ==> e.weight < U64
    requires GuestOutput(sha, a, poolA) == GuestOutput(sha, b, poolB)
    ensures poolA == poolB && (a == b || Clash(sha, x, y, OutputInputs(sha, a), OutputInputs(sha, b)))
  {
    OutputOfSorted(sha, a, poolA);
    OutputOfSorted(sha, b, poolB);
    assert |a| == |b|;
    forall i | 0 <= i < |a| ensures a[i].weight < U64 && b[i].weight < U64 {
      assert a[i] in a && b[i] in b;
    }
    if Leaves(sha, a) == Leaves(sha, b) {
      x, y := LeavesBind(sha, a, b);
    } else {
      x, y := RootBinds(sha, Leaves(sha, a), Leaves(sha, b));
    }
  }
}
