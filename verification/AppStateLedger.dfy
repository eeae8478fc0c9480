/** The bookkeeping behind app state hashes: which value MACs a patch adds to and removes from the hash,
which it adds to and removes from the stored index, and when the two agree. */
module AppStateLedger {
  import opened ByteStrings
  import opened Collections

  datatype Operation = SET | REMOVE

  /** `blob` is an encrypted value followed by its 32-byte MAC. */
  datatype Record = Record(indexMAC: Bytes, blob: Bytes, keyID: Bytes)

  datatype SyncdMutation = SyncdMutation(operation: Operation, record: Record)

  const MAC_SIZE := 32

  function ValueMAC(m: SyncdMutation): Bytes {
    var blob := m.record.blob;
    if |blob| < MAC_SIZE then [] else blob[|blob| - MAC_SIZE..]
  }

  function IndexMAC(m: SyncdMutation): Bytes {
    m.record.indexMAC
  }

  type MACs = map<Bytes, Bytes>

  // ---------- What goes into and out of the hash ----------

  /** The value MACs of the SETs among the first `n` mutations. */
  function Added(ms: seq<SyncdMutation>, n: nat): seq<Bytes>
    requires n <= |ms|
  {
    if n == 0 then []
    else Added(ms, n - 1) + if ms[n - 1].operation == SET then [ValueMAC(ms[n - 1])] else []
  }

  /** The previous value of an index: in the patch itself, whatever the operation there, else in the store. */
  function Lookback(ms: seq<SyncdMutation>, n: nat, index: Bytes, macs: MACs): Option<Bytes>
    requires n <= |ms|
  {
    if n == 0 then Lookup(macs, index)
    else if IndexMAC(ms[n - 1]) == index then Some(ValueMAC(ms[n - 1]))
    else Lookback(ms, n - 1, index, macs)
  }

  /** The value MACs that the first `n` mutations replace. */
  function Removed(ms: seq<SyncdMutation>, n: nat, macs: MACs): seq<Bytes>
    requires n <= |ms|
  {
    if n == 0 then []
    else Removed(ms, n - 1, macs) + OptionSeq(Lookback(ms, n - 1, IndexMAC(ms[n - 1]), macs))
  }

  // ---------- What goes into and out of the store ----------

  function RemovedIndices(ms: seq<SyncdMutation>, n: nat): set<Bytes>
    requires n <= |ms|
  {
    if n == 0 then {}
    else RemovedIndices(ms, n - 1) + if ms[n - 1].operation == REMOVE then {IndexMAC(ms[n - 1])} else {}
  }

  function AddedEntries(ms: seq<SyncdMutation>, n: nat): MACs
    requires n <= |ms|
  {
    if n == 0 then map[]
    else if ms[n - 1].operation == SET then AddedEntries(ms, n - 1)[IndexMAC(ms[n - 1]) := ValueMAC(ms[n - 1])]
    else AddedEntries(ms, n - 1)
  }

  /** All removed indices are deleted before any added entry is put. */
  function Stored(ms: seq<SyncdMutation>, n: nat, macs: MACs): MACs
    requires n <= |ms|
  {
    (macs - RemovedIndices(ms, n)) + AddedEntries(ms, n)
  }

  /** The condition on a patch: an index that occurs twice is only ever SET. */
  predicate NoClash(ms: seq<SyncdMutation>)
  {
    forall i, j :: 0 <= i < j < |ms| && IndexMAC(ms[i]) == IndexMAC(ms[j]) ==> ms[i].operation == SET && ms[j].operation == SET
  }

  // ---------- Multisets of values ----------

  ghost function Values<K, V>(m: map<K, V>): multiset<V>
    decreases |m|
  {
    if m == map[] then multiset{}
    else
      var k :| k in m;
      Values(m - {k}) + multiset{m[k]}
  }

  lemma ValuesPick<K, V>(m: map<K, V>) returns (k: K)
    requires m != map[]
    ensures k in m && Values(m) == Values(m - {k}) + multiset{m[k]}
  {
    k :| k in m && Values(m) == Values(m - {k}) + multiset{m[k]};
  }

  lemma SizeAfterRemove<K, V>(m: map<K, V>, k: K)
    requires k in m
    ensures |m - {k}| == |m| - 1
  {
    assert (m - {k}).Keys == m.Keys - {k};
  }

  lemma {:induction false} ValuesRemove<K, V>(m: map<K, V>, k: K)
    requires k in m
    ensures Values(m) == Values(m - {k}) + multiset{m[k]}
    decreases |m|
  {
    hide Values;
    var j := ValuesPick(m);
    if j != k {
      SizeAfterRemove(m, j);
      SizeAfterRemove(m, k);
      ValuesRemove(m - {j}, k);
      ValuesRemove(m - {k}, j);
      assert (m - {j}) - {k} == (m - {k}) - {j};
    }
  }

  function Lookup<K, V>(m: map<K, V>, k: K): Option<V> {
    if k in m then Some(m[k]) else None
  }

  function OptionSeq<V>(v: Option<V>): seq<V> {
    if v.Some? then [v.value] else []
  }

  /** Writing an entry exchanges the value that was there, if any, for the new one. */
  lemma ValuesInsert<K, V>(m: map<K, V>, k: K, v: V)
    ensures Values(m[k := v]) + multiset(OptionSeq(Lookup(m, k))) == Values(m) + multiset{v}
  {
    hide Values;
    var m' := m[k := v];
    ValuesRemove(m', k);
    if k in m {
      ValuesRemove(m, k);
      assert m' - {k} == m - {k};
    } else {
      assert m' - {k} == m;
    }
  }

  lemma ValuesDelete<K, V>(m: map<K, V>, k: K)
    ensures Values(m - {k}) + multiset(OptionSeq(Lookup(m, k))) == Values(m)
  {
    hide Values;
    if k in m {
      ValuesRemove(m, k);
    } else {
      assert m - {k} == m;
    }
  }

  lemma {:induction false} ValuesSize<K, V>(m: map<K, V>)
    ensures |Values(m)| == |m|
    decreases |m|
  {
    if m != map[] {
      var k := ValuesPick(m);
      SizeAfterRemove(m, k);
      ValuesSize(m - {k});
    }
  }

  lemma CancelMultiset<T>(a: multiset<T>, b: multiset<T>, c: multiset<T>)
    requires a + c == b + c
    ensures a == b
  {
    forall x
      ensures a[x] == b[x]
    {
      assert (a + c)[x] == (b + c)[x];
    }
  }

  // ---------- The index as the lookback sees it ----------

  /** The value last written to each index, REMOVEs included. */
  function Latest(ms: seq<SyncdMutation>, n: nat, macs: MACs): MACs
    requires n <= |ms|
  {
    if n == 0 then macs else Latest(ms, n - 1, macs)[IndexMAC(ms[n - 1]) := ValueMAC(ms[n - 1])]
  }

  lemma {:induction false} LookbackIsLatest(ms: seq<SyncdMutation>, n: nat, index: Bytes, macs: MACs)
    requires n <= |ms|
    ensures Lookback(ms, n, index, macs) == Lookup(Latest(ms, n, macs), index)
  {
    if n > 0 {
      LookbackIsLatest(ms, n - 1, index, macs);
    }
  }

  /** The value MACs carried by REMOVEs, which are never added to the hash. */
  function Orphans(ms: seq<SyncdMutation>, n: nat): seq<Bytes>
    requires n <= |ms|
  {
    if n == 0 then []
    else Orphans(ms, n - 1) + if ms[n - 1].operation == REMOVE then [ValueMAC(ms[n - 1])] else []
  }

  lemma {:induction false} LatestBalances(ms: seq<SyncdMutation>, n: nat, macs: MACs)
    requires n <= |ms|
    ensures multiset(Removed(ms, n, macs)) + Values(Latest(ms, n, macs))
         == multiset(Added(ms, n)) + multiset(Orphans(ms, n)) + Values(macs)
  {
    hide *;
    if n == 0 {
      LatestBalancesNothing(ms, macs);
    } else {
      LatestBalances(ms, n - 1, macs);
      LatestBalancesStep(ms, n, macs);
    }
  }

  lemma LatestBalancesNothing(ms: seq<SyncdMutation>, macs: MACs)
    ensures multiset(Removed(ms, 0, macs)) + Values(Latest(ms, 0, macs))
         == multiset(Added(ms, 0)) + multiset(Orphans(ms, 0)) + Values(macs)
  {
    hide Values;
  }

  lemma LatestBalancesStep(ms: seq<SyncdMutation>, n: nat, macs: MACs)
    requires 0 < n <= |ms|
    requires multiset(Removed(ms, n - 1, macs)) + Values(Latest(ms, n - 1, macs))
          == multiset(Added(ms, n - 1)) + multiset(Orphans(ms, n - 1)) + Values(macs)
    ensures multiset(Removed(ms, n, macs)) + Values(Latest(ms, n, macs))
         == multiset(Added(ms, n)) + multiset(Orphans(ms, n)) + Values(macs)
  {
    hide *;
    var index, value := IndexMAC(ms[n - 1]), ValueMAC(ms[n - 1]);
    var latest := Latest(ms, n - 1, macs);
    LookbackIsLatest(ms, n - 1, index, macs);
    ValuesInsert(latest, index, value);
    HashStep(ms, n, macs);
    Exchange(multiset(Removed(ms, n - 1, macs)), Values(latest),
             multiset(Added(ms, n - 1)) + multiset(Orphans(ms, n - 1)), Values(macs),
             multiset(OptionSeq(Lookup(latest, index))), multiset{value}, Values(Latest(ms, n, macs)));
  }

  /** What one mutation does to each account. */
  lemma HashStep(ms: seq<SyncdMutation>, n: nat, macs: MACs)
    requires 0 < n <= |ms|
    ensures multiset(Removed(ms, n, macs))
         == multiset(Removed(ms, n - 1, macs)) + multiset(OptionSeq(Lookback(ms, n - 1, IndexMAC(ms[n - 1]), macs)))
    ensures Latest(ms, n, macs) == Latest(ms, n - 1, macs)[IndexMAC(ms[n - 1]) := ValueMAC(ms[n - 1])]
    ensures multiset(Added(ms, n)) + multiset(Orphans(ms, n))
         == (multiset(Added(ms, n - 1)) + multiset(Orphans(ms, n - 1))) + multiset{ValueMAC(ms[n - 1])}
  {
    hide OptionSeq, Lookback, ValueMAC, IndexMAC;
  }

  lemma Exchange<T>(removed: multiset<T>, values: multiset<T>, added: multiset<T>, stored: multiset<T>,
                    previous: multiset<T>, value: multiset<T>, values': multiset<T>)
    requires removed + values == added + stored
    requires values' + previous == values + value
    ensures (removed + previous) + values' == (added + value) + stored
  {
    assert (removed + previous) + values' == removed + (values' + previous);
    assert removed + (values + value) == (removed + values) + value;
  }

  // ---------- When the store balances ----------

  predicate Touched(ms: seq<SyncdMutation>, n: nat, index: Bytes)
    requires n <= |ms|
  {
    exists i :: 0 <= i < n && IndexMAC(ms[i]) == index
  }

  lemma {:induction false} UntouchedIsStored(ms: seq<SyncdMutation>, n: nat, macs: MACs, index: Bytes)
    requires n <= |ms| && !Touched(ms, n, index)
    ensures index !in RemovedIndices(ms, n) && index !in AddedEntries(ms, n)
    ensures Lookup(Latest(ms, n, macs), index) == Lookup(macs, index) == Lookup(Stored(ms, n, macs), index)
  {
    if n > 0 {
      assert IndexMAC(ms[n - 1]) != index;
      assert !Touched(ms, n - 1, index);
      UntouchedIsStored(ms, n - 1, macs, index);
    }
  }

  lemma {:induction false} RemovedIsTouched(ms: seq<SyncdMutation>, n: nat, index: Bytes)
    requires n <= |ms|
    ensures index in RemovedIndices(ms, n) <==> exists i :: 0 <= i < n && IndexMAC(ms[i]) == index && ms[i].operation == REMOVE
    ensures index in AddedEntries(ms, n) <==> exists i :: 0 <= i < n && IndexMAC(ms[i]) == index && ms[i].operation == SET
  {
    if n > 0 {
      RemovedIsTouched(ms, n - 1, index);
    }
  }

  lemma {:induction false} UnremovedIsLatest(ms: seq<SyncdMutation>, n: nat, macs: MACs, index: Bytes)
    requires n <= |ms| && index !in RemovedIndices(ms, n)
    ensures Lookup(Latest(ms, n, macs), index) == Lookup(Stored(ms, n, macs), index)
  {
    if n > 0 {
      UnremovedIsLatest(ms, n - 1, macs, index);
    }
  }

  /** Without a clash, the store is the latest index less one entry for each REMOVE. */
  lemma {:induction false} StoredBalances(ms: seq<SyncdMutation>, n: nat, macs: MACs)
    requires n <= |ms| && NoClash(ms)
    ensures multiset(Orphans(ms, n)) + Values(Stored(ms, n, macs)) == Values(Latest(ms, n, macs))
  {
    hide *;
    if n == 0 {
      NothingStored(ms, macs);
    } else {
      StoredBalances(ms, n - 1, macs);
      StoredStep(ms, n, macs);
    }
  }

  lemma NothingStored(ms: seq<SyncdMutation>, macs: MACs)
    ensures Stored(ms, 0, macs) == macs == Latest(ms, 0, macs)
    ensures multiset(Orphans(ms, 0)) == multiset{} == multiset(Added(ms, 0))
  {
  }

  lemma StoredStep(ms: seq<SyncdMutation>, n: nat, macs: MACs)
    requires 0 < n <= |ms| && NoClash(ms)
    requires multiset(Orphans(ms, n - 1)) + Values(Stored(ms, n - 1, macs)) == Values(Latest(ms, n - 1, macs))
    ensures multiset(Orphans(ms, n)) + Values(Stored(ms, n, macs)) == Values(Latest(ms, n, macs))
  {
    hide *;
    var m, before, latest := ms[n - 1], Stored(ms, n - 1, macs), Latest(ms, n - 1, macs);
    var index, value := IndexMAC(m), ValueMAC(m);
    HashStep(ms, n, macs);
    ValuesInsert(latest, index, value);
    var previous := multiset(OptionSeq(Lookup(latest, index)));
    if m.operation == SET {
      SetStep(ms, n, macs);
      ValuesInsert(before, index, value);
      ReplaceBoth(multiset(Orphans(ms, n - 1)), Values(before), Values(latest), previous, multiset{value},
                  Values(before[index := value]), Values(latest[index := value]));
    } else {
      RemoveStep(ms, n, macs);
      ValuesDelete(before, index);
      MoveOut(multiset(Orphans(ms, n - 1)), Values(before), Values(latest), previous, multiset{value},
              Values(before - {index}), Values(latest[index := value]));
    }
  }

  lemma SetStep(ms: seq<SyncdMutation>, n: nat, macs: MACs)
    requires 0 < n <= |ms| && NoClash(ms) && ms[n - 1].operation == SET
    ensures var index := IndexMAC(ms[n - 1]);
            Stored(ms, n, macs) == Stored(ms, n - 1, macs)[index := ValueMAC(ms[n - 1])] &&
            Lookup(Stored(ms, n - 1, macs), index) == Lookup(Latest(ms, n - 1, macs), index)
    ensures Orphans(ms, n) == Orphans(ms, n - 1)
  {
    hide ValueMAC, IndexMAC, Latest;
    var index := IndexMAC(ms[n - 1]);
    RemovedIsTouched(ms, n - 1, index);
    assert index !in RemovedIndices(ms, n - 1);
    UnremovedIsLatest(ms, n - 1, macs, index);
    assert Orphans(ms, n - 1) + [] == Orphans(ms, n - 1);
    assert RemovedIndices(ms, n - 1) + {} == RemovedIndices(ms, n - 1);
  }

  lemma RemoveStep(ms: seq<SyncdMutation>, n: nat, macs: MACs)
    requires 0 < n <= |ms| && NoClash(ms) && ms[n - 1].operation == REMOVE
    ensures var index := IndexMAC(ms[n - 1]);
            Stored(ms, n, macs) == Stored(ms, n - 1, macs) - {index} &&
            Lookup(Stored(ms, n - 1, macs), index) == Lookup(Latest(ms, n - 1, macs), index)
    ensures multiset(Orphans(ms, n)) == multiset(Orphans(ms, n - 1)) + multiset{ValueMAC(ms[n - 1])}
  {
    hide ValueMAC, IndexMAC, Latest;
    var index := IndexMAC(ms[n - 1]);
    assert !Touched(ms, n - 1, index);
    UntouchedIsStored(ms, n - 1, macs, index);
  }

  lemma ReplaceBoth<T>(orphans: multiset<T>, stored: multiset<T>, latest: multiset<T>,
                       previous: multiset<T>, value: multiset<T>, stored': multiset<T>, latest': multiset<T>)
    requires orphans + stored == latest
    requires stored' + previous == stored + value && latest' + previous == latest + value
    ensures orphans + stored' == latest'
  {
    assert (orphans + stored') + previous == orphans + (stored + value) == latest + value;
    CancelMultiset(orphans + stored', latest', previous);
  }

  lemma MoveOut<T>(orphans: multiset<T>, stored: multiset<T>, latest: multiset<T>,
                   previous: multiset<T>, value: multiset<T>, stored': multiset<T>, latest': multiset<T>)
    requires orphans + stored == latest
    requires stored' + previous == stored && latest' + previous == latest + value
    ensures (orphans + value) + stored' == latest'
  {
    assert ((orphans + value) + stored') + previous == orphans + (stored' + previous) + value == latest + value;
    CancelMultiset((orphans + value) + stored', latest', previous);
  }

  // ---------- When it does not ----------

  lemma {:induction false} KeysOf(ms: seq<SyncdMutation>, n: nat, macs: MACs)
    requires n <= |ms|
    ensures Latest(ms, n, macs).Keys == macs.Keys + RemovedIndices(ms, n) + AddedEntries(ms, n).Keys
    ensures Stored(ms, n, macs).Keys == (macs.Keys - RemovedIndices(ms, n)) + AddedEntries(ms, n).Keys
  {
    if n > 0 {
      KeysOf(ms, n - 1, macs);
    }
  }

  lemma {:induction false} OrphansBound(ms: seq<SyncdMutation>, n: nat)
    requires n <= |ms|
    ensures |RemovedIndices(ms, n)| <= |Orphans(ms, n)|
  {
    if n > 0 {
      OrphansBound(ms, n - 1);
    }
  }

  lemma {:induction false} RemovedTwice(ms: seq<SyncdMutation>, n: nat, i: nat, j: nat)
    requires i < j < n <= |ms| && IndexMAC(ms[i]) == IndexMAC(ms[j])
    requires ms[i].operation == REMOVE && ms[j].operation == REMOVE
    ensures |RemovedIndices(ms, n)| < |Orphans(ms, n)|
  {
    hide *;
    if j == n - 1 {
      OrphansBound(ms, n - 1);
      RemovedIsTouched(ms, n - 1, IndexMAC(ms[j]));
      RemovedAgain(ms, n);
    } else {
      RemovedTwice(ms, n - 1, i, j);
      RemovedGrows(ms, n);
    }
  }

  lemma RemovedAgain(ms: seq<SyncdMutation>, n: nat)
    requires 0 < n <= |ms| && ms[n - 1].operation == REMOVE && IndexMAC(ms[n - 1]) in RemovedIndices(ms, n - 1)
    ensures RemovedIndices(ms, n) == RemovedIndices(ms, n - 1) && |Orphans(ms, n)| == |Orphans(ms, n - 1)| + 1
  {
  }

  lemma RemovedGrows(ms: seq<SyncdMutation>, n: nat)
    requires 0 < n <= |ms|
    ensures |RemovedIndices(ms, n)| - |RemovedIndices(ms, n - 1)| <= |Orphans(ms, n)| - |Orphans(ms, n - 1)|
  {
  }

  /** A clash leaves the store with too few entries for the hash to balance. */
  lemma ClashUnbalances(ms: seq<SyncdMutation>, macs: MACs)
    requires !NoClash(ms)
    ensures |Orphans(ms, |ms|)| + |Stored(ms, |ms|, macs)| > |Latest(ms, |ms|, macs)|
  {
    hide Orphans, Stored, Latest, RemovedIndices, AddedEntries, IndexMAC;
    var n := |ms|;
    var i, j :| 0 <= i < j < n && IndexMAC(ms[i]) == IndexMAC(ms[j]) && (ms[i].operation == REMOVE || ms[j].operation == REMOVE);
    var removed, added := RemovedIndices(ms, n), AddedEntries(ms, n).Keys;
    KeysOf(ms, n, macs);
    StoredSize(macs.Keys, removed, added);
    MapSizes(ms, n, macs);
    OrphansBound(ms, n);
    if ms[i].operation == REMOVE && ms[j].operation == REMOVE {
      RemovedTwice(ms, n, i, j);
      SubsetSize(removed - added, removed);
    } else {
      RemovedIsTouched(ms, n, IndexMAC(ms[i]));
      ProperDifference(removed, added, IndexMAC(ms[i]));
    }
  }

  lemma MapSizes(ms: seq<SyncdMutation>, n: nat, macs: MACs)
    requires n <= |ms|
    ensures |Latest(ms, n, macs)| == |Latest(ms, n, macs).Keys| && |Stored(ms, n, macs)| == |Stored(ms, n, macs).Keys|
  {
  }

  lemma StoredSize<T>(before: set<T>, removed: set<T>, added: set<T>)
    ensures |before + removed + added| == |(before - removed) + added| + |removed - added|
  {
    assert before + removed + added == ((before - removed) + added) + (removed - added);
  }

  lemma ProperDifference<T>(removed: set<T>, added: set<T>, x: T)
    requires x in removed && x in added
    ensures |removed - added| < |removed|
  {
    SubsetSize(removed - added, removed - {x});
  }

  /** The value MACs a patch takes out of and puts into the hash match what it takes out of and puts into
  the store if and only if no index is both SET and REMOVEd, or REMOVEd twice. */
  lemma BalancedIff(ms: seq<SyncdMutation>, macs: MACs)
    ensures multiset(Removed(ms, |ms|, macs)) + Values(Stored(ms, |ms|, macs)) == multiset(Added(ms, |ms|)) + Values(macs)
            <==> NoClash(ms)
  {
    hide *;
    var n := |ms|;
    var orphans, stored, latest := multiset(Orphans(ms, n)), Values(Stored(ms, n, macs)), Values(Latest(ms, n, macs));
    var removed, added := multiset(Removed(ms, n, macs)), multiset(Added(ms, n));
    LatestBalances(ms, n, macs);
    BalanceMoves(removed, latest, added, orphans, Values(macs), stored);
    if NoClash(ms) {
      StoredBalances(ms, n, macs);
    } else {
      ClashUnbalances(ms, macs);
      ValuesSize(Stored(ms, n, macs));
      ValuesSize(Latest(ms, n, macs));
      assert |orphans + stored| == |Orphans(ms, n)| + |Stored(ms, n, macs)|;
    }
  }

  lemma BalanceMoves<T>(removed: multiset<T>, latest: multiset<T>, added: multiset<T>, orphans: multiset<T>,
                        before: multiset<T>, stored: multiset<T>)
    requires removed + latest == added + orphans + before
    ensures removed + stored == added + before <==> orphans + stored == latest
  {
    if orphans + stored == latest {
      forall x
        ensures (removed + stored)[x] == (added + before)[x]
      {
        assert (orphans + stored)[x] == latest[x] && (removed + latest)[x] == (added + orphans + before)[x];
      }
    } else if removed + stored == added + before {
      forall x
        ensures (orphans + stored)[x] == latest[x]
      {
        assert (removed + stored)[x] == (added + before)[x] && (removed + latest)[x] == (added + orphans + before)[x];
      }
    }
  }

  // ---------- Snapshots ----------

  predicate DistinctIndices(ms: seq<SyncdMutation>)
  {
    forall i, j :: 0 <= i < j < |ms| ==> IndexMAC(ms[i]) != IndexMAC(ms[j])
  }

  predicate AllSet(ms: seq<SyncdMutation>)
  {
    forall m | m in ms :: m.operation == SET
  }

  predicate FreshIndices(ms: seq<SyncdMutation>, macs: MACs)
  {
    forall m | m in ms :: IndexMAC(m) !in macs
  }

  lemma {:induction false} AllSetParts(ms: seq<SyncdMutation>, n: nat)
    requires n <= |ms| && AllSet(ms)
    ensures RemovedIndices(ms, n) == {} && |Orphans(ms, n)| == 0 && |Added(ms, n)| == n
  {
    if n > 0 {
      assert ms[n - 1] in ms;
      AllSetParts(ms, n - 1);
    }
  }

  lemma {:induction false} SnapshotBalances(ms: seq<SyncdMutation>, n: nat, macs: MACs)
    requires n <= |ms| && AllSet(ms) && DistinctIndices(ms) && FreshIndices(ms, macs)
    ensures Values(Stored(ms, n, macs)) == multiset(Added(ms, n)) + Values(macs)
  {
    hide *;
    if n == 0 {
      NothingStored(ms, macs);
      assert Values(macs) == multiset{} + Values(macs);
    } else {
      SnapshotBalances(ms, n - 1, macs);
      SnapshotStep(ms, n, macs);
      ValuesInsert(Stored(ms, n - 1, macs), IndexMAC(ms[n - 1]), ValueMAC(ms[n - 1]));
      InsertNew(Values(Stored(ms, n, macs)), Lookup(Stored(ms, n - 1, macs), IndexMAC(ms[n - 1])),
                Values(Stored(ms, n - 1, macs)), multiset{ValueMAC(ms[n - 1])}, multiset(Added(ms, n - 1)), Values(macs));
    }
  }

  lemma SnapshotStep(ms: seq<SyncdMutation>, n: nat, macs: MACs)
    requires 0 < n <= |ms| && AllSet(ms) && DistinctIndices(ms) && FreshIndices(ms, macs)
    ensures var index := IndexMAC(ms[n - 1]);
            Stored(ms, n, macs) == Stored(ms, n - 1, macs)[index := ValueMAC(ms[n - 1])] &&
            Lookup(Stored(ms, n - 1, macs), index).None?
    ensures multiset(Added(ms, n)) == multiset(Added(ms, n - 1)) + multiset{ValueMAC(ms[n - 1])}
  {
    hide ValueMAC, IndexMAC, Latest;
    var index := IndexMAC(ms[n - 1]);
    assert ms[n - 1] in ms;
    assert !Touched(ms, n - 1, index);
    UntouchedIsStored(ms, n - 1, macs, index);
    assert RemovedIndices(ms, n - 1) + {} == RemovedIndices(ms, n - 1);
  }

  lemma InsertNew<T>(values': multiset<T>, previous: Option<T>, values: multiset<T>, value: multiset<T>,
                     added: multiset<T>, before: multiset<T>)
    requires previous.None?
    requires values' + multiset(OptionSeq(previous)) == values + value
    requires values == added + before
    ensures values' == (added + value) + before
  {
    assert values' + multiset{} == values';
    forall x
      ensures values'[x] == ((added + value) + before)[x]
    {
      assert (values' + multiset{})[x] == (values + value)[x];
    }
  }

  lemma {:induction false} AddedKeysBound(ms: seq<SyncdMutation>, n: nat)
    requires n <= |ms|
    ensures |AddedEntries(ms, n)| <= n
  {
    if n > 0 {
      AddedKeysBound(ms, n - 1);
      assert AddedEntries(ms, n).Keys <= AddedEntries(ms, n - 1).Keys + {IndexMAC(ms[n - 1])};
      SubsetSize(AddedEntries(ms, n).Keys, AddedEntries(ms, n - 1).Keys + {IndexMAC(ms[n - 1])});
    }
  }

  lemma {:induction false} SetTwice(ms: seq<SyncdMutation>, n: nat, i: nat, j: nat)
    requires i < j < n <= |ms| && AllSet(ms) && IndexMAC(ms[i]) == IndexMAC(ms[j])
    ensures |AddedEntries(ms, n)| < n
  {
    if j == n - 1 {
      AddedKeysBound(ms, n - 1);
      assert ms[i] in ms;
      RemovedIsTouched(ms, n - 1, IndexMAC(ms[j]));
      assert AddedEntries(ms, n).Keys == AddedEntries(ms, n - 1).Keys;
    } else {
      SetTwice(ms, n - 1, i, j);
      assert AddedEntries(ms, n).Keys <= AddedEntries(ms, n - 1).Keys + {IndexMAC(ms[n - 1])};
      SubsetSize(AddedEntries(ms, n).Keys, AddedEntries(ms, n - 1).Keys + {IndexMAC(ms[n - 1])});
    }
  }

  /** A snapshot adds every value and removes none, so it balances if and only if its indices are distinct
  and not yet stored. */
  lemma SnapshotBalancedIff(ms: seq<SyncdMutation>, macs: MACs)
    requires AllSet(ms)
    ensures Values(Stored(ms, |ms|, macs)) == multiset(Added(ms, |ms|)) + Values(macs)
            <==> DistinctIndices(ms) && FreshIndices(ms, macs)
  {
    if DistinctIndices(ms) && FreshIndices(ms, macs) {
      SnapshotBalances(ms, |ms|, macs);
    } else {
      SnapshotTooSmall(ms, macs);
      ValuesSize(Stored(ms, |ms|, macs));
      ValuesSize(macs);
      AllSetParts(ms, |ms|);
    }
  }

  lemma SnapshotTooSmall(ms: seq<SyncdMutation>, macs: MACs)
    requires AllSet(ms) && !(DistinctIndices(ms) && FreshIndices(ms, macs))
    ensures |Stored(ms, |ms|, macs)| < |ms| + |macs|
  {
    hide Stored, RemovedIndices, AddedEntries, IndexMAC, Added, Orphans, Latest;
    var n := |ms|;
    var added := AddedEntries(ms, n).Keys;
    KeysOf(ms, n, macs);
    MapSizes(ms, n, macs);
    AllSetParts(ms, n);
    AddedKeysBound(ms, n);
    assert (macs.Keys - {}) + added == macs.Keys + added;
    if !FreshIndices(ms, macs) {
      var m :| m in ms && IndexMAC(m) in macs;
      var i :| 0 <= i < n && ms[i] == m;
      RemovedIsTouched(ms, n, IndexMAC(m));
      Overlap(macs.Keys, added, IndexMAC(m));
    } else {
      var i, j :| 0 <= i < j < n && IndexMAC(ms[i]) == IndexMAC(ms[j]);
      SetTwice(ms, n, i, j);
      UnionSize(macs.Keys, added);
    }
  }

  lemma Overlap<T>(a: set<T>, b: set<T>, x: T)
    requires x in a && x in b
    ensures |a + b| < |a| + |b|
  {
    assert a + b == a + (b - {x});
    UnionSize(a, b - {x});
  }

  lemma UnionSize<T>(a: set<T>, b: set<T>)
    ensures |a + b| <= |a| + |b|
  {
  }
}
