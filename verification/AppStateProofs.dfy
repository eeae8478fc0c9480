/** What app state synchronisation guarantees: the hash is a function of the stored index, failures commit a
prefix, and a built patch is accepted where it was built. */
module AppStateProofs {
  import opened ByteStrings
  import opened LtHash
  import opened AppStateLedger
  import opened AppState
  import opened AppStateProcessor

  // ---------- The hash follows the stored index ----------

  /** The hash is the group sum of the value MACs in the stored index. */
  ghost predicate Coherent(c: Crypto, sync: Sync)
  {
    sync.state.hash == Sum(c.expand, Values(sync.macs))
  }

  function EmptySync(): Sync {
    Sync(HashState(0, ZeroLanes()), map[])
  }

  lemma EmptyIsCoherent(c: Crypto)
    ensures Coherent(c, EmptySync())
  {
  }

  /** A patch without a clash keeps the hash equal to the sum over the stored index, whatever SETs, overwrites
  and REMOVEs it holds, REMOVEs of missing indices included. */
  lemma PatchKeepsCoherence(c: Crypto, name: Bytes, p: SyncdPatch, sync: Sync, validateMACs: bool)
    requires Coherent(c, sync) && NoClash(p.mutations)
    requires ApplyPatch(c, name, p, sync, validateMACs).Success?
    ensures Coherent(c, ApplyPatch(c, name, p, sync, validateMACs).value.1)
  {
    hide DecodeMutations, ValidatePatch, Stored, Added, Removed, NoClash, SubtractThenAddAll, Values, Sum;
    var ms := p.mutations;
    var n := |ms|;
    BalancedIff(ms, sync.macs);
    BalancedBatch(c.expand, Values(sync.macs), Values(Stored(ms, n, sync.macs)), Removed(ms, n, sync.macs), Added(ms, n));
  }

  lemma SnapshotKeepsCoherence(c: Crypto, name: Bytes, ss: Snapshot, sync: Sync, validateMACs: bool)
    requires Coherent(c, sync)
    requires DistinctIndices(SnapshotMutations(ss)) && FreshIndices(SnapshotMutations(ss), sync.macs)
    requires ApplySnapshot(c, name, ss, sync, validateMACs).Success?
    ensures Coherent(c, ApplySnapshot(c, name, ss, sync, validateMACs).value.1)
  {
    hide DecodeMutations, ValidateSnapshotMAC, Stored, Added, SubtractThenAddAll, Values, Sum, DistinctIndices, FreshIndices,
         SnapshotMutations;
    var ms := SnapshotMutations(ss);
    var n := |ms|;
    SnapshotBalancedIff(ms, sync.macs);
    EmptyMultiset(Values(Stored(ms, n, sync.macs)));
    BalancedBatch(c.expand, Values(sync.macs), Values(Stored(ms, n, sync.macs)), [], Added(ms, n));
  }

  lemma EmptyMultiset<T>(m: multiset<T>)
    ensures multiset([]) + m == m
  {
  }

  /** What a list must satisfy where it arrives: no patch clashes, and a snapshot has distinct indices and
  meets an empty index. */
  ghost predicate Orderly(list: PatchList, sync: Sync)
  {
    && (forall p | p in list.patches :: NoClash(p.mutations))
    && (list.snapshot.Some? ==> sync.macs == map[] && DistinctIndices(SnapshotMutations(list.snapshot.value)))
  }

  lemma {:induction false} ListKeepsCoherence(c: Crypto, list: PatchList, n: nat, sync: Sync, validateMACs: bool)
    requires n <= |list.patches| && Coherent(c, sync) && Orderly(list, sync)
    ensures Coherent(c, DecodeList(c, list, n, sync, validateMACs).sync)
  {
    hide ApplyPatch, ApplySnapshot, Coherent, NoClash, DistinctIndices;
    if n == 0 {
      if list.snapshot.Some? && ApplySnapshot(c, list.name, list.snapshot.value, sync, validateMACs).Success? {
        SnapshotKeepsCoherence(c, list.name, list.snapshot.value, sync, validateMACs);
      }
    } else {
      ListKeepsCoherence(c, list, n - 1, sync, validateMACs);
      var r := DecodeList(c, list, n - 1, sync, validateMACs);
      assert list.patches[n - 1] in list.patches;
      if r.error.None? && ApplyPatch(c, list.name, list.patches[n - 1], r.sync, validateMACs).Success? {
        PatchKeepsCoherence(c, list.name, list.patches[n - 1], r.sync, validateMACs);
      }
    }
  }

  /** Everything that happens to a stored collection. */
  datatype Event = Reset | Receive(list: PatchList, validateMACs: bool)

  function Step(c: Crypto, sync: Sync, e: Event): Sync {
    match e
    case Reset => EmptySync()
    case Receive(list, validateMACs) => DecodeList(c, list, |list.patches|, sync, validateMACs).sync
  }

  function After(c: Crypto, events: seq<Event>, n: nat): Sync
    requires n <= |events|
  {
    if n == 0 then EmptySync() else Step(c, After(c, events, n - 1), events[n - 1])
  }

  ghost predicate OrderlyRun(c: Crypto, events: seq<Event>)
  {
    forall k :: 0 <= k < |events| && events[k].Receive? ==> Orderly(events[k].list, After(c, events, k))
  }

  /** In every run, lists that fail half way included, the hash is the sum over the stored index. */
  lemma {:induction false} EveryRunIsCoherent(c: Crypto, events: seq<Event>, n: nat)
    requires n <= |events| && OrderlyRun(c, events)
    ensures Coherent(c, After(c, events, n))
  {
    hide Coherent, DecodeList, Orderly;
    if n == 0 {
      EmptyIsCoherent(c);
    } else {
      EveryRunIsCoherent(c, events, n - 1);
      match events[n - 1]
      case Reset => EmptyIsCoherent(c);
      case Receive(list, validateMACs) =>
        ListKeepsCoherence(c, list, |list.patches|, After(c, events, n - 1), validateMACs);
    }
  }

  /** The hash depends only on the stored index, not on the path that led to it. */
  lemma HashIsPathIndependent(c: Crypto, a: seq<Event>, b: seq<Event>)
    requires OrderlyRun(c, a) && OrderlyRun(c, b)
    requires After(c, a, |a|).macs == After(c, b, |b|).macs
    ensures After(c, a, |a|).state.hash == After(c, b, |b|).state.hash
  {
    hide After, OrderlyRun;
    EveryRunIsCoherent(c, a, |a|);
    EveryRunIsCoherent(c, b, |b|);
  }

  // ---------- The condition is exact ----------

  function Ones(x: Bytes): Lanes {
    seq(64, i => 1)
  }

  lemma SumPick(expand: Bytes -> Lanes, items: multiset<Bytes>) returns (item: Bytes)
    requires items != multiset{}
    ensures item in items && Sum(expand, items) == Add(Sum(expand, items - multiset{item}), expand(item))
  {
    item :| item in items && Sum(expand, items) == Add(Sum(expand, items - multiset{item}), expand(item));
  }

  /** Under an expansion to ones, a sum counts. */
  lemma {:induction false} SumCounts(items: multiset<Bytes>, i: nat)
    requires i < 64
    ensures Sum(Ones, items)[i] == |items| % 0x1_0000
    decreases |items|
  {
    if items == multiset{} {
      SumOfNothing();
    } else {
      hide Sum;
      var item := SumPick(Ones, items);
      SumCounts(items - multiset{item}, i);
      AddOne(|items - multiset{item}|);
    }
  }

  lemma SumOfNothing()
    ensures Sum(Ones, multiset{}) == ZeroLanes()
  {
  }

  lemma AddOne(n: nat)
    ensures (n % 0x1_0000 + 1) % 0x1_0000 == (n + 1) % 0x1_0000
  {
  }

  ghost predicate KeepsSum(expand: Bytes -> Lanes, ms: seq<SyncdMutation>, macs: MACs)
  {
    SubtractThenAddAll(expand, Sum(expand, Values(macs)), Removed(ms, |ms|, macs), Added(ms, |ms|))
    == Sum(expand, Values(Stored(ms, |ms|, macs)))
  }

  lemma ClashMiscounts(ms: seq<SyncdMutation>, macs: MACs)
    requires |ms| < 0x1_0000 && !NoClash(ms)
    ensures !KeepsSum(Ones, ms, macs)
  {
    hide SubtractThenAddAll, Sum, Values, Removed, Added, Stored, NoClash;
    var n := |ms|;
    var before, after := Values(macs), Values(Stored(ms, n, macs));
    var removed, added := Removed(ms, n, macs), Added(ms, n);
    Miscount(ms, macs);
    SubtractEachIsSum(Ones, Sum(Ones, before), removed);
    AddEachIsSum(Ones, Subtract(Sum(Ones, before), Sum(Ones, multiset(removed))), added);
    SumCounts(before, 0);
    SumCounts(after, 0);
    SumCounts(multiset(removed), 0);
    SumCounts(multiset(added), 0);
    var result := Add(Subtract(Sum(Ones, before), Sum(Ones, multiset(removed))), Sum(Ones, multiset(added)));
    assert SubtractThenAddAll(Ones, Sum(Ones, before), removed, added) == result by { BatchIs(Sum(Ones, before), removed, added); }
    Wraps(|before|, |removed|, |added|, |after|);
    assert result[0] != Sum(Ones, after)[0];
  }

  lemma BatchIs(base: Lanes, removed: seq<Bytes>, added: seq<Bytes>)
    ensures SubtractThenAddAll(Ones, base, removed, added)
         == Add(Subtract(base, Sum(Ones, multiset(removed))), Sum(Ones, multiset(added)))
  {
    hide Sum, Add, Subtract, AddEach, SubtractEach;
    SubtractEachIsSum(Ones, base, removed);
    AddEachIsSum(Ones, Subtract(base, Sum(Ones, multiset(removed))), added);
  }

  lemma Wraps(before: nat, removed: nat, added: nat, after: nat)
    requires before + added < removed + after < before + added + 0x1_0000
    ensures ((before % 0x1_0000 - removed % 0x1_0000) % 0x1_0000 + added % 0x1_0000) % 0x1_0000 != after % 0x1_0000
  {
    var excess := removed + after - before - added;
    assert after % 0x1_0000 == (before - removed + added + excess) % 0x1_0000;
  }

  /** How far the counts of a clashing patch are from balancing. */
  lemma Miscount(ms: seq<SyncdMutation>, macs: MACs)
    requires !NoClash(ms)
    ensures var n := |ms|;
            |Values(macs)| + |Added(ms, n)| < |Removed(ms, n, macs)| + |Values(Stored(ms, n, macs))|
            <= |Values(macs)| + |Added(ms, n)| + n
  {
    hide *;
    var n := |ms|;
    var latest, stored := Values(Latest(ms, n, macs)), Values(Stored(ms, n, macs));
    ClashUnbalances(ms, macs);
    LatestBalances(ms, n, macs);
    ValuesSize(Stored(ms, n, macs));
    ValuesSize(Latest(ms, n, macs));
    assert |multiset(Removed(ms, n, macs)) + latest| == |Removed(ms, n, macs)| + |latest|;
    assert |multiset(Added(ms, n)) + multiset(Orphans(ms, n)) + Values(macs)| == |Added(ms, n)| + |Orphans(ms, n)| + |Values(macs)|;
    KeysOf(ms, n, macs);
    MapSizes(ms, n, macs);
    StoredSize(macs.Keys, RemovedIndices(ms, n), AddedEntries(ms, n).Keys);
    OrphanCount(ms, n);
  }

  lemma {:induction false} OrphanCount(ms: seq<SyncdMutation>, n: nat)
    requires n <= |ms|
    ensures |Orphans(ms, n)| <= n
  {
    if n > 0 {
      OrphanCount(ms, n - 1);
    }
  }

  /** A patch keeps the hash equal to the sum over the stored index, under every expansion of value MACs to
  lanes, if and only if none of its indices is both SET and REMOVEd, or REMOVEd twice. */
  lemma KeepsSumIff(ms: seq<SyncdMutation>, macs: MACs)
    requires |ms| < 0x1_0000
    ensures (forall expand: Bytes -> Lanes :: KeepsSum(expand, ms, macs)) <==> NoClash(ms)
  {
    hide SubtractThenAddAll, Sum, Values, Removed, Added, Stored, NoClash;
    if NoClash(ms) {
      BalancedIff(ms, macs);
      forall expand: Bytes -> Lanes
        ensures KeepsSum(expand, ms, macs)
      {
        BalancedBatch(expand, Values(macs), Values(Stored(ms, |ms|, macs)), Removed(ms, |ms|, macs), Added(ms, |ms|));
      }
    } else {
      ClashMiscounts(ms, macs);
    }
  }

  /** The shortest clash: an index removed twice.  The value MAC of the first removal leaves the hash, in which it
  never was. */
  lemma RemovedTwiceMiscounts(index: Bytes, stored: Bytes, blob: Bytes)
    requires |blob| >= MAC_SIZE
    ensures var m := SyncdMutation(REMOVE, Record(index, blob, [])); var macs := map[index := stored];
            && Removed([m, m], 2, macs) == [stored, ValueMAC(m)] && Added([m, m], 2) == [] && Stored([m, m], 2, macs) == map[]
            && !KeepsSum(Ones, [m, m], macs)
  {
    hide ValueMAC, KeepsSum;
    var m := SyncdMutation(REMOVE, Record(index, blob, []));
    var macs, ms := map[index := stored], [m, m];
    assert Lookback(ms, 0, index, macs) == Some(stored) && Lookback(ms, 1, index, macs) == Some(ValueMAC(m));
    assert Removed(ms, 1, macs) == Removed(ms, 0, macs) + [stored];
    assert Removed(ms, 2, macs) == Removed(ms, 1, macs) + [ValueMAC(m)];
    assert Added(ms, 1) == [] && AddedEntries(ms, 1) == map[];
    assert RemovedIndices(ms, 1) == {index} && RemovedIndices(ms, 2) == {index};
    assert Stored(ms, 2, macs) == map[];
    ClashMiscounts(ms, macs);
  }

  /** An index that a patch sets twice: the decoder removes the first value, the builder does not. */
  lemma SetTwiceDisagrees(index: Bytes, blob: Bytes)
    ensures var m := SyncdMutation(SET, Record(index, blob, []));
            Removed([m, m], 2, map[]) == [ValueMAC(m)] && RemovedFromStore([m, m], 2, map[]) == []
  {
    hide ValueMAC;
    var m := SyncdMutation(SET, Record(index, blob, []));
    var ms := [m, m];
    assert Lookback(ms, 0, index, map[]) == None && Lookback(ms, 1, index, map[]) == Some(ValueMAC(m));
    assert Removed(ms, 1, map[]) == [];
    assert Removed(ms, 2, map[]) == Removed(ms, 1, map[]) + [ValueMAC(m)];
    assert RemovedFromStore(ms, 1, map[]) == [];
  }

  /** A REMOVE with a value too short to slice, alone in its patch: a wrong snapshot MAC is reported first, and only
  then is the value sliced. */
  lemma ShortRemove(c: Crypto, name: Bytes, p: SyncdPatch, sync: Sync)
    requires |p.mutations| == 1 && p.mutations[0].operation == REMOVE && IsShort(p.mutations[0])
    ensures ApplyPatch(c, name, p, sync, true)
         == match ValidateSnapshotMAC(c, name, PatchState(c, p, sync), p.keyID, p.snapshotMAC)
            case Failure(e) => Failure(e)
            case Success(_) => Failure(Panic)
  {
    hide PatchState, ValidateSnapshotMAC, DecodeMutations, PatchMAC;
    assert p.mutations[0] in p.mutations;
  }

  // ---------- Failures commit a prefix ----------

  /** Starting from the stored state, decoding stops at the first patch that fails; the store then holds exactly
  what the patches before it made of it, and the returned state is the stored one. */
  lemma {:induction false} PrefixCommit(c: Crypto, list: PatchList, n: nat, stored: Sync, validateMACs: bool)
    requires n <= |list.patches|
    ensures var run := DecodeList(c, list, n, stored, validateMACs);
            var start := StartOf(c, list, stored, validateMACs);
            && run.applied <= n
            && (run.committed <==> run.applied > 0 || (list.snapshot.Some? && start.error.None?))
            && (!run.committed ==> run.sync == stored)
            && run.sync == DecodeList(c, list, run.applied, stored, validateMACs).sync
            && (run.error.None? ==> run.applied == n && start.error.None?)
            && (run.error.Some? ==>
                if start.error.Some? then run == start
                else run.applied < n && DecodeList(c, list, run.applied, stored, validateMACs).error.None? &&
                     ApplyPatch(c, list.name, list.patches[run.applied], run.sync, validateMACs) == Failure(run.error.value))
  {
    hide ApplyPatch, ApplySnapshot;
    if n > 0 {
      PrefixCommit(c, list, n - 1, stored, validateMACs);
    }
  }

  // ---------- A built patch is accepted where it was built ----------

  lemma {:induction false} DistinctLookback(ms: seq<SyncdMutation>, n: nat, i: nat, macs: MACs)
    requires n <= i < |ms| && DistinctIndices(ms)
    ensures Lookback(ms, n, IndexMAC(ms[i]), macs) == Lookup(macs, IndexMAC(ms[i]))
  {
    if n > 0 {
      DistinctLookback(ms, n - 1, i, macs);
    }
  }

  lemma {:induction false} DistinctRemoved(ms: seq<SyncdMutation>, n: nat, macs: MACs)
    requires n <= |ms| && DistinctIndices(ms)
    ensures Removed(ms, n, macs) == RemovedFromStore(ms, n, macs)
  {
    if n > 0 {
      DistinctRemoved(ms, n - 1, macs);
      DistinctLookback(ms, n - 1, n - 1, macs);
    }
  }

  predicate FreshValues(ms: seq<SyncdMutation>, macs: MACs)
  {
    forall m, x | m in ms && x in macs :: macs[x] != ValueMAC(m)
  }

  lemma {:induction false} StoreLookupsAreStored(ms: seq<SyncdMutation>, n: nat, macs: MACs)
    requires n <= |ms|
    ensures forall v | v in RemovedFromStore(ms, n, macs) :: exists x :: x in macs && macs[x] == v
  {
    if n > 0 {
      StoreLookupsAreStored(ms, n - 1, macs);
    }
  }

  lemma {:induction false} RepeatedLookback(ms: seq<SyncdMutation>, n: nat, i: nat, index: Bytes, macs: MACs)
    requires i < n <= |ms| && IndexMAC(ms[i]) == index
    ensures exists k :: 0 <= k < n && Lookback(ms, n, index, macs) == Some(ValueMAC(ms[k]))
  {
    if IndexMAC(ms[n - 1]) != index {
      RepeatedLookback(ms, n - 1, i, index, macs);
    }
  }

  lemma {:induction false} RemovedGrowsOnly(ms: seq<SyncdMutation>, k: nat, n: nat, macs: MACs, v: Bytes)
    requires k <= n <= |ms| && v in Removed(ms, k, macs)
    ensures v in Removed(ms, n, macs)
  {
    if k < n {
      RemovedGrowsOnly(ms, k, n - 1, macs, v);
    }
  }

  /** The builder never looks inside the patch.  When no new value MAC is stored already, it removes the same
  value MACs as the decoder if and only if the indices are distinct. */
  lemma BuilderAgreesIff(ms: seq<SyncdMutation>, macs: MACs)
    requires FreshValues(ms, macs)
    ensures multiset(RemovedFromStore(ms, |ms|, macs)) == multiset(Removed(ms, |ms|, macs)) <==> DistinctIndices(ms)
  {
    hide RemovedFromStore, Removed, ValueMAC, IndexMAC;
    if DistinctIndices(ms) {
      DistinctRemoved(ms, |ms|, macs);
    } else {
      var i, j :| 0 <= i < j < |ms| && IndexMAC(ms[i]) == IndexMAC(ms[j]);
      RepeatedLookback(ms, j, i, IndexMAC(ms[j]), macs);
      var k :| 0 <= k < j && Lookback(ms, j, IndexMAC(ms[j]), macs) == Some(ValueMAC(ms[k]));
      var v := ValueMAC(ms[k]);
      RemovedHere(ms, j, macs);
      RemovedGrowsOnly(ms, j + 1, |ms|, macs, v);
      StoreLookupsAreStored(ms, |ms|, macs);
      assert ms[k] in ms;
      assert v !in RemovedFromStore(ms, |ms|, macs);
      assert v in multiset(Removed(ms, |ms|, macs)) && v !in multiset(RemovedFromStore(ms, |ms|, macs));
    }
  }

  lemma RemovedHere(ms: seq<SyncdMutation>, j: nat, macs: MACs)
    requires j < |ms| && Lookback(ms, j, IndexMAC(ms[j]), macs).Some?
    ensures Lookback(ms, j, IndexMAC(ms[j]), macs).value in Removed(ms, j + 1, macs)
  {
  }

  /** What the receiver of a built mutation sees. */
  function Received(m: SyncdMutation, info: MutationInfo): Mutation {
    Mutation(SET, info.value, info.version, info.index, IndexMAC(m), ValueMAC(m))
  }

  function ReceivedAll(ms: seq<SyncdMutation>, infos: seq<MutationInfo>, n: nat): seq<Mutation>
    requires n <= |ms| == |infos|
  {
    seq(n, i requires 0 <= i < n => Received(ms[i], infos[i]))
  }

  lemma EncodedMutationDecodes(c: Crypto, keys: Keys, keyID: Bytes, info: MutationInfo, iv: Bytes)
    requires Lawful(c) && c.key(keyID) == Some(keys) && |iv| == IV_SIZE
    requires c.unmarshalIndex(c.marshalIndex(info.index)) == Some(info.index)
    ensures var m := EncodeMutation(c, keys, keyID, info, iv);
            DecodeMutation(c, m, true) == Success(Received(m, info)) && |m.record.blob| >= MAC_SIZE
  {
    hide ContentMAC;
    var m := EncodeMutation(c, keys, keyID, info, iv);
    var content := c.marshal(SyncAction(c.marshalIndex(info.index), info.value, info.version));
    var ciphertext := c.encryptCBC(keys.valueEncryption, iv, content);
    var mac := ContentMAC(c, SET, iv + ciphertext, keyID, keys.valueMAC);
    ContentMACSize(c, iv + ciphertext, keyID, keys.valueMAC);
    var blob := m.record.blob;
    assert blob[..|blob| - MAC_SIZE] == iv + ciphertext && blob[|blob| - MAC_SIZE..] == mac;
    assert (iv + ciphertext)[..IV_SIZE] == iv && (iv + ciphertext)[IV_SIZE..] == ciphertext;
  }

  lemma ContentMACSize(c: Crypto, data: Bytes, keyID: Bytes, key: Bytes)
    requires Lawful(c)
    ensures |ContentMAC(c, SET, data, keyID, key)| == MAC_SIZE
  {
  }

  /** Index lists that survive JSON, and IVs of the right size. */
  ghost predicate Sendable(c: Crypto, infos: seq<MutationInfo>, ivs: seq<Bytes>)
  {
    && |infos| == |ivs|
    && forall i :: 0 <= i < |infos| ==>
         |ivs[i]| == IV_SIZE && c.unmarshalIndex(c.marshalIndex(infos[i].index)) == Some(infos[i].index)
  }

  lemma EncodedMutationDecodesAt(c: Crypto, keys: Keys, keyID: Bytes, infos: seq<MutationInfo>, ivs: seq<Bytes>, i: nat)
    requires Sendable(c, infos, ivs) && i < |infos| && Lawful(c) && c.key(keyID) == Some(keys)
    ensures var m := EncodeMutations(c, keys, keyID, infos, ivs)[i];
            DecodeMutation(c, m, true) == Success(Received(m, infos[i])) && |m.record.blob| >= MAC_SIZE
  {
    hide DecodeMutation, EncodeMutation, Received;
    EncodedMutationDecodes(c, keys, keyID, infos[i], ivs[i]);
  }

  lemma DecodePush(c: Crypto, ms: seq<SyncdMutation>, infos: seq<MutationInfo>, n: nat)
    requires 0 < n <= |ms| == |infos|
    requires DecodeMutations(c, ms, n - 1, true) == Success(ReceivedAll(ms, infos, n - 1))
    requires DecodeMutation(c, ms[n - 1], true) == Success(Received(ms[n - 1], infos[n - 1]))
    ensures DecodeMutations(c, ms, n, true) == Success(ReceivedAll(ms, infos, n))
  {
    hide DecodeMutation, Received;
    assert ReceivedAll(ms, infos, n) == ReceivedAll(ms, infos, n - 1) + [Received(ms[n - 1], infos[n - 1])];
  }

  lemma DecodeNothing(c: Crypto, ms: seq<SyncdMutation>, infos: seq<MutationInfo>)
    requires |ms| == |infos|
    ensures DecodeMutations(c, ms, 0, true) == Success(ReceivedAll(ms, infos, 0))
  {
    assert ReceivedAll(ms, infos, 0) == [];
  }

  lemma {:induction false} EncodedMutationsDecode(c: Crypto, keys: Keys, keyID: Bytes, infos: seq<MutationInfo>,
                                                  ivs: seq<Bytes>, n: nat)
    requires Sendable(c, infos, ivs) && n <= |infos| == |ivs| && Lawful(c) && c.key(keyID) == Some(keys)
    ensures var ms := EncodeMutations(c, keys, keyID, infos, ivs);
            DecodeMutations(c, ms, n, true) == Success(ReceivedAll(ms, infos, n))
    ensures forall i :: 0 <= i < n ==> |EncodeMutations(c, keys, keyID, infos, ivs)[i].record.blob| >= MAC_SIZE
  {
    hide *;
    var ms := EncodeMutations(c, keys, keyID, infos, ivs);
    if n == 0 {
      DecodeNothing(c, ms, infos);
    } else {
      EncodedMutationsDecode(c, keys, keyID, infos, ivs, n - 1);
      EncodedMutationDecodesAt(c, keys, keyID, infos, ivs, n - 1);
      DecodePush(c, ms, infos, n);
    }
  }

  /** A patch built from a state and store, stamped with the next version, passes every MAC check when decoded
  from the same state and store, and yields exactly the mutations it was built from, as SETs, in order. */
  lemma AcceptsOwnPatch(c: Crypto, keys: Keys, keyID: Bytes, name: Bytes, sync: Sync, infos: seq<MutationInfo>,
                        ivs: seq<Bytes>)
    requires |infos| == |ivs| && Sendable(c, infos, ivs) && Lawful(c) && c.key(keyID) == Some(keys)
    requires DistinctIndices(EncodeMutations(c, keys, keyID, infos, ivs))
    ensures var ms := EncodeMutations(c, keys, keyID, infos, ivs);
            var p := EncodedPatch(c, keys, keyID, name, sync, ms);
            ApplyPatch(c, name, p, sync, true)
            == Success((ReceivedAll(ms, infos, |ms|), Sync(PatchState(c, p, sync), Stored(ms, |ms|, sync.macs))))
  {
    hide DecodeMutations, SubtractThenAddAll, Added, Removed, RemovedFromStore, Stored, SnapshotMAC, DistinctIndices,
         EncodeMutation, Lawful, EncodeMutations;
    var ms := EncodeMutations(c, keys, keyID, infos, ivs);
    var p := EncodedPatch(c, keys, keyID, name, sync, ms);
    EncodedMutationsDecode(c, keys, keyID, infos, ivs, |ms|);
    assert !HasShortBlob(ms);
    DistinctRemoved(ms, |ms|, sync.macs);
    assert PatchState(c, p, sync).version == p.version;
    PatchMACIgnoresItself(c, p, name, keys.patchMAC);
    assert ValidatePatch(c, name, PatchState(c, p, sync), p) == Success(keys);
  }

  lemma PatchMACIgnoresItself(c: Crypto, p: SyncdPatch, name: Bytes, key: Bytes)
    ensures PatchMAC(c, p.(patchMAC := []), name, key, p.version) == PatchMAC(c, p, name, key, p.version)
  {
  }

  // ---------- The fetch loop ----------

  datatype Response = NoResponse | Response(list: PatchList, hasMore: bool)

  /** Fetching until the server has no more: each list is applied to what the store holds. */
  function FetchFrom(c: Crypto, responses: seq<Response>, stored: Sync): (Sync, Result<nat>) {
    if responses == [] || responses[0].NoResponse? then (stored, Failure(FetchFailed))
    else
      var list := responses[0].list;
      var run := DecodeList(c, list, |list.patches|, stored, true);
      if run.error.Some? then (run.sync, Failure(run.error.value))
      else if responses[0].hasMore then FetchFrom(c, responses[1..], run.sync)
      else (run.sync, Success(run.sync.state.version))
  }

  function EventOf(r: Response): Event
    requires r.Response?
  {
    Receive(r.list, true)
  }

  /** The stored state after applying the first n lists in turn. */
  function Applied(c: Crypto, responses: seq<Response>, stored: Sync, n: nat): Sync
    requires n <= |responses| && forall i :: 0 <= i < n ==> responses[i].Response?
  {
    if n == 0 then stored else Step(c, Applied(c, responses, stored, n - 1), EventOf(responses[n - 1]))
  }

  /** The first n answers are lists that apply, and after each of them the server has more. */
  predicate GoesOn(c: Crypto, responses: seq<Response>, stored: Sync, n: nat)
    requires n <= |responses|
  {
    && (forall i :: 0 <= i < n ==> responses[i].Response? && responses[i].hasMore)
    && forall i :: 0 <= i < n ==> Applies(c, responses[i].list, Applied(c, responses, stored, i))
  }

  predicate Applies(c: Crypto, list: PatchList, sync: Sync)
  {
    DecodeList(c, list, |list.patches|, sync, true).error.None?
  }

  /** The last answer looked at, if any, on the state before it: no answer leaves that state; a list with nothing behind
  it applies, and is the result; or a list fails, and leaves what its good patches made of the state. */
  predicate EndsWith(c: Crypto, last: Option<Response>, before: Sync, end: (Sync, Result<nat>))
  {
    match last
    case None => end == (before, Failure(FetchFailed))
    case Some(NoResponse) => end == (before, Failure(FetchFailed))
    case Some(Response(list, hasMore)) =>
      && end.0 == Step(c, before, Receive(list, true))
      && if Applies(c, list, before) then !hasMore && end.1 == Success(end.0.state.version)
         else end.1.Failure? && DecodeList(c, list, |list.patches|, before, true).error == Some(end.1.error)
  }

  /** How fetching ends: k answers apply with more behind each of them, and then comes the last one looked at. */
  lemma {:induction false} FetchEnds(c: Crypto, responses: seq<Response>, stored: Sync) returns (k: nat)
    ensures k <= |responses| && GoesOn(c, responses, stored, k)
    ensures EndsWith(c, if k < |responses| then Some(responses[k]) else None, Applied(c, responses, stored, k),
                     FetchFrom(c, responses, stored))
    decreases |responses|
  {
    hide DecodeList;
    k := 0;
    if responses != [] && responses[0].Response? {
      var next := Step(c, stored, EventOf(responses[0]));
      assert Applied(c, responses, stored, 1) == next;
      if Applies(c, responses[0].list, stored) && responses[0].hasMore {
        var j := FetchEnds(c, responses[1..], next);
        k := j + 1;
        forall n: nat | n <= |responses| - 1 && forall i :: 0 <= i < n ==> responses[1..][i].Response?
          ensures Applied(c, responses[1..], next, n) == Applied(c, responses, stored, n + 1)
        {
          AppliedRest(c, responses, stored, n);
        }
        forall i | 0 <= i < k
          ensures responses[i].Response? && responses[i].hasMore
          ensures Applies(c, responses[i].list, Applied(c, responses, stored, i))
        {
          if i > 0 {
            assert responses[i] == responses[1..][i - 1];
          }
        }
      }
    }
  }

  lemma {:induction false} AppliedRest(c: Crypto, responses: seq<Response>, stored: Sync, n: nat)
    requires n < |responses| && forall i :: 0 <= i < n ==> responses[1..][i].Response?
    requires responses[0].Response?
    ensures forall i :: 0 <= i < n + 1 ==> responses[i].Response?
    ensures Applied(c, responses[1..], Step(c, stored, EventOf(responses[0])), n) == Applied(c, responses, stored, n + 1)
  {
    hide Step;
    forall i | 0 <= i < n + 1 ensures responses[i].Response? {
      assert i > 0 ==> responses[i] == responses[1..][i - 1];
    }
    if n > 0 {
      AppliedRest(c, responses, stored, n - 1);
      assert responses[1..][n - 1] == responses[n];
    }
  }

  /** Two answers, the first with more to come: the second is applied to what the first left. */
  lemma FetchTwo(c: Crypto, a: PatchList, b: PatchList, stored: Sync)
    requires Applies(c, a, stored) && Applies(c, b, Step(c, stored, Receive(a, true)))
    ensures var after := Step(c, Step(c, stored, Receive(a, true)), Receive(b, true));
            FetchFrom(c, [Response(a, true), Response(b, false)], stored) == (after, Success(after.state.version))
  {
    hide DecodeList;
    var two := [Response(a, true), Response(b, false)];
    assert two[1..] == [Response(b, false)];
  }

  /** The loop carries a state of its own; it always equals the stored one. */
  method FetchAppState(proc: Processor, fullSync: bool, onlyIfNotSynced: bool, responses: seq<Response>)
    returns (r: Result<nat>)
    modifies proc.store
    ensures var before := if fullSync then EmptySync() else old(proc.store.Content());
            if before.state.version != 0 && onlyIfNotSynced then
              proc.store.Content() == before && r == Success(before.state.version)
            else (proc.store.Content(), r) == FetchFrom(proc.c, responses, before)
  {
    hide DecodeList;
    var store := proc.store;
    if fullSync {
      store.DeleteAppStateVersion();
    }
    ghost var before := store.Content();
    if store.version != 0 && onlyIfNotSynced {
      return Success(store.version);
    }
    var state := HashState(store.version, store.hash);
    var hasMore, i := true, 0;
    assert responses[0..] == responses;
    while hasMore
      invariant i <= |responses|
      invariant state == store.Content().state
      invariant FetchFrom(proc.c, responses, before)
             == if hasMore then FetchFrom(proc.c, responses[i..], store.Content())
                else (store.Content(), Success(state.version))
      decreases |responses| - i, hasMore
    {
      if i == |responses| || responses[i].NoResponse? {
        return Failure(FetchFailed);
      }
      var list := responses[i].list;
      hasMore := responses[i].hasMore;
      assert responses[i..][1..] == responses[i + 1..];
      i := i + 1;
      Uncommitted(proc.c, list, store.Content(), true);
      var decoded := proc.DecodePatches(list, state, true);
      if decoded.Failure? {
        return Failure(decoded.error);
      }
      state := decoded.value.1;
    }
    return Success(state.version);
  }

  lemma Uncommitted(c: Crypto, list: PatchList, stored: Sync, validateMACs: bool)
    ensures var run := DecodeList(c, list, |list.patches|, stored, validateMACs);
            !run.committed ==> run.sync == stored
  {
    hide DecodeList;
    PrefixCommit(c, list, |list.patches|, stored, validateMACs);
  }
}
