/** The processor that decodes patch lists into a store, builds patches, and fetches until nothing is left. */
module AppStateProcessor {
  import opened ByteStrings
  import opened LtHash
  import opened AppStateLedger
  import opened AppState

  /** The stored rows of one collection. */
  class AppStateStore {
    var version: nat
    var hash: Lanes
    var macs: MACs

    constructor ()
      ensures Content() == Sync(HashState(0, ZeroLanes()), map[])
    {
      version, hash, macs := 0, ZeroLanes(), map[];
    }

    function Content(): Sync
      reads this
    {
      Sync(HashState(version, hash), macs)
    }

    /** Deleting the version row cascades to the value MACs. */
    method DeleteAppStateVersion()
      modifies this
      ensures Content() == Sync(HashState(0, ZeroLanes()), map[])
    {
      version, hash, macs := 0, ZeroLanes(), map[];
    }

    method PutAppStateVersion(version: nat, hash: Lanes)
      modifies this
      ensures Content() == Sync(HashState(version, hash), old(macs))
    {
      this.version, this.hash := version, hash;
    }

    method DeleteAppStateMutationMACs(indices: seq<Bytes>)
      modifies this`macs
      ensures macs == old(macs) - set x | x in indices
    {
      macs := macs - set x | x in indices;
    }

    method PutAppStateMutationMACs(entries: seq<(Bytes, Bytes)>)
      modifies this`macs
      ensures macs == old(macs) + EntryMap(entries)
    {
      for i := 0 to |entries|
        invariant macs == old(macs) + EntryMap(entries[..i])
      {
        assert entries[..i + 1][..i] == entries[..i];
        macs := macs[entries[i].0 := entries[i].1];
      }
      assert entries[..|entries|] == entries;
    }
  }

  function EntryMap(entries: seq<(Bytes, Bytes)>): MACs {
    if entries == [] then map[]
    else
      var (index, value) := entries[|entries| - 1];
      EntryMap(entries[..|entries| - 1])[index := value]
  }

  /** The value MACs that a lookup finds for the first `n` mutations. */
  function Found(ms: seq<SyncdMutation>, n: nat, previous: (Bytes, nat) -> Option<Bytes>): seq<Bytes>
    requires n <= |ms|
  {
    if n == 0 then [] else Found(ms, n - 1, previous) + OptionSeq(previous(IndexMAC(ms[n - 1]), n - 1))
  }

  /** The number of REMOVEs among the first `n` mutations for which a lookup finds nothing. */
  function Unmatched(ms: seq<SyncdMutation>, n: nat, previous: (Bytes, nat) -> Option<Bytes>): nat
    requires n <= |ms|
  {
    if n == 0 then 0
    else Unmatched(ms, n - 1, previous)
         + if ms[n - 1].operation == REMOVE && previous(IndexMAC(ms[n - 1]), n - 1).None? then 1 else 0
  }

  /** `updateHash`: one pass over the mutations, then one batch on the hash in place.  Each REMOVE of an index
  that has no value is a warning. */
  method UpdateHash(c: Crypto, hash: Lanes, ms: seq<SyncdMutation>, previous: (Bytes, nat) -> Option<Bytes>)
    returns (hash': Lanes, warnings: nat)
    requires !HasShortSet(ms)
    ensures hash' == SubtractThenAddAll(c.expand, hash, Found(ms, |ms|, previous), Added(ms, |ms|))
    ensures warnings == Unmatched(ms, |ms|, previous)
  {
    hide SubtractThenAddAll, LanesOf, LaneBytes, ValueMAC, IndexMAC;
    var added: seq<Bytes>, removed: seq<Bytes> := [], [];
    warnings := 0;
    for i := 0 to |ms|
      invariant added == Added(ms, i) && removed == Found(ms, i, previous)
      invariant warnings == Unmatched(ms, i, previous)
    {
      var mutation := ms[i];
      if mutation.operation == SET {
        added := added + [ValueMAC(mutation)];
      }
      var removal := previous(IndexMAC(mutation), i);
      if removal.Some? {
        removed := removed + [removal.value];
      } else if mutation.operation == REMOVE {
        warnings := warnings + 1;
      }
    }
    hash' := UpdateInPlace(c.expand, hash, removed, added);
  }

  method UpdateInPlace(expand: Bytes -> Lanes, hash: Lanes, removed: seq<Bytes>, added: seq<Bytes>) returns (hash': Lanes)
    ensures hash' == SubtractThenAddAll(expand, hash, removed, added)
  {
    hide SubtractThenAddAll, LanesOf, LaneBytes;
    var buffer := new Byte[128](k requires 0 <= k < 128 => LaneBytes(hash)[k]);
    assert buffer[..] == LaneBytes(hash);
    LaneBytesInverse(hash);
    SubtractThenAddInPlace(expand, buffer, removed, added);
    hash' := LanesOf(buffer[..]);
  }

  lemma {:induction false} FoundInPatch(ms: seq<SyncdMutation>, n: nat, macs: MACs, previous: (Bytes, nat) -> Option<Bytes>)
    requires n <= |ms|
    requires forall x: Bytes, i: nat | i <= |ms| :: previous(x, i) == Lookback(ms, i, x, macs)
    ensures Found(ms, n, previous) == Removed(ms, n, macs)
  {
    if n > 0 {
      FoundInPatch(ms, n - 1, macs, previous);
    }
  }

  lemma {:induction false} FoundInStore(ms: seq<SyncdMutation>, n: nat, macs: MACs, previous: (Bytes, nat) -> Option<Bytes>)
    requires n <= |ms|
    requires forall x: Bytes, i: nat :: previous(x, i) == Lookup(macs, x)
    ensures Found(ms, n, previous) == RemovedFromStore(ms, n, macs)
  {
    if n > 0 {
      FoundInStore(ms, n - 1, macs, previous);
    }
  }

  lemma {:induction false} FoundNothing(ms: seq<SyncdMutation>, n: nat, previous: (Bytes, nat) -> Option<Bytes>)
    requires n <= |ms|
    requires forall x: Bytes, i: nat :: previous(x, i).None?
    ensures Found(ms, n, previous) == []
  {
    if n > 0 {
      FoundNothing(ms, n - 1, previous);
    }
  }

  datatype PatchOutput = PatchOutput(removedMACs: seq<Bytes>, addedMACs: seq<(Bytes, Bytes)>, mutations: seq<Mutation>)

  class Processor {
    const c: Crypto
    const store: AppStateStore

    constructor (c: Crypto, store: AppStateStore)
      ensures this.c == c && this.store == store
    {
      this.c, this.store := c, store;
    }

    method DecodeAll(ms: seq<SyncdMutation>, input: seq<Mutation>, validateMACs: bool) returns (r: Result<PatchOutput>)
      ensures match DecodeMutations(c, ms, |ms|, validateMACs)
              case Failure(e) => r == Failure(e)
              case Success(decoded) =>
                && r.Success?
                && r.value.mutations == input + decoded
                && (set x | x in r.value.removedMACs) == RemovedIndices(ms, |ms|)
                && EntryMap(r.value.addedMACs) == AddedEntries(ms, |ms|)
    {
      hide DecodeMutation;
      var out := PatchOutput([], [], input);
      ghost var decoded: seq<Mutation> := [];
      assert input + [] == input;
      for i := 0 to |ms|
        invariant DecodeMutations(c, ms, i, validateMACs) == Success(decoded)
        invariant out.mutations == input + decoded
        invariant (set x | x in out.removedMACs) == RemovedIndices(ms, i)
        invariant EntryMap(out.addedMACs) == AddedEntries(ms, i)
      {
        var m := DecodeMutation(c, ms[i], validateMACs);
        if m.Failure? {
          DecodeFails(c, ms, i, |ms|, validateMACs);
          return Failure(m.error);
        }
        if ms[i].operation == REMOVE {
          out := out.(removedMACs := out.removedMACs + [IndexMAC(ms[i])]);
          assert (set x | x in out.removedMACs) == RemovedIndices(ms, i + 1);
        } else {
          ghost var entries := out.addedMACs;
          out := out.(addedMACs := out.addedMACs + [(IndexMAC(ms[i]), ValueMAC(ms[i]))]);
          assert out.addedMACs[..|entries|] == entries;
        }
        out := out.(mutations := out.mutations + [m.value]);
        decoded := decoded + [m.value];
        assert input + decoded == out.mutations;
      }
      return Success(out);
    }

    method StoreMACs(state: HashState, out: PatchOutput)
      modifies store
      ensures store.Content()
           == Sync(state, (old(store.macs) - set x | x in out.removedMACs) + EntryMap(out.addedMACs))
    {
      store.PutAppStateVersion(state.version, state.hash);
      store.DeleteAppStateMutationMACs(out.removedMACs);
      store.PutAppStateMutationMACs(out.addedMACs);
    }

    /** Applies the snapshot to the store, or leaves the store alone. */
    method DecodeSnapshot(name: Bytes, ss: Snapshot, initial: HashState, validateMACs: bool)
      returns (r: Result<(seq<Mutation>, HashState)>)
      modifies store
      ensures match ApplySnapshot(c, name, ss, Sync(initial, old(store.macs)), validateMACs)
              case Failure(e) => r == Failure(e) && store.Content() == old(store.Content())
              case Success((decoded, sync)) => r == Success((decoded, sync.state)) && store.Content() == sync
    {
      hide DecodeMutations, ValidateSnapshotMAC, SubtractThenAddAll, Added, AddedEntries, RemovedIndices, Found;
      var ms := SnapshotMutations(ss);
      if HasShortBlob(ms) {
        return Failure(Panic);
      }
      var nothing := (index: Bytes, i: nat) => None;
      var hash, warnings := UpdateHash(c, initial.hash, ms, nothing);
      FoundNothing(ms, |ms|, nothing);
      var current := HashState(ss.version, hash);
      assert current == SnapshotState(c, ss, Sync(initial, store.macs));
      if validateMACs {
        var keys := ValidateSnapshotMAC(c, name, current, ss.keyID, ss.mac);
        if keys.Failure? {
          return Failure(keys.error);
        }
      }
      var out := DecodeAll(ms, [], validateMACs);
      if out.Failure? {
        return Failure(out.error);
      }
      assert DecodeMutations(c, ms, |ms|, validateMACs).Success?;
      StoreMACs(current, out.value);
      assert [] + DecodeMutations(c, ms, |ms|, validateMACs).value == DecodeMutations(c, ms, |ms|, validateMACs).value;
      return Success((out.value.mutations, current));
    }

    /** Applies one patch to the store, or leaves the store alone. */
    method DecodePatch(name: Bytes, patch: SyncdPatch, carried: HashState, input: seq<Mutation>, validateMACs: bool)
      returns (r: Result<(seq<Mutation>, HashState)>)
      modifies store
      ensures match ApplyPatch(c, name, patch, Sync(carried, old(store.macs)), validateMACs)
              case Failure(e) => r == Failure(e) && store.Content() == old(store.Content())
              case Success((decoded, sync)) => r == Success((input + decoded, sync.state)) && store.Content() == sync
    {
      hide DecodeMutations, ValidatePatch, SubtractThenAddAll, Added, Removed, AddedEntries, RemovedIndices, Found, Lookback;
      var ms := patch.mutations;
      if HashPanics(ms) {
        return Failure(Panic);
      }
      var macs := store.macs;
      var previous := (index: Bytes, i: nat) => if i <= |ms| then Lookback(ms, i, index, macs) else None;
      var hash, warnings := UpdateHash(c, carried.hash, ms, previous);
      FoundInPatch(ms, |ms|, macs, previous);
      var current := HashState(patch.version, hash);
      assert current == PatchState(c, patch, Sync(carried, macs));
      if validateMACs {
        var keys := ValidatePatch(c, name, current, patch);
        if keys.Failure? {
          return Failure(keys.error);
        }
      }
      var out := DecodeAll(ms, input, validateMACs);
      if out.Failure? {
        return Failure(out.error);
      }
      assert DecodeMutations(c, ms, |ms|, validateMACs).Success?;
      StoreMACs(current, out.value);
      return Success((out.value.mutations, current));
    }

    /** The store ends up as the whole run says, or untouched when the run wrote nothing. */
    method DecodePatches(list: PatchList, initial: HashState, validateMACs: bool)
      returns (r: Result<(seq<Mutation>, HashState)>)
      modifies store
      ensures var run := DecodeList(c, list, |list.patches|, Sync(initial, old(store.macs)), validateMACs);
              && store.Content() == (if run.committed then run.sync else old(store.Content()))
              && r == if run.error.Some? then Failure(run.error.value) else Success((run.mutations, run.sync.state))
    {
      hide ApplyPatch, ApplySnapshot;
      var newMutations: seq<Mutation>, current := [], initial;
      ghost var start := Sync(initial, store.macs);
      ghost var committed := false;
      if list.snapshot.Some? {
        var s := DecodeSnapshot(list.name, list.snapshot.value, current, validateMACs);
        if s.Failure? {
          StaysFailed(c, list, 0, |list.patches|, start, validateMACs);
          return Failure(s.error);
        }
        newMutations, current := s.value.0, s.value.1;
        committed := true;
      }
      for i := 0 to |list.patches|
        invariant DecodeList(c, list, i, start, validateMACs)
               == Run(i, newMutations, Sync(current, store.macs), committed, None)
        invariant store.Content() == if committed then Sync(current, store.macs) else old(store.Content())
      {
        var p := DecodePatch(list.name, list.patches[i], current, newMutations, validateMACs);
        if p.Failure? {
          StaysFailed(c, list, i + 1, |list.patches|, start, validateMACs);
          return Failure(p.error);
        }
        newMutations, current := p.value.0, p.value.1;
        committed := true;
      }
      return Success((newMutations, current));
    }

    /** The patch built from the carried state and the stored value MACs, with one IV for each mutation. */
    method EncodePatch(keyID: Bytes, state: HashState, name: Bytes, infos: seq<MutationInfo>, ivs: seq<Bytes>)
      returns (r: Result<SyncdPatch>)
      requires |infos| == |ivs|
      ensures match c.key(keyID)
              case None => r == Failure(KeyNotFound)
              case Some(keys) =>
                var ms := EncodeMutations(c, keys, keyID, infos, ivs);
                if HasShortBlob(ms) then r == Failure(Panic)
                else r == Success(EncodedPatch(c, keys, keyID, name, Sync(state, store.macs), ms))
    {
      hide EncodeMutation, PatchMAC, SnapshotMAC, SubtractThenAddAll, Added, Found, RemovedFromStore;
      var k := c.key(keyID);
      if k.None? {
        return Failure(KeyNotFound);
      }
      var keys := k.value;
      var mutations: seq<SyncdMutation> := [];
      for i := 0 to |infos|
        invariant mutations == EncodeMutations(c, keys, keyID, infos, ivs)[..i]
      {
        mutations := mutations + [EncodeMutation(c, keys, keyID, infos[i], ivs[i])];
      }
      assert mutations == EncodeMutations(c, keys, keyID, infos, ivs);
      if HasShortBlob(mutations) {
        return Failure(Panic);
      }
      var macs := store.macs;
      var previous := (index: Bytes, i: nat) => Lookup(macs, index);
      var hash, warnings := UpdateHash(c, state.hash, mutations, previous);
      FoundInStore(mutations, |mutations|, macs, previous);
      var next := HashState((state.version + 1) % TWO_64, hash);
      var patch := SyncdPatch(next.version, mutations, SnapshotMAC(c, next, name, keys.snapshotMAC), [], keyID);
      patch := patch.(patchMAC := PatchMAC(c, patch, name, keys.patchMAC, next.version));
      return Success(patch);
    }
  }

  lemma {:induction false} DecodeFails(c: Crypto, ms: seq<SyncdMutation>, i: nat, n: nat, validateMACs: bool)
    requires i < n <= |ms|
    requires DecodeMutations(c, ms, i, validateMACs).Success? && DecodeMutation(c, ms[i], validateMACs).Failure?
    ensures DecodeMutations(c, ms, n, validateMACs) == Failure(DecodeMutation(c, ms[i], validateMACs).error)
  {
    hide DecodeMutation;
    if i < n - 1 {
      DecodeFails(c, ms, i, n - 1, validateMACs);
    }
  }

  lemma {:induction false} StaysFailed(c: Crypto, list: PatchList, k: nat, n: nat, sync: Sync, validateMACs: bool)
    requires k <= n <= |list.patches| && DecodeList(c, list, k, sync, validateMACs).error.Some?
    ensures DecodeList(c, list, n, sync, validateMACs) == DecodeList(c, list, k, sync, validateMACs)
  {
    hide ApplyPatch, StartOf;
    if k < n {
      StaysFailed(c, list, k, n - 1, sync, validateMACs);
    }
  }
}
