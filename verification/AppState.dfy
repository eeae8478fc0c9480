/** App state synchronisation: applying patches to a stored collection, and building patches to send. */
module AppState {
  import opened ByteStrings
  import opened LtHash
  import opened AppStateLedger

  datatype Error = KeyNotFound | MismatchingLTHash | MismatchingPatchMAC | MismatchingContentMAC | MismatchingIndexMAC
                 | DecryptFailed | UnmarshalFailed | BadIndex | FetchFailed | Panic

  datatype Result<+T> = Success(value: T) | Failure(error: Error)

  datatype Keys = Keys(index: Bytes, valueEncryption: Bytes, valueMAC: Bytes, snapshotMAC: Bytes, patchMAC: Bytes)

  datatype SyncAction = SyncAction(index: Bytes, value: Bytes, version: int)

  /** The primitives the protocol is built from.  `key` is the key store followed by key expansion. */
  datatype Crypto = Crypto(
    expand: Bytes -> Lanes,
    hmac256: (Bytes, Bytes) -> Bytes,
    hmac512: (Bytes, Bytes) -> Bytes,
    encryptCBC: (Bytes, Bytes, Bytes) -> Bytes,
    decryptCBC: (Bytes, Bytes, Bytes) -> Option<Bytes>,
    marshal: SyncAction -> Bytes,
    unmarshal: Bytes -> Option<SyncAction>,
    marshalIndex: seq<Bytes> -> Bytes,
    unmarshalIndex: Bytes -> Option<seq<Bytes>>,
    key: Bytes -> Option<Keys>)

  const IV_SIZE := 16

  /** The laws a round trip needs: decryption undoes encryption under the same key and IV, unmarshalling
  undoes marshalling, and a SHA-512 MAC has 64 bytes. */
  ghost predicate Lawful(c: Crypto)
  {
    && (forall k, iv, text :: |iv| == IV_SIZE ==> c.decryptCBC(k, iv, c.encryptCBC(k, iv, text)) == Some(text))
    && (forall a :: c.unmarshal(c.marshal(a)) == Some(a))
    && (forall k, data :: |c.hmac512(k, data)| == 64)
  }

  const TWO_64 := 0x1_0000_0000_0000_0000

  datatype HashState = HashState(version: nat, hash: Lanes)

  datatype SyncdPatch = SyncdPatch(version: nat, mutations: seq<SyncdMutation>, snapshotMAC: Bytes, patchMAC: Bytes,
                                   keyID: Bytes)

  datatype Snapshot = Snapshot(version: nat, records: seq<Record>, mac: Bytes, keyID: Bytes)

  datatype PatchList = PatchList(name: Bytes, snapshot: Option<Snapshot>, patches: seq<SyncdPatch>)

  datatype Mutation = Mutation(operation: Operation, action: Bytes, version: int, index: seq<Bytes>, indexMAC: Bytes,
                               valueMAC: Bytes)

  /** A version and hash with the index of value MACs they belong to. */
  datatype Sync = Sync(state: HashState, macs: MACs)

  // ---------- MACs ----------

  function SnapshotMAC(c: Crypto, state: HashState, name: Bytes, key: Bytes): Bytes {
    c.hmac256(key, LaneBytes(state.hash) + BigEndian(state.version, 8) + name)
  }

  function ValueMACs(ms: seq<SyncdMutation>, n: nat): Bytes
    requires n <= |ms|
  {
    if n == 0 then [] else ValueMACs(ms, n - 1) + ValueMAC(ms[n - 1])
  }

  function PatchMAC(c: Crypto, patch: SyncdPatch, name: Bytes, key: Bytes, version: nat): Bytes {
    c.hmac256(key, patch.snapshotMAC + ValueMACs(patch.mutations, |patch.mutations|) + BigEndian(version, 8) + name)
  }

  function ContentMAC(c: Crypto, operation: Operation, data: Bytes, keyID: Bytes, key: Bytes): Bytes {
    var mac := c.hmac512(key, [if operation == SET then 1 else 2] + keyID + data + BigEndian(|keyID| + 1, 8));
    if |mac| < MAC_SIZE then mac else mac[..MAC_SIZE]
  }

  // ---------- Decoding one mutation ----------

  function DecodeMutation(c: Crypto, m: SyncdMutation, validateMACs: bool): Result<Mutation> {
    match c.key(m.record.keyID)
    case None => Failure(KeyNotFound)
    case Some(keys) =>
      var blob := m.record.blob;
      if |blob| < MAC_SIZE then Failure(Panic)
      else
        var content := blob[..|blob| - MAC_SIZE];
        if validateMACs && ContentMAC(c, m.operation, content, m.record.keyID, keys.valueMAC) != ValueMAC(m) then
          Failure(MismatchingContentMAC)
        else if |content| < IV_SIZE then Failure(Panic)
        else
          match c.decryptCBC(keys.valueEncryption, content[..IV_SIZE], content[IV_SIZE..])
          case None => Failure(DecryptFailed)
          case Some(plaintext) =>
            match c.unmarshal(plaintext)
            case None => Failure(UnmarshalFailed)
            case Some(action) =>
              if validateMACs && c.hmac256(keys.index, action.index) != IndexMAC(m) then Failure(MismatchingIndexMAC)
              else
                match c.unmarshalIndex(action.index)
                case None => Failure(BadIndex)
                case Some(index) =>
                  Success(Mutation(m.operation, action.value, action.version, index, IndexMAC(m), ValueMAC(m)))
  }

  function DecodeMutations(c: Crypto, ms: seq<SyncdMutation>, n: nat, validateMACs: bool): (r: Result<seq<Mutation>>)
    requires n <= |ms|
  {
    if n == 0 then Success([])
    else
      match DecodeMutations(c, ms, n - 1, validateMACs)
      case Failure(e) => Failure(e)
      case Success(decoded) =>
        match DecodeMutation(c, ms[n - 1], validateMACs)
        case Failure(e) => Failure(e)
        case Success(m) => Success(decoded + [m])
  }

  // ---------- Applying a snapshot or a patch ----------

  /** A value shorter than its MAC, which cannot be sliced. */
  predicate IsShort(m: SyncdMutation)
  {
    |m.record.blob| < MAC_SIZE
  }

  predicate HasShortBlob(ms: seq<SyncdMutation>)
  {
    exists m | m in ms :: IsShort(m)
  }

  predicate HasShortSet(ms: seq<SyncdMutation>)
  {
    exists m | m in ms :: m.operation == SET && IsShort(m)
  }

  /** Updating the hash slices the value of every SET, and that of a REMOVE only when its index comes again. */
  predicate HashPanics(ms: seq<SyncdMutation>)
  {
    HasShortSet(ms) || exists i, j :: 0 <= i < j < |ms| && IsShort(ms[i]) && IndexMAC(ms[i]) == IndexMAC(ms[j])
  }

  function SnapshotMutations(ss: Snapshot): (r: seq<SyncdMutation>)
    ensures AllSet(r) && |r| == |ss.records|
  {
    seq(|ss.records|, i requires 0 <= i < |ss.records| => SyncdMutation(SET, ss.records[i]))
  }

  function ValidateSnapshotMAC(c: Crypto, name: Bytes, state: HashState, keyID: Bytes, mac: Bytes): Result<Keys> {
    match c.key(keyID)
    case None => Failure(KeyNotFound)
    case Some(keys) =>
      if SnapshotMAC(c, state, name, keys.snapshotMAC) != mac then Failure(MismatchingLTHash) else Success(keys)
  }

  function ValidatePatch(c: Crypto, name: Bytes, state: HashState, p: SyncdPatch): Result<Keys> {
    match ValidateSnapshotMAC(c, name, state, p.keyID, p.snapshotMAC)
    case Failure(e) => Failure(e)
    case Success(keys) =>
      if HasShortBlob(p.mutations) then Failure(Panic)
      else if PatchMAC(c, p, name, keys.patchMAC, p.version) != p.patchMAC then Failure(MismatchingPatchMAC) else Success(keys)
  }

  function SnapshotState(c: Crypto, ss: Snapshot, sync: Sync): HashState {
    var ms := SnapshotMutations(ss);
    HashState(ss.version, SubtractThenAddAll(c.expand, sync.state.hash, [], Added(ms, |ms|)))
  }

  function ApplySnapshot(c: Crypto, name: Bytes, ss: Snapshot, sync: Sync, validateMACs: bool): Result<(seq<Mutation>, Sync)> {
    var ms := SnapshotMutations(ss);
    var state := SnapshotState(c, ss, sync);
    if HasShortBlob(ms) then Failure(Panic)
    else if validateMACs && ValidateSnapshotMAC(c, name, state, ss.keyID, ss.mac).Failure? then
      Failure(ValidateSnapshotMAC(c, name, state, ss.keyID, ss.mac).error)
    else
      match DecodeMutations(c, ms, |ms|, validateMACs)
      case Failure(e) => Failure(e)
      case Success(decoded) => Success((decoded, Sync(state, Stored(ms, |ms|, sync.macs))))
  }

  function PatchState(c: Crypto, p: SyncdPatch, sync: Sync): HashState {
    var ms := p.mutations;
    HashState(p.version, SubtractThenAddAll(c.expand, sync.state.hash, Removed(ms, |ms|, sync.macs), Added(ms, |ms|)))
  }

  function ApplyPatch(c: Crypto, name: Bytes, p: SyncdPatch, sync: Sync, validateMACs: bool): Result<(seq<Mutation>, Sync)> {
    var ms := p.mutations;
    var state := PatchState(c, p, sync);
    if HashPanics(ms) then Failure(Panic)
    else if validateMACs && ValidatePatch(c, name, state, p).Failure? then
      Failure(ValidatePatch(c, name, state, p).error)
    else
      match DecodeMutations(c, ms, |ms|, validateMACs)
      case Failure(e) => Failure(e)
      case Success(decoded) => Success((decoded, Sync(state, Stored(ms, |ms|, sync.macs))))
  }

  /** What applying a list has done so far: `applied` patches, perhaps a failure, and whether the store has
  been written at all. */
  datatype Run = Run(applied: nat, mutations: seq<Mutation>, sync: Sync, committed: bool, error: Option<Error>)

  function RunPatches(c: Crypto, name: Bytes, ps: seq<SyncdPatch>, n: nat, start: Run, validateMACs: bool): (r: Run)
    requires n <= |ps|
  {
    if n == 0 then start
    else
      var r := RunPatches(c, name, ps, n - 1, start, validateMACs);
      if r.error.Some? then r
      else
        match ApplyPatch(c, name, ps[n - 1], r.sync, validateMACs)
        case Failure(e) => r.(error := Some(e))
        case Success((decoded, sync)) => Run(r.applied + 1, r.mutations + decoded, sync, true, None)
  }

  /** Before any patch: the snapshot, if there is one, has been applied, or has failed. */
  function StartOf(c: Crypto, list: PatchList, sync: Sync, validateMACs: bool): Run {
    match list.snapshot
    case None => Run(0, [], sync, false, None)
    case Some(ss) =>
      match ApplySnapshot(c, list.name, ss, sync, validateMACs)
      case Failure(e) => Run(0, [], sync, false, Some(e))
      case Success((decoded, sync')) => Run(0, decoded, sync', true, None)
  }

  function DecodeList(c: Crypto, list: PatchList, n: nat, sync: Sync, validateMACs: bool): Run
    requires n <= |list.patches|
  {
    RunPatches(c, list.name, list.patches, n, StartOf(c, list, sync, validateMACs), validateMACs)
  }

  // ---------- Building a patch ----------

  datatype MutationInfo = MutationInfo(index: seq<Bytes>, version: int, value: Bytes)

  function EncodeMutation(c: Crypto, keys: Keys, keyID: Bytes, info: MutationInfo, iv: Bytes): SyncdMutation {
    var indexBytes := c.marshalIndex(info.index);
    var content := c.marshal(SyncAction(indexBytes, info.value, info.version));
    var encrypted := iv + c.encryptCBC(keys.valueEncryption, iv, content);
    var valueMAC := ContentMAC(c, SET, encrypted, keyID, keys.valueMAC);
    SyncdMutation(SET, Record(c.hmac256(keys.index, indexBytes), encrypted + valueMAC, keyID))
  }

  function EncodeMutations(c: Crypto, keys: Keys, keyID: Bytes, infos: seq<MutationInfo>, ivs: seq<Bytes>): (r: seq<SyncdMutation>)
    requires |infos| == |ivs|
    ensures |r| == |infos|
  {
    seq(|infos|, i requires 0 <= i < |infos| => EncodeMutation(c, keys, keyID, infos[i], ivs[i]))
  }

  /** The value MACs that the stored index holds for the mutated indices, never looking inside the patch. */
  function RemovedFromStore(ms: seq<SyncdMutation>, n: nat, macs: MACs): seq<Bytes>
    requires n <= |ms|
  {
    if n == 0 then [] else RemovedFromStore(ms, n - 1, macs) + OptionSeq(Lookup(macs, IndexMAC(ms[n - 1])))
  }

  /** The patch as sent: the server stamps it with the version after `sync.state`. */
  function EncodedPatch(c: Crypto, keys: Keys, keyID: Bytes, name: Bytes, sync: Sync, ms: seq<SyncdMutation>): SyncdPatch {
    var hash := SubtractThenAddAll(c.expand, sync.state.hash, RemovedFromStore(ms, |ms|, sync.macs), Added(ms, |ms|));
    var version := (sync.state.version + 1) % TWO_64;
    var snapshotMAC := SnapshotMAC(c, HashState(version, hash), name, keys.snapshotMAC);
    var unsigned := SyncdPatch(version, ms, snapshotMAC, [], keyID);
    unsigned.(patchMAC := PatchMAC(c, unsigned, name, keys.patchMAC, version))
  }
}
