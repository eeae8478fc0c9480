/** What the MACs of app state patches let through: exactly the right ones, and one patch for each set of MACs. */
module AppStateIntegrity {
  import opened ByteStrings
  import opened LtHash
  import opened AppStateLedger
  import opened AppState

  // ---------- A wrong MAC is refused ----------

  /** An accepted patch with another patch MAC is refused for it. */
  lemma WrongPatchMAC(c: Crypto, name: Bytes, p: SyncdPatch, sync: Sync, x: Bytes)
    requires ApplyPatch(c, name, p, sync, true).Success? && x != p.patchMAC
    ensures ApplyPatch(c, name, p.(patchMAC := x), sync, true) == Failure(MismatchingPatchMAC)
  {
    hide DecodeMutations, HashPanics, HasShortBlob, SnapshotMAC, Stored;
    assert PatchMAC(c, p.(patchMAC := x), name, [], p.version) == PatchMAC(c, p, name, [], p.version);
  }

  /** With another snapshot MAC it is refused for that one. */
  lemma WrongSnapshotMAC(c: Crypto, name: Bytes, p: SyncdPatch, sync: Sync, x: Bytes)
    requires ApplyPatch(c, name, p, sync, true).Success? && x != p.snapshotMAC
    ensures ApplyPatch(c, name, p.(snapshotMAC := x), sync, true) == Failure(MismatchingLTHash)
  {
    hide DecodeMutations, HashPanics, HasShortBlob, SnapshotMAC, Stored, PatchMAC;
    assert PatchState(c, p.(snapshotMAC := x), sync) == PatchState(c, p, sync);
  }

  /** So is an accepted snapshot with another MAC. */
  lemma WrongMACOfSnapshot(c: Crypto, name: Bytes, ss: Snapshot, sync: Sync, x: Bytes)
    requires ApplySnapshot(c, name, ss, sync, true).Success? && x != ss.mac
    ensures ApplySnapshot(c, name, ss.(mac := x), sync, true) == Failure(MismatchingLTHash)
  {
    hide DecodeMutations, HasShortBlob, SnapshotMAC, Stored;
    assert SnapshotMutations(ss.(mac := x)) == SnapshotMutations(ss);
    assert SnapshotState(c, ss.(mac := x), sync) == SnapshotState(c, ss, sync);
  }

  /** The encrypted part of a value, in front of its MAC. */
  function Content(m: SyncdMutation): Bytes {
    var blob := m.record.blob;
    if |blob| < MAC_SIZE then [] else blob[..|blob| - MAC_SIZE]
  }

  function WithValueMAC(m: SyncdMutation, x: Bytes): SyncdMutation {
    m.(record := m.record.(blob := Content(m) + x))
  }

  lemma WrongValueMAC(c: Crypto, m: SyncdMutation, x: Bytes)
    requires DecodeMutation(c, m, true).Success? && |x| == MAC_SIZE && x != ValueMAC(m)
    ensures DecodeMutation(c, WithValueMAC(m, x), true) == Failure(MismatchingContentMAC)
  {
    hide ContentMAC;
    var blob := Content(m) + x;
    assert blob[..|blob| - MAC_SIZE] == Content(m) && blob[|blob| - MAC_SIZE..] == x;
  }

  /** Which mutations are refused before anything of them is decrypted, and how.  Slicing off the MAC or the IV panics
  when there is too little: for the IV only behind a content MAC that is right, if MACs are validated. */
  lemma RefusedUnopened(c: Crypto, m: SyncdMutation, validateMACs: bool)
    ensures var key := c.key(m.record.keyID); var r := DecodeMutation(c, m, validateMACs);
            var wrong := key.Some? && ContentMAC(c, m.operation, Content(m), m.record.keyID, key.value.valueMAC) != ValueMAC(m);
            && (r == Failure(KeyNotFound) <==> key.None?)
            && (r == Failure(MismatchingContentMAC) <==> !IsShort(m) && validateMACs && wrong)
            && (r == Failure(Panic) <==>
                key.Some? && (IsShort(m) || (|Content(m)| < IV_SIZE && !(validateMACs && wrong))))
  {
    hide ContentMAC, ValueMAC;
  }

  lemma WrongIndexMAC(c: Crypto, m: SyncdMutation, x: Bytes)
    requires DecodeMutation(c, m, true).Success? && x != IndexMAC(m)
    ensures DecodeMutation(c, m.(record := m.record.(indexMAC := x)), true) == Failure(MismatchingIndexMAC)
  {
    hide ContentMAC;
  }

  /** Without validation none of the four MACs is looked at. */
  lemma UncheckedMACs(c: Crypto, name: Bytes, p: SyncdPatch, sync: Sync, snapshotMAC: Bytes, patchMAC: Bytes)
    ensures ApplyPatch(c, name, p.(snapshotMAC := snapshotMAC, patchMAC := patchMAC), sync, false)
         == ApplyPatch(c, name, p, sync, false)
  {
    hide DecodeMutations, HashPanics, Stored, Added, Removed;
  }

  lemma UncheckedMutation(c: Crypto, m: SyncdMutation, indexMAC: Bytes, valueMAC: Bytes)
    requires !IsShort(m) && |valueMAC| == MAC_SIZE
    ensures var m' := WithValueMAC(m.(record := m.record.(indexMAC := indexMAC)), valueMAC);
            DecodeMutation(c, m', false).Success? <==> DecodeMutation(c, m, false).Success?
  {
    var m' := WithValueMAC(m.(record := m.record.(indexMAC := indexMAC)), valueMAC);
    var blob := m'.record.blob;
    assert blob[..|blob| - MAC_SIZE] == Content(m);
  }

  // ---------- What an accepted mutation has shown ----------

  /** The value carries the right MAC, and the index the MAC of what the value says its index is. */
  predicate Shown(c: Crypto, m: SyncdMutation, decoded: Mutation)
  {
    match c.key(m.record.keyID)
    case None => false
    case Some(keys) =>
      && !IsShort(m) && |Content(m)| >= IV_SIZE
      && ValueMAC(m) == ContentMAC(c, m.operation, Content(m), m.record.keyID, keys.valueMAC)
      && match c.decryptCBC(keys.valueEncryption, Content(m)[..IV_SIZE], Content(m)[IV_SIZE..])
         case None => false
         case Some(plaintext) => ShownAction(c, m, keys, c.unmarshal(plaintext), decoded)
  }

  predicate ShownAction(c: Crypto, m: SyncdMutation, keys: Keys, action: Option<SyncAction>, decoded: Mutation)
  {
    && action.Some? && IndexMAC(m) == c.hmac256(keys.index, action.value.index)
    && c.unmarshalIndex(action.value.index) == Some(decoded.index)
    && decoded.operation == m.operation && decoded.action == action.value.value
    && decoded.version == action.value.version && decoded.indexMAC == IndexMAC(m) && decoded.valueMAC == ValueMAC(m)
  }

  lemma DecodedIffShown(c: Crypto, m: SyncdMutation, decoded: Mutation)
    ensures DecodeMutation(c, m, true) == Success(decoded) <==> Shown(c, m, decoded)
  {
    hide ContentMAC;
  }

  lemma {:induction false} AllShown(c: Crypto, ms: seq<SyncdMutation>, n: nat, decoded: seq<Mutation>)
    requires n <= |ms|
    ensures DecodeMutations(c, ms, n, true) == Success(decoded)
            <==> |decoded| == n && forall i :: 0 <= i < n ==> Shown(c, ms[i], decoded[i])
  {
    hide DecodeMutation, Shown;
    if n == 0 {
    } else {
      if |decoded| > 0 {
        var init, last := decoded[..|decoded| - 1], decoded[|decoded| - 1];
        assert decoded == init + [last];
        AllShown(c, ms, n - 1, init);
        DecodedIffShown(c, ms[n - 1], last);
        if DecodeMutations(c, ms, n, true) == Success(decoded) {
          var before := DecodeMutations(c, ms, n - 1, true).value;
          assert (before + [DecodeMutation(c, ms[n - 1], true).value])[..|decoded| - 1] == before;
          assert before == init;
        }
      }
    }
  }

  /** A patch is accepted if and only if its key is known, the hash it leads to and its version carry its snapshot MAC,
  its value MACs and its version carry its patch MAC, and each mutation has shown its own two MACs. */
  lemma AcceptedIff(c: Crypto, name: Bytes, p: SyncdPatch, sync: Sync, decoded: seq<Mutation>)
    ensures ApplyPatch(c, name, p, sync, true)
            == Success((decoded, Sync(PatchState(c, p, sync), Stored(p.mutations, |p.mutations|, sync.macs))))
            <==> var key := c.key(p.keyID);
                 && key.Some?
                 && p.snapshotMAC == SnapshotMAC(c, PatchState(c, p, sync), name, key.value.snapshotMAC)
                 && p.patchMAC == PatchMAC(c, p, name, key.value.patchMAC, p.version)
                 && |decoded| == |p.mutations|
                 && forall i :: 0 <= i < |decoded| ==> Shown(c, p.mutations[i], decoded[i])
  {
    hide DecodeMutations, SnapshotMAC, PatchMAC, Stored, PatchState, Shown;
    AllShown(c, p.mutations, |p.mutations|, decoded);
    if |decoded| == |p.mutations| && forall i :: 0 <= i < |decoded| ==> Shown(c, p.mutations[i], decoded[i]) {
      ShownAreLong(c, p.mutations, decoded);
    }
  }

  lemma ShownAreLong(c: Crypto, ms: seq<SyncdMutation>, decoded: seq<Mutation>)
    requires |decoded| == |ms| && forall i :: 0 <= i < |decoded| ==> Shown(c, ms[i], decoded[i])
    ensures !HasShortBlob(ms) && !HashPanics(ms)
  {
    forall m | m in ms ensures !IsShort(m) {
      var i :| 0 <= i < |ms| && ms[i] == m;
      assert Shown(c, ms[i], decoded[i]);
    }
  }

  // ---------- One patch for each set of MACs ----------

  function Truncated(mac: Bytes): Bytes {
    if |mac| < MAC_SIZE then mac else mac[..MAC_SIZE]
  }

  /** What the MACs are taken of. */
  function SnapshotText(state: HashState, name: Bytes): Bytes {
    LaneBytes(state.hash) + BigEndian(state.version, 8) + name
  }

  function PatchText(p: SyncdPatch, name: Bytes): Bytes {
    p.snapshotMAC + ValueMACs(p.mutations, |p.mutations|) + BigEndian(p.version, 8) + name
  }

  function ContentText(operation: Operation, data: Bytes, keyID: Bytes): Bytes {
    [if operation == SET then 1 else 2] + keyID + data + BigEndian(|keyID| + 1, 8)
  }

  /** Two texts do not collide under a key. */
  predicate Apart256(c: Crypto, key: Bytes, x: Bytes, y: Bytes)
  {
    c.hmac256(key, x) == c.hmac256(key, y) ==> x == y
  }

  predicate Apart512(c: Crypto, key: Bytes, x: Bytes, y: Bytes)
  {
    Truncated(c.hmac512(key, x)) == Truncated(c.hmac512(key, y)) ==> x == y
  }

  lemma SameSuffix(a: Bytes, b: Bytes, x: Bytes, y: Bytes)
    requires a + b == x + y && |b| == |y|
    ensures a == x && b == y
  {
    assert (a + b)[|a|..] == b && (x + y)[|x|..] == y && (a + b)[..|a|] == a && (x + y)[..|x|] == x;
  }

  lemma SamePrefix(a: Bytes, b: Bytes, x: Bytes, y: Bytes)
    requires a + b == x + y && |a| == |x|
    ensures a == x && b == y
  {
    SameSuffix(a, b, x, y);
  }

  lemma EightBytes(m: nat, n: nat)
    requires m < TWO_64 && n < TWO_64 && BigEndian(m, 8) == BigEndian(n, 8)
    ensures m == n
  {
    hide BigEndian, FromBigEndian, Pow256;
    BigEndianInverse(m, 8);
    BigEndianInverse(n, 8);
    Pow256Eight();
  }

  lemma Pow256Eight()
    ensures Pow256(8) == TWO_64
  {
    assert Pow256(2) == 0x1_0000 && Pow256(4) == 0x1_0000_0000 && Pow256(6) == 0x1_0000_0000_0000;
  }

  lemma SnapshotMACBinds(c: Crypto, a: HashState, name: Bytes, b: HashState, name': Bytes, key: Bytes)
    requires Apart256(c, key, SnapshotText(a, name), SnapshotText(b, name')) && a.version < TWO_64 && b.version < TWO_64
    requires SnapshotMAC(c, a, name, key) == SnapshotMAC(c, b, name', key)
    ensures a == b && name == name'
  {
    hide BigEndian, LaneBytes, LanesOf;
    SamePrefix(LaneBytes(a.hash) + BigEndian(a.version, 8), name, LaneBytes(b.hash) + BigEndian(b.version, 8), name');
    SamePrefix(LaneBytes(a.hash), BigEndian(a.version, 8), LaneBytes(b.hash), BigEndian(b.version, 8));
    EightBytes(a.version, b.version);
    LaneBytesInverse(a.hash);
    LaneBytesInverse(b.hash);
  }

  lemma ContentMACBinds(c: Crypto, op: Operation, data: Bytes, keyID: Bytes, op': Operation, data': Bytes, keyID': Bytes,
                        key: Bytes)
    requires Apart512(c, key, ContentText(op, data, keyID), ContentText(op', data', keyID'))
    requires |keyID| + 1 < TWO_64 && |keyID'| + 1 < TWO_64
    requires ContentMAC(c, op, data, keyID, key) == ContentMAC(c, op', data', keyID', key)
    ensures op == op' && data == data' && keyID == keyID'
  {
    hide BigEndian;
    var a, b := [if op == SET then 1 else 2], [if op' == SET then 1 else 2];
    var n, n' := BigEndian(|keyID| + 1, 8), BigEndian(|keyID'| + 1, 8);
    assert Truncated(c.hmac512(key, a + keyID + data + n)) == Truncated(c.hmac512(key, b + keyID' + data' + n'));
    SameSuffix(a + keyID + data, n, b + keyID' + data', n');
    EightBytes(|keyID| + 1, |keyID'| + 1);
    SamePrefix(a + keyID, data, b + keyID', data');
    SamePrefix(a, keyID, b, keyID');
    assert a[0] == b[0];
  }

  lemma {:induction false} ValueMACsLength(ms: seq<SyncdMutation>, n: nat)
    requires n <= |ms| && !HasShortBlob(ms)
    ensures |ValueMACs(ms, n)| == MAC_SIZE * n
  {
    hide ValueMAC, HasShortBlob;
    if n > 0 {
      ValueMACsLength(ms, n - 1);
      ValueMACLength(ms, n - 1);
    }
  }

  lemma {:induction false} ValueMACsBind(a: seq<SyncdMutation>, b: seq<SyncdMutation>, n: nat)
    requires n <= |a| && n <= |b| && !HasShortBlob(a) && !HasShortBlob(b) && ValueMACs(a, n) == ValueMACs(b, n)
    ensures forall i :: 0 <= i < n ==> ValueMAC(a[i]) == ValueMAC(b[i])
  {
    hide ValueMAC;
    if n > 0 {
      ValueMACLength(a, n - 1);
      ValueMACLength(b, n - 1);
      SameSuffix(ValueMACs(a, n - 1), ValueMAC(a[n - 1]), ValueMACs(b, n - 1), ValueMAC(b[n - 1]));
      ValueMACsBind(a, b, n - 1);
    }
  }

  lemma ValueMACLength(ms: seq<SyncdMutation>, i: nat)
    requires i < |ms| && !HasShortBlob(ms)
    ensures |ValueMAC(ms[i])| == MAC_SIZE
  {
    assert ms[i] in ms;
  }

  lemma PatchMACBinds(c: Crypto, p: SyncdPatch, q: SyncdPatch, name: Bytes, key: Bytes)
    requires Apart256(c, key, PatchText(p, name), PatchText(q, name))
    requires !HasShortBlob(p.mutations) && !HasShortBlob(q.mutations)
    requires p.snapshotMAC == q.snapshotMAC && p.version < TWO_64 && q.version < TWO_64
    requires PatchMAC(c, p, name, key, p.version) == PatchMAC(c, q, name, key, q.version)
    ensures p.version == q.version && |p.mutations| == |q.mutations|
    ensures forall i :: 0 <= i < |p.mutations| ==> ValueMAC(p.mutations[i]) == ValueMAC(q.mutations[i])
  {
    hide BigEndian, ValueMACs, ValueMAC, HasShortBlob;
    var v, w := ValueMACs(p.mutations, |p.mutations|), ValueMACs(q.mutations, |q.mutations|);
    SameSuffix(p.snapshotMAC + v + BigEndian(p.version, 8), name, q.snapshotMAC + w + BigEndian(q.version, 8), name);
    SameSuffix(p.snapshotMAC + v, BigEndian(p.version, 8), q.snapshotMAC + w, BigEndian(q.version, 8));
    EightBytes(p.version, q.version);
    SamePrefix(p.snapshotMAC, v, q.snapshotMAC, w);
    ValueMACsLength(p.mutations, |p.mutations|);
    ValueMACsLength(q.mutations, |q.mutations|);
    ValueMACsBind(p.mutations, q.mutations, |p.mutations|);
  }

  predicate ContentApart(c: Crypto, m: SyncdMutation, m': SyncdMutation)
  {
    match c.key(m.record.keyID)
    case None => true
    case Some(keys) =>
      Apart512(c, keys.valueMAC, ContentText(m.operation, Content(m), m.record.keyID),
               ContentText(m'.operation, Content(m'), m'.record.keyID))
  }

  /** Two mutations under one key that have shown the same value MAC are the same. */
  lemma ShownBinds(c: Crypto, m: SyncdMutation, decoded: Mutation, m': SyncdMutation, decoded': Mutation)
    requires Shown(c, m, decoded) && Shown(c, m', decoded') && ContentApart(c, m, m')
    requires m.record.keyID == m'.record.keyID && |m.record.keyID| + 1 < TWO_64 && ValueMAC(m) == ValueMAC(m')
    ensures m == m' && decoded == decoded'
  {
    hide ContentMAC, ContentText, Apart512;
    ContentMACBinds(c, m.operation, Content(m), m.record.keyID, m'.operation, Content(m'), m'.record.keyID,
                    c.key(m.record.keyID).value.valueMAC);
    assert m.record.blob == Content(m) + ValueMAC(m) && m'.record.blob == Content(m') + ValueMAC(m');
  }

  predicate SameKeys(p: SyncdPatch, q: SyncdPatch)
  {
    && p.keyID == q.keyID
    && forall i :: 0 <= i < |p.mutations| && i < |q.mutations| ==>
         p.mutations[i].record.keyID == q.mutations[i].record.keyID && |p.mutations[i].record.keyID| + 1 < TWO_64
  }

  /** None of the texts that the MACs of the two patches are taken of collide. */
  predicate NoCollision(c: Crypto, name: Bytes, p: SyncdPatch, sync: Sync, name': Bytes, q: SyncdPatch, sync': Sync)
  {
    match c.key(p.keyID)
    case None => true
    case Some(keys) =>
      && Apart256(c, keys.snapshotMAC, SnapshotText(PatchState(c, p, sync), name), SnapshotText(PatchState(c, q, sync'), name'))
      && Apart256(c, keys.patchMAC, PatchText(p, name), PatchText(q, name'))
      && forall i :: 0 <= i < |p.mutations| && i < |q.mutations| ==> ContentApart(c, p.mutations[i], q.mutations[i])
  }

  /** Unless MACs collide, two patches under the same keys that are accepted from any states, under any collection names,
  with the same snapshot MAC and the same patch MAC are the same patch for the same collection, and lead to the same
  hash: a changed version, name, order, operation, value or index under unchanged MACs is refused. */
  lemma SameMACsSamePatch(c: Crypto, name: Bytes, p: SyncdPatch, sync: Sync, name': Bytes, q: SyncdPatch, sync': Sync)
    requires SameKeys(p, q) && p.version < TWO_64 && q.version < TWO_64 && NoCollision(c, name, p, sync, name', q, sync')
    requires ApplyPatch(c, name, p, sync, true).Success? && ApplyPatch(c, name', q, sync', true).Success?
    requires p.snapshotMAC == q.snapshotMAC && p.patchMAC == q.patchMAC
    ensures p == q && name == name' && PatchState(c, p, sync) == PatchState(c, q, sync')
  {
    hide SnapshotMAC, PatchMAC, Stored, Shown, ContentApart, ValueMAC, ApplyPatch, PatchState, SnapshotText, PatchText,
         Apart256;
    var key, decoded := Evidence(c, name, p, sync);
    var key', decoded' := Evidence(c, name', q, sync');
    StateVersion(c, p, sync);
    StateVersion(c, q, sync');
    SnapshotMACBinds(c, PatchState(c, p, sync), name, PatchState(c, q, sync'), name', key.snapshotMAC);
    ShownAreLong(c, p.mutations, decoded);
    ShownAreLong(c, q.mutations, decoded');
    PatchMACBinds(c, p, q, name, key.patchMAC);
    forall i | 0 <= i < |p.mutations| ensures p.mutations[i] == q.mutations[i] {
      ShownBinds(c, p.mutations[i], decoded[i], q.mutations[i], decoded'[i]);
    }
    assert p.mutations == q.mutations;
  }

  lemma StateVersion(c: Crypto, p: SyncdPatch, sync: Sync)
    ensures PatchState(c, p, sync).version == p.version
  {
  }

  lemma Evidence(c: Crypto, name: Bytes, p: SyncdPatch, sync: Sync) returns (key: Keys, decoded: seq<Mutation>)
    requires ApplyPatch(c, name, p, sync, true).Success?
    ensures c.key(p.keyID) == Some(key)
    ensures p.snapshotMAC == SnapshotMAC(c, PatchState(c, p, sync), name, key.snapshotMAC)
    ensures p.patchMAC == PatchMAC(c, p, name, key.patchMAC, p.version)
    ensures |decoded| == |p.mutations| && forall i :: 0 <= i < |decoded| ==> Shown(c, p.mutations[i], decoded[i])
  {
    hide SnapshotMAC, PatchMAC, Shown, DecodeMutations, PatchState, HashPanics, HasShortBlob, Stored;
    decoded := ApplyPatch(c, name, p, sync, true).value.0;
    AcceptedIff(c, name, p, sync, decoded);
    key := c.key(p.keyID).value;
  }

  // ---------- What a list returns ----------

  /** What the patches decode to, each on its own. */
  function Decodings(c: Crypto, ps: seq<SyncdPatch>, n: nat, validateMACs: bool): seq<Mutation>
    requires n <= |ps|
  {
    if n == 0 then []
    else
      Decodings(c, ps, n - 1, validateMACs)
      + match DecodeMutations(c, ps[n - 1].mutations, |ps[n - 1].mutations|, validateMACs)
        case Failure(_) => []
        case Success(decoded) => decoded
  }

  /** A list that is applied returns the mutations of its snapshot and then of its patches, all of them, in order; and
  its version is that of the last patch, or of the snapshot. */
  lemma {:induction false} AllMutationsReturned(c: Crypto, list: PatchList, n: nat, sync: Sync, validateMACs: bool)
    requires n <= |list.patches| && DecodeList(c, list, n, sync, validateMACs).error.None?
    ensures var run := DecodeList(c, list, n, sync, validateMACs);
            && run.mutations == SnapshotDecodings(c, list, validateMACs) + Decodings(c, list.patches, n, validateMACs)
            && run.sync.state.version == if n > 0 then list.patches[n - 1].version
                                         else if list.snapshot.Some? then list.snapshot.value.version
                                         else sync.state.version
  {
    hide DecodeMutations, HashPanics, HasShortBlob, ValidatePatch, ValidateSnapshotMAC, Stored, Added, Removed,
         SubtractThenAddAll;
    if n == 0 {
      assert SnapshotDecodings(c, list, validateMACs) + [] == SnapshotDecodings(c, list, validateMACs);
    } else {
      AllMutationsReturned(c, list, n - 1, sync, validateMACs);
    }
  }

  function SnapshotDecodings(c: Crypto, list: PatchList, validateMACs: bool): seq<Mutation> {
    match list.snapshot
    case None => []
    case Some(ss) =>
      match DecodeMutations(c, SnapshotMutations(ss), |ss.records|, validateMACs)
      case Failure(_) => []
      case Success(decoded) => decoded
  }
}
