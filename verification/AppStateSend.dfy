/** Sending a patch to a shared collection: conflicts are applied and the patch is built once more. */
module AppStateSend {
  import opened ByteStrings
  import opened AppStateLedger
  import opened AppState
  import opened AppStateProcessor
  import opened AppStateProofs

  // ---------- The shared collection ----------

  /** What a replica holds after the first k patches of the log. */
  function SyncAt(c: Crypto, name: Bytes, log: seq<SyncdPatch>, k: nat): Sync
    requires k <= |log|
  {
    if k == 0 then EmptySync()
    else
      var before := SyncAt(c, name, log, k - 1);
      match ApplyPatch(c, name, log[k - 1], before, true)
      case Failure(_) => before
      case Success((_, after)) => after
  }

  /** Every patch of the log is the next version and applies where it stands. */
  predicate Sound(c: Crypto, name: Bytes, log: seq<SyncdPatch>)
  {
    && |log| < TWO_64
    && forall k: nat | k < |log| ::
         log[k].version == k + 1 && ApplyPatch(c, name, log[k], SyncAt(c, name, log, k), true).Success?
  }

  function Since(name: Bytes, log: seq<SyncdPatch>, k: nat): PatchList
    requires k <= |log|
  {
    PatchList(name, None, log[k..])
  }

  lemma {:induction false} SyncAtPrefix(c: Crypto, name: Bytes, log: seq<SyncdPatch>, more: seq<SyncdPatch>, k: nat)
    requires k <= |log|
    ensures SyncAt(c, name, log + more, k) == SyncAt(c, name, log, k)
  {
    hide ApplyPatch;
    if k > 0 {
      SyncAtPrefix(c, name, log, more, k - 1);
    }
  }

  lemma AppliedVersion(c: Crypto, name: Bytes, p: SyncdPatch, sync: Sync)
    requires ApplyPatch(c, name, p, sync, true).Success?
    ensures ApplyPatch(c, name, p, sync, true).value.1.state.version == p.version
  {
    hide DecodeMutations, ValidatePatch, HasShortBlob, Stored;
  }

  lemma {:induction false} VersionAt(c: Crypto, name: Bytes, log: seq<SyncdPatch>, k: nat)
    requires k <= |log| && Sound(c, name, log)
    ensures SyncAt(c, name, log, k).state.version == k
  {
    hide ApplyPatch;
    if k > 0 {
      AppliedVersion(c, name, log[k - 1], SyncAt(c, name, log, k - 1));
    }
  }

  /** A replica that is behind catches up by decoding what it lacks. */
  lemma {:induction false} CatchesUp(c: Crypto, name: Bytes, log: seq<SyncdPatch>, k: nat, n: nat)
    requires k + n <= |log| && Sound(c, name, log)
    ensures var run := DecodeList(c, Since(name, log, k), n, SyncAt(c, name, log, k), true);
            run.error.None? && run.sync == SyncAt(c, name, log, k + n)
  {
    hide ApplyPatch, Sound;
    if n > 0 {
      CatchesUp(c, name, log, k, n - 1);
      assert log[k..][n - 1] == log[k + n - 1];
      SoundStep(c, name, log, k + n - 1);
    }
  }

  lemma SoundStep(c: Crypto, name: Bytes, log: seq<SyncdPatch>, k: nat)
    requires k < |log| && Sound(c, name, log)
    ensures ApplyPatch(c, name, log[k], SyncAt(c, name, log, k), true)
         == Success((ApplyPatch(c, name, log[k], SyncAt(c, name, log, k), true).value.0, SyncAt(c, name, log, k + 1)))
  {
    hide ApplyPatch;
  }

  lemma Extends(c: Crypto, name: Bytes, log: seq<SyncdPatch>, p: SyncdPatch)
    requires Sound(c, name, log) && |log| + 1 < TWO_64 && p.version == |log| + 1
    requires ApplyPatch(c, name, p, SyncAt(c, name, log, |log|), true).Success?
    ensures Sound(c, name, log + [p])
    ensures SyncAt(c, name, log + [p], |log| + 1)
         == ApplyPatch(c, name, p, SyncAt(c, name, log, |log|), true).value.1
  {
    hide ApplyPatch, SyncAt;
    SyncAtPrefix(c, name, log, [p], |log|);
    SyncAtLast(c, name, log + [p]);
    forall k: nat | k < |log + [p]|
      ensures (log + [p])[k].version == k + 1
      ensures ApplyPatch(c, name, (log + [p])[k], SyncAt(c, name, log + [p], k), true).Success?
    {
      SyncAtPrefix(c, name, log, [p], k);
    }
  }

  lemma SyncAtLast(c: Crypto, name: Bytes, log: seq<SyncdPatch>)
    requires log != []
    requires ApplyPatch(c, name, log[|log| - 1], SyncAt(c, name, log, |log| - 1), true).Success?
    ensures SyncAt(c, name, log, |log|)
         == ApplyPatch(c, name, log[|log| - 1], SyncAt(c, name, log, |log| - 1), true).value.1
  {
    hide ApplyPatch;
  }

  // ---------- Sending ----------

  /** What is sent: the mutations, and the IVs drawn when the patch is built. */
  datatype Request = Request(keyID: Bytes, name: Bytes, infos: seq<MutationInfo>, ivs: seq<Bytes>)

  datatype Outcome = Outcome(log: seq<SyncdPatch>, stored: Sync, ok: bool)

  function Built(c: Crypto, keys: Keys, req: Request, stored: Sync): SyncdPatch
    requires |req.infos| == |req.ivs|
  {
    EncodedPatch(c, keys, req.keyID, req.name, stored, EncodeMutations(c, keys, req.keyID, req.infos, req.ivs))
  }

  /** The server takes a patch built at its own version, and the sender then fetches it back. */
  function Accepted(c: Crypto, keys: Keys, req: Request, log: seq<SyncdPatch>, stored: Sync): Outcome
    requires |req.infos| == |req.ivs| && stored.state.version <= |log|
  {
    var log' := log + [Built(c, keys, req, stored)];
    var list := Since(req.name, log', stored.state.version);
    var run := DecodeList(c, list, |list.patches|, stored, true);
    Outcome(log', run.sync, run.error.None?)
  }

  /** One attempt; `None` is a conflict.  A version the server has not reached is refused. */
  function Attempt(c: Crypto, keys: Keys, req: Request, log: seq<SyncdPatch>, stored: Sync): Option<Outcome>
    requires |req.infos| == |req.ivs|
  {
    if HasShortBlob(EncodeMutations(c, keys, req.keyID, req.infos, req.ivs)) || stored.state.version > |log| then
      Some(Outcome(log, stored, false))
    else if stored.state.version == |log| then Some(Accepted(c, keys, req, log, stored))
    else None
  }

  /** With a retry after a conflict, for which new IVs are drawn.  Meanwhile others may have sent `interim`. */
  function Send(c: Crypto, req: Request, ivs: seq<Bytes>, log: seq<SyncdPatch>, interim: seq<SyncdPatch>, stored: Sync): Outcome
    requires |req.infos| == |req.ivs| == |ivs|
  {
    match c.key(req.keyID)
    case None => Outcome(log, stored, false)
    case Some(keys) =>
      match Attempt(c, keys, req, log, stored)
      case Some(outcome) => outcome
      case None =>
        var list := Since(req.name, log, stored.state.version);
        var run := DecodeList(c, list, |list.patches|, stored, true);
        if run.error.Some? then Outcome(log + interim, run.sync, false)
        else
          match Attempt(c, keys, req.(ivs := ivs), log + interim, run.sync)
          case Some(outcome) => outcome
          case None => Outcome(log + interim, run.sync, false)
  }

  // ---------- What sending guarantees ----------

  ghost predicate Ready(c: Crypto, keys: Keys, req: Request)
  {
    && Sendable(c, req.infos, req.ivs) && Lawful(c) && c.key(req.keyID) == Some(keys)
    && DistinctIndices(EncodeMutations(c, keys, req.keyID, req.infos, req.ivs))
  }

  lemma NoShortBlob(c: Crypto, keys: Keys, req: Request)
    requires Ready(c, keys, req)
    ensures !HasShortBlob(EncodeMutations(c, keys, req.keyID, req.infos, req.ivs))
  {
    hide EncodeMutations, DecodeMutations, Lawful, Sendable, DistinctIndices;
    KeyOf(c, keys, req);
    EncodedMutationsDecode(c, keys, req.keyID, req.infos, req.ivs, |req.infos|);
  }

  lemma BuiltVersion(c: Crypto, keys: Keys, req: Request, stored: Sync)
    requires |req.infos| == |req.ivs| && stored.state.version + 1 < TWO_64
    ensures Built(c, keys, req, stored).version == stored.state.version + 1
  {
  }

  /** An up-to-date sender succeeds, and holds what the longer log says. */
  lemma UpToDateSucceeds(c: Crypto, keys: Keys, req: Request, log: seq<SyncdPatch>)
    requires Ready(c, keys, req) && Sound(c, req.name, log) && |log| + 1 < TWO_64
    ensures var stored := SyncAt(c, req.name, log, |log|);
            var log' := log + [Built(c, keys, req, stored)];
            && Sound(c, req.name, log')
            && Attempt(c, keys, req, log, stored) == Some(Outcome(log', SyncAt(c, req.name, log', |log'|), true))
  {
    hide ApplyPatch, HasShortBlob, DecodeList, Sound, SyncAt, EncodedPatch, EncodeMutations, DistinctIndices, Sendable,
         Lawful;
    KeyOf(c, keys, req);
    var stored := SyncAt(c, req.name, log, |log|);
    var p := Built(c, keys, req, stored);
    NoShortBlob(c, keys, req);
    VersionAt(c, req.name, log, |log|);
    BuiltVersion(c, keys, req, stored);
    AcceptsOwnPatch(c, keys, req.keyID, req.name, stored, req.infos, req.ivs);
    Extends(c, req.name, log, p);
    SyncAtPrefix(c, req.name, log, [p], |log|);
    CatchesUp(c, req.name, log + [p], |log|, 1);
  }

  /** A sender at any point of the log, and others who may send while it retries: sending succeeds if and only if the
  sender was up to date or nothing came in between.  On success the log has grown by its patch, built where the log
  stood; either way the log stays sound, and the sender holds exactly what its length of the log says. */
  lemma SendConverges(c: Crypto, keys: Keys, req: Request, ivs: seq<Bytes>, log: seq<SyncdPatch>,
                      interim: seq<SyncdPatch>, k: nat)
    requires Ready(c, keys, req) && Ready(c, keys, req.(ivs := ivs)) && k <= |log|
    requires Sound(c, req.name, log) && Sound(c, req.name, log + interim) && |log| + 1 < TWO_64
    ensures var stored := SyncAt(c, req.name, log, k); var current := SyncAt(c, req.name, log, |log|);
            var out := Send(c, req, ivs, log, interim, stored);
            && (out.ok <==> k == |log| || interim == [])
            && (out.ok ==> out.log == log + [Built(c, keys, if k == |log| then req else req.(ivs := ivs), current)])
            && (out.ok ==> out.stored == SyncAt(c, req.name, out.log, |out.log|))
            && (!out.ok ==> out.log == log + interim && out.stored == current)
            && Sound(c, req.name, out.log)
  {
    hide ApplyPatch, DecodeList, Sound, SyncAt, Built, Ready, Attempt;
    var stored, again := SyncAt(c, req.name, log, k), req.(ivs := ivs);
    KeyOf(c, keys, req);
    VersionAt(c, req.name, log, k);
    if k == |log| {
      UpToDateSucceeds(c, keys, req, log);
    } else {
      NotYet(c, keys, req, log, stored);
      CatchesUp(c, req.name, log, k, |log| - k);
      if interim == [] {
        assert log + interim == log;
        UpToDateSucceeds(c, keys, again, log);
      } else {
        VersionAt(c, req.name, log, |log|);
        NotYet(c, keys, again, log + interim, SyncAt(c, req.name, log, |log|));
      }
    }
  }

  lemma KeyOf(c: Crypto, keys: Keys, req: Request)
    requires Ready(c, keys, req)
    ensures c.key(req.keyID) == Some(keys) && |req.infos| == |req.ivs|
  {
  }

  lemma NotYet(c: Crypto, keys: Keys, req: Request, log: seq<SyncdPatch>, stored: Sync)
    requires Ready(c, keys, req) && stored.state.version < |log|
    ensures Attempt(c, keys, req, log, stored) == None
  {
    hide HasShortBlob, Ready;
    KeyOf(c, keys, req);
    NoShortBlob(c, keys, req);
  }

  // ---------- The code ----------

  /** What the server answers: a patch built too early comes with the patches that are missing. */
  datatype Answer = Taken | Conflict(list: PatchList) | Refused

  class Server {
    var log: seq<SyncdPatch>

    constructor ()
      ensures log == []
    {
      log := [];
    }

    method Push(name: Bytes, version: nat, patch: SyncdPatch) returns (answer: Answer)
      modifies this
      ensures log == if version == old(|log|) then old(log) + [patch] else old(log)
      ensures answer == if version == old(|log|) then Taken
                        else if version < old(|log|) then Conflict(Since(name, old(log), version)) else Refused
    {
      if version > |log| {
        return Refused;
      }
      if version < |log| {
        return Conflict(PatchList(name, None, log[version..]));
      }
      log := log + [patch];
      return Taken;
    }
  }

  /** One call of the sending function: a conflict is handed back to be applied. */
  method SendOnce(proc: Processor, server: Server, req: Request) returns (ok: bool, conflict: Option<PatchList>)
    requires |req.infos| == |req.ivs|
    modifies proc.store, server
    ensures match proc.c.key(req.keyID)
            case None =>
              !ok && conflict == None && server.log == old(server.log) && proc.store.Content() == old(proc.store.Content())
            case Some(keys) =>
              match Attempt(proc.c, keys, req, old(server.log), old(proc.store.Content()))
              case Some(outcome) => conflict == None && Outcome(server.log, proc.store.Content(), ok) == outcome
              case None =>
                && !ok && old(proc.store.version) <= old(|server.log|)
                && conflict == Some(Since(req.name, old(server.log), old(proc.store.version)))
                && server.log == old(server.log) && proc.store.Content() == old(proc.store.Content())
  {
    hide EncodedPatch, EncodeMutations, HasShortBlob, DecodeList;
    var store := proc.store;
    var version, state := store.version, HashState(store.version, store.hash);
    var patch := proc.EncodePatch(req.keyID, state, req.name, req.infos, req.ivs);
    if patch.Failure? {
      return false, None;
    }
    var answer := server.Push(req.name, version, patch.value);
    if answer.Refused? {
      return false, None;
    }
    if answer.Conflict? {
      return false, Some(answer.list);
    }
    conflict := None;
    var list := PatchList(req.name, None, server.log[version..]);
    Uncommitted(proc.c, list, store.Content(), true);
    var fetched := proc.DecodePatches(list, state, true);
    ok := fetched.Success?;
  }

  /** `sendAppState` with its retry, while others send `interim` between the conflict and the second attempt. */
  method SendAppState(proc: Processor, server: Server, req: Request, ivs: seq<Bytes>, interim: seq<SyncdPatch>)
    returns (ok: bool)
    requires |req.infos| == |req.ivs| == |ivs|
    modifies proc.store, server
    ensures Outcome(server.log, proc.store.Content(), ok)
         == Send(proc.c, req, ivs, old(server.log), interim, old(proc.store.Content()))
  {
    hide DecodeList, Attempt;
    ghost var before := proc.store.Content();
    var conflict;
    ok, conflict := SendOnce(proc, server, req);
    if conflict.None? {
      return;
    }
    server.log := server.log + interim;
    var list := conflict.value;
    Uncommitted(proc.c, list, before, true);
    var applied := proc.DecodePatches(list, HashState(proc.store.version, proc.store.hash), true);
    if applied.Failure? {
      return false;
    }
    ok, conflict := SendOnce(proc, server, req.(ivs := ivs));
    if conflict.Some? {
      ok := false;
    }
  }
}
