/** The buffer of decrypted events, over runs with crashes, handler failures and redeliveries.

A ciphertext advances the ratchet when it is decrypted, so it must not be decrypted again; the buffer keeps its
plaintext until a handler has seen it.  A row whose plaintext is NULL says that the event is done. */
module EventBuffer {
  import opened ByteStrings
  import opened Padding

  /** `OldCounter` is the error that is passed over; any other error ends the stanza.  A nil plaintext is `None`. */
  datatype Decrypted = Plain(ratchet: Bytes, raw: Option<Bytes>) | OldCounter | Refused

  datatype Parsed = Dispatch | NoDispatch | Failed

  /** The parts that are not modelled, as functions: the hash, the ratchet, and whether a plaintext of a version
  parses and has an event to dispatch. */
  datatype World = World(hash: Bytes -> Bytes, decrypt: (Bytes, Bytes) -> Decrypted, parse: (Bytes, int) -> Parsed)

  datatype Event =
    | Committed(hash: Bytes, ciphertext: Bytes, raw: Option<Bytes>)
    | Handled(hash: Bytes, seen: Bytes, ok: bool)
    | Cleared(hash: Bytes)
    | Expired(hash: Bytes)

  datatype State = State(buffer: map<Bytes, Option<Bytes>>, ratchet: Bytes, log: seq<Event>)

  /** Where a delivery goes wrong. */
  datatype Luck = Luck(getFails: bool, putFails: bool, commitFails: bool, crashDecrypted: bool,
                       handlerFails: bool, crashHandled: bool, clearFails: bool)

  const NO_TROUBLE := Luck(false, false, false, false, false, false, false)

  datatype Child = Child(ciphertext: Bytes, version: int, luck: Luck)

  datatype Action = Deliver(child: Child) | Expire(hash: Bytes)

  datatype Fetched = Got(raw: Option<Bytes>) | Skipped | Stopped

  function Value(raw: Option<Bytes>): Bytes {
    match raw
    case None => []
    case Some(bytes) => bytes
  }

  // ---------- One delivery ----------

  /** `bufferedDecrypt` with the buffer on. */
  function Fetch(w: World, s: State, child: Child): (State, Fetched)
  {
    var h, c, luck := w.hash(child.ciphertext), child.ciphertext, child.luck;
    if luck.getFails then (s, Stopped)
    else if h in s.buffer then
      (s, if s.buffer[h].None? then Skipped else Got(s.buffer[h]))
    else
      match w.decrypt(s.ratchet, c)
      case OldCounter => (s, Skipped)
      case Refused => (s, Stopped)
      case Plain(ratchet, raw) =>
        if luck.putFails || luck.commitFails then (s, Stopped)
        else (State(s.buffer[h := raw], ratchet, s.log + [Committed(h, c, raw)]), Got(raw))
  }

  predicate Dispatches(w: World, text: Bytes, version: int)
  {
    (version == 2 || version == 3) && w.parse(text, version).Dispatch?
  }

  /** What the tail of `decryptMessages` does with a plaintext: the state, and whether the stanza goes on. */
  function Finish(w: World, s: State, child: Child, raw: Bytes): (State, bool)
  {
    var h, luck := w.hash(child.ciphertext), child.luck;
    match Unpad(raw, child.version)
    case None => (s, false)
    case Some(text) =>
      if child.version == 2 && w.parse(text, 2).Failed? then (s, true)
      else
        var t := if Dispatches(w, text, child.version)
                 then s.(log := s.log + [Handled(h, raw, !luck.handlerFails)]) else s;
        if Dispatches(w, text, child.version) && luck.handlerFails then (t, false)
        else if luck.crashHandled then (t, false)
        else if luck.clearFails || h !in t.buffer then (t, true)
        else (t.(buffer := t.buffer[h := None], log := t.log + [Cleared(h)]), true)
  }

  function DeliverNext(w: World, s: State, child: Child): (State, bool)
  {
    match Fetch(w, s, child)
    case (t, Stopped) => (t, false)
    case (t, Skipped) => (t, true)
    case (t, Got(raw)) => if child.luck.crashDecrypted then (t, false) else Finish(w, t, child, Value(raw))
  }

  /** A row too old to be redelivered is deleted. */
  function ExpireNext(s: State, h: Bytes): State {
    s.(buffer := s.buffer - {h}, log := s.log + [Expired(h)])
  }

  function Next(w: World, s: State, action: Action): State {
    match action
    case Deliver(child) => DeliverNext(w, s, child).0
    case Expire(h) => ExpireNext(s, h)
  }

  function Run(w: World, s: State, actions: seq<Action>): State {
    if actions == [] then s else Next(w, Run(w, s, actions[..|actions| - 1]), actions[|actions| - 1])
  }

  function Start(ratchet: Bytes): State {
    State(map[], ratchet, [])
  }

  // ---------- The life of one ciphertext ----------

  /** What the log says of a hash since its row last expired. */
  function Recent(log: seq<Event>, h: Bytes): seq<Event> {
    if log == [] then []
    else
      var e, before := log[|log| - 1], Recent(log[..|log| - 1], h);
      if e.hash != h then before else if e.Expired? then [] else before + [e]
  }

  /** Calls of the handler with one plaintext. */
  predicate Attempts(events: seq<Event>, raw: Bytes)
  {
    forall e | e in events :: e.Handled? && e.seen == raw
  }

  predicate Opens(events: seq<Event>, raw: Option<Bytes>)
  {
    |events| >= 1 && events[0].Committed? && events[0].raw == raw
  }

  predicate Open(events: seq<Event>, raw: Option<Bytes>)
  {
    Opens(events, raw) && Attempts(events[1..], Value(raw))
  }

  predicate Closed(events: seq<Event>, raw: Option<Bytes>)
  {
    && |events| >= 2 && Opens(events, raw)
    && events[|events| - 1].Cleared? && Attempts(events[1..|events| - 1], Value(raw))
  }

  /** Nothing; or one commit and then calls with that plaintext; and after a clear nothing more. */
  predicate Lifecycle(events: seq<Event>, row: Option<Option<Bytes>>)
  {
    match row
    case None => events == []
    case Some(Some(raw)) => Open(events, Some(raw))
    case Some(None) => Open(events, None) || (|events| >= 1 && events[0].Committed? && Closed(events, events[0].raw))
  }

  function Row(s: State, h: Bytes): Option<Option<Bytes>> {
    if h in s.buffer then Some(s.buffer[h]) else None
  }

  predicate Alive(s: State, h: Bytes)
  {
    Lifecycle(Recent(s.log, h), Row(s, h))
  }

  lemma RecentAppend(log: seq<Event>, e: Event, h: Bytes)
    ensures Recent(log + [e], h)
         == if e.hash != h then Recent(log, h) else if e.Expired? then [] else Recent(log, h) + [e]
  {
    assert (log + [e])[..|log|] == log;
  }

  lemma AttemptsMore(events: seq<Event>, raw: Option<Bytes>, e: Event)
    requires Open(events, raw) && e.Handled? && e.seen == Value(raw)
    ensures Open(events + [e], raw)
  {
    assert (events + [e])[1..] == events[1..] + [e];
  }

  lemma ClearCloses(events: seq<Event>, raw: Option<Bytes>, e: Event)
    requires Open(events, raw) && e.Cleared?
    ensures Closed(events + [e], raw)
  {
    assert (events + [e])[1..|events|] == events[1..];
  }

  lemma CommitOpens(e: Event)
    requires e.Committed?
    ensures Open([e], e.raw)
  {
  }

  /** After a fetch that got a plaintext, that plaintext is the one committed, and nothing was cleared. */
  lemma FetchKeeps(w: World, s: State, child: Child, h: Bytes)
    requires Alive(s, h)
    ensures var (t, f) := Fetch(w, s, child);
            && Alive(t, h)
            && (f.Got? && h == w.hash(child.ciphertext) ==> Row(t, h) == Some(f.raw) && Open(Recent(t.log, h), f.raw))
  {
    hide Attempts;
    var hash, c := w.hash(child.ciphertext), child.ciphertext;
    var d := w.decrypt(s.ratchet, c);
    if !child.luck.getFails && hash !in s.buffer && d.Plain? {
      RecentAppend(s.log, Committed(hash, c, d.raw), h);
      if h == hash {
        assert Recent(s.log, h) == [];
        assert [] + [Committed(hash, c, d.raw)] == [Committed(hash, c, d.raw)];
        CommitOpens(Committed(hash, c, d.raw));
      }
    }
  }

  lemma HandledKeeps(s: State, h: Bytes, raw: Option<Bytes>, e: Event)
    requires h in s.buffer && s.buffer[h] == raw && Open(Recent(s.log, h), raw)
    requires e.Handled? && e.hash == h && e.seen == Value(raw)
    ensures Open(Recent(s.log + [e], h), raw)
  {
    hide Open;
    RecentAppend(s.log, e, h);
    AttemptsMore(Recent(s.log, h), raw, e);
  }

  lemma ClearKeeps(s: State, h: Bytes, raw: Option<Bytes>)
    requires h in s.buffer && Open(Recent(s.log, h), raw)
    ensures Alive(s.(buffer := s.buffer[h := None], log := s.log + [Cleared(h)]), h)
    ensures Closed(Recent(s.log + [Cleared(h)], h), raw)
  {
    hide Open, Attempts;
    RecentAppend(s.log, Cleared(h), h);
    ClearCloses(Recent(s.log, h), raw, Cleared(h));
    assert Recent(s.log + [Cleared(h)], h) == Recent(s.log, h) + [Cleared(h)];
  }

  /** The state of a stanza after its handler, if the handler is called at all. */
  function HandledState(w: World, s: State, child: Child, raw: Bytes, text: Bytes): State {
    if Dispatches(w, text, child.version)
    then s.(log := s.log + [Handled(w.hash(child.ciphertext), raw, !child.luck.handlerFails)]) else s
  }

  lemma FinishOther(w: World, s: State, child: Child, raw: Bytes, h: Bytes)
    requires Alive(s, h) && h != w.hash(child.ciphertext)
    ensures Alive(Finish(w, s, child, raw).0, h)
  {
    hide Lifecycle, Unpad;
    var hash := w.hash(child.ciphertext);
    RecentAppend(s.log, Handled(hash, raw, !child.luck.handlerFails), h);
    RecentAppend(s.log, Cleared(hash), h);
    RecentAppend(s.log + [Handled(hash, raw, !child.luck.handlerFails)], Cleared(hash), h);
  }

  lemma FinishKeeps(w: World, s: State, child: Child, raw: Option<Bytes>, h: Bytes)
    requires h == w.hash(child.ciphertext) && h in s.buffer && s.buffer[h] == raw && Open(Recent(s.log, h), raw)
    ensures Alive(Finish(w, s, child, Value(raw)).0, h)
  {
    hide Open, Closed, Recent, Unpad;
    match Unpad(Value(raw), child.version)
    case None =>
    case Some(text) =>
      var t := HandledState(w, s, child, Value(raw), text);
      if Dispatches(w, text, child.version) {
        HandledKeeps(s, h, raw, Handled(h, Value(raw), !child.luck.handlerFails));
      }
      assert Open(Recent(t.log, h), raw) && t.buffer == s.buffer;
      ClearKeeps(t, h, raw);
  }

  lemma NextKeeps(w: World, s: State, action: Action, h: Bytes)
    requires Alive(s, h)
    ensures Alive(Next(w, s, action), h)
  {
    hide Lifecycle, Open, Fetch, Finish;
    match action
    case Expire(hash) =>
      RecentAppend(s.log, Expired(hash), h);
      ExpiredKeeps(s, hash, h);
    case Deliver(child) =>
      FetchKeeps(w, s, child, h);
      var (t, f) := Fetch(w, s, child);
      if f.Got? && !child.luck.crashDecrypted {
        if h == w.hash(child.ciphertext) {
          FinishKeeps(w, t, child, f.raw, h);
        } else {
          FinishOther(w, t, child, Value(f.raw), h);
        }
      }
  }

  lemma ExpiredKeeps(s: State, hash: Bytes, h: Bytes)
    requires Alive(s, h)
    ensures Alive(ExpireNext(s, hash), h)
  {
    RecentAppend(s.log, Expired(hash), h);
  }

  /** In every run, every ciphertext lives its life: it is committed at most once, every call of the handler sees the
  committed plaintext, and after a clear there is no further event while its hash is kept. */
  lemma {:induction false} EveryRunIsAlive(w: World, ratchet: Bytes, actions: seq<Action>, h: Bytes)
    ensures Alive(Run(w, Start(ratchet), actions), h)
  {
    hide Next, Alive;
    if actions == [] {
      NothingIsAlive(ratchet, h);
    } else {
      EveryRunIsAlive(w, ratchet, actions[..|actions| - 1], h);
      NextKeeps(w, Run(w, Start(ratchet), actions[..|actions| - 1]), actions[|actions| - 1], h);
    }
  }

  lemma NothingIsAlive(ratchet: Bytes, h: Bytes)
    ensures Alive(Start(ratchet), h)
  {
  }

  // ---------- What follows for a run ----------

  /** The events of a hash since its last expiry, by kind. */
  function Commits(events: seq<Event>): (r: nat) {
    if events == [] then 0
    else Commits(events[..|events| - 1]) + (if events[|events| - 1].Committed? then 1 else 0)
  }

  lemma {:induction false} OneCommit(events: seq<Event>)
    requires events != [] && events[0].Committed? && forall k :: 1 <= k < |events| ==> !events[k].Committed?
    ensures Commits(events) == 1
    decreases |events|
  {
    if |events| == 1 {
      assert events[..0] == [];
    } else {
      OneCommit(events[..|events| - 1]);
    }
  }

  /** Whatever comes after the commit. */
  lemma LaterEvent(events: seq<Event>, row: Option<Option<Bytes>>, k: nat)
    requires Lifecycle(events, row) && 1 <= k < |events|
    ensures row.Some? && events[0].Committed?
    ensures (events[k].Handled? && events[k].seen == Value(events[0].raw))
            || (k == |events| - 1 && events[k].Cleared? && row.value.None?)
  {
    assert events[1..][k - 1] == events[k];
    assert k < |events| - 1 ==> events[1..|events| - 1][k - 1] == events[k];
  }

  lemma LifecycleCommits(events: seq<Event>, row: Option<Option<Bytes>>)
    requires Lifecycle(events, row)
    ensures Commits(events) == if row.None? then 0 else 1
  {
    if row.Some? {
      forall k | 1 <= k < |events| ensures !events[k].Committed? {
        LaterEvent(events, row, k);
      }
      OneCommit(events);
    }
  }

  /** The ratchet decrypts a ciphertext at most once while its hash is kept, and exactly once if its hash is there. */
  lemma CommitsAtMostOnce(w: World, ratchet: Bytes, actions: seq<Action>, h: Bytes)
    ensures var s := Run(w, Start(ratchet), actions);
            Commits(Recent(s.log, h)) == if h in s.buffer then 1 else 0
  {
    hide Run, Recent, Lifecycle, Commits;
    EveryRunIsAlive(w, ratchet, actions, h);
    var s := Run(w, Start(ratchet), actions);
    LifecycleCommits(Recent(s.log, h), Row(s, h));
  }

  /** The handler sees the plaintext that was committed, whichever delivery it is called for; and nothing committed is
  lost: its plaintext stays in the buffer until it is cleared. */
  lemma SamePlaintext(w: World, ratchet: Bytes, actions: seq<Action>, h: Bytes, i: nat, j: nat)
    requires var events := Recent(Run(w, Start(ratchet), actions).log, h);
             i < |events| && events[i].Committed? && j < |events|
    ensures var s := Run(w, Start(ratchet), actions);
            var events := Recent(s.log, h);
            && i == 0 && h in s.buffer
            && (events[j].Handled? ==> events[j].seen == Value(events[0].raw))
            && (events[j].Cleared? ==> j == |events| - 1 && s.buffer[h] == None)
            && (s.buffer[h].Some? ==> s.buffer[h] == events[0].raw)
            && (s.buffer[h].None? && events[0].raw.Some? ==> events[|events| - 1].Cleared?)
  {
    hide Run, Recent;
    EveryRunIsAlive(w, ratchet, actions, h);
    var s := Run(w, Start(ratchet), actions);
    LifecycleEvents(Recent(s.log, h), Row(s, h), i, j);
  }

  lemma LifecycleEvents(events: seq<Event>, row: Option<Option<Bytes>>, i: nat, j: nat)
    requires Lifecycle(events, row) && i < |events| && events[i].Committed? && j < |events|
    ensures row.Some? && i == 0
    ensures events[j].Handled? ==> events[j].seen == Value(events[0].raw)
    ensures events[j].Cleared? ==> j == |events| - 1 && row.value.None?
    ensures row.value.Some? ==> row.value == events[0].raw
    ensures row.value.None? && events[0].raw.Some? ==> events[|events| - 1].Cleared?
  {
    forall k: nat | 1 <= k < |events|
      ensures (events[k].Handled? && events[k].seen == Value(events[0].raw))
              || (k == |events| - 1 && events[k].Cleared? && row.value.None?)
    {
      LaterEvent(events, row, k);
    }
  }

  /** Once cleared, a redelivery changes nothing and the handler is not called, whatever happens. */
  lemma ClearedIsDone(w: World, s: State, child: Child)
    requires Row(s, w.hash(child.ciphertext)) == Some(None)
    ensures DeliverNext(w, s, child).0 == s
  {
  }

  /** A delivery without trouble of a plaintext still in the buffer calls the handler with it and clears it. */
  lemma TroubleFreeRedelivery(w: World, s: State, child: Child, raw: Bytes)
    requires Row(s, w.hash(child.ciphertext)) == Some(Some(raw)) && child.luck == NO_TROUBLE
    requires Unpad(raw, child.version).Some? && Dispatches(w, Unpad(raw, child.version).value, child.version)
    ensures var h := w.hash(child.ciphertext); var (t, goesOn) := DeliverNext(w, s, child);
            && goesOn && t.log == s.log + [Handled(h, raw, true), Cleared(h)] && Row(t, h) == Some(None)
            && t.ratchet == s.ratchet
  {
    hide Unpad;
    var h := w.hash(child.ciphertext);
    assert (s.log + [Handled(h, raw, true)]) + [Cleared(h)] == s.log + [Handled(h, raw, true), Cleared(h)];
  }

  /** After a crash right behind the commit, the redelivery reaches the handler if and only if the plaintext was not
  nil: a nil plaintext is stored as NULL, which reads as done. */
  lemma CrashLosesOnlyNil(w: World, s: State, child: Child, again: Child)
    requires child.ciphertext == again.ciphertext && again.luck == NO_TROUBLE
    requires child.luck == NO_TROUBLE.(crashDecrypted := true)
    requires w.hash(child.ciphertext) !in s.buffer && w.decrypt(s.ratchet, child.ciphertext).Plain?
    requires var text := Unpad(Value(w.decrypt(s.ratchet, child.ciphertext).raw), again.version);
             text.Some? && Dispatches(w, text.value, again.version)
    ensures var h := w.hash(child.ciphertext); var raw := w.decrypt(s.ratchet, child.ciphertext).raw;
            var t := DeliverNext(w, s, child).0;
            && t.log == s.log + [Committed(h, child.ciphertext, raw)]
            && (DeliverNext(w, t, again).0.log == t.log + [Handled(h, Value(raw), true), Cleared(h)] <==> raw.Some?)
            && (DeliverNext(w, t, again).0 == t <==> raw.None?)
  {
    hide Unpad, Dispatches, Finish;
    var t, raw := DeliverNext(w, s, child).0, w.decrypt(s.ratchet, child.ciphertext).raw;
    if raw.Some? {
      TroubleFreeRedelivery(w, t, again, raw.value);
      assert |DeliverNext(w, t, again).0.log| > |t.log|;
    } else {
      ClearedIsDone(w, t, again);
    }
  }

  /** A nil plaintext whose delivery crashes behind the commit: the next delivery, without trouble, calls no handler. */
  lemma NilIsLost()
    ensures var w := World(c => c, (r, c) => Plain(r, None), (text, v) => Dispatch);
            var crashing := Child([1], 3, NO_TROUBLE.(crashDecrypted := true));
            Run(w, Start([]), [Deliver(crashing), Deliver(Child([1], 3, NO_TROUBLE))]).log == [Committed([1], [1], None)]
  {
    var w := World(c => c, (r, c) => Plain(r, None), (text, v) => Dispatch);
    var one := [Deliver(Child([1], 3, NO_TROUBLE.(crashDecrypted := true)))];
    var two := one + [Deliver(Child([1], 3, NO_TROUBLE))];
    assert two[..1] == one && one[..0] == [];
    assert Run(w, Start([]), one) == State(map[[1] := None], [], [Committed([1], [1], None)]);
  }

  // ---------- What a clear says of the handler ----------

  /** The branches that clear a plaintext no handler was given: an unknown version, a version 3 plaintext that does not
  parse, and whatever parses without an event to dispatch.  A version 2 plaintext that does not parse is kept. */
  predicate ClearsUnseen(w: World, raw: Bytes, version: int)
  {
    match Unpad(raw, version)
    case None => false
    case Some(text) => !Dispatches(w, text, version) && !(version == 2 && w.parse(text, 2).Failed?)
  }

  predicate Accepts(w: World, raw: Bytes, version: int, luck: Luck)
  {
    match Unpad(raw, version)
    case None => false
    case Some(text) => Dispatches(w, text, version) && !luck.handlerFails
  }

  predicate Uninterrupted(luck: Luck)
  {
    !luck.getFails && !luck.crashDecrypted && !luck.crashHandled && !luck.clearFails
  }

  /** Exactly when a delivery clears a buffered plaintext: nothing interrupts it, and either the handler accepts the
  plaintext or the plaintext takes a branch that clears unseen. */
  lemma ClearsIff(w: World, s: State, child: Child, raw: Bytes)
    requires Row(s, w.hash(child.ciphertext)) == Some(Some(raw))
    ensures Row(DeliverNext(w, s, child).0, w.hash(child.ciphertext)) == Some(None)
            <==> Uninterrupted(child.luck)
                 && (Accepts(w, raw, child.version, child.luck) || ClearsUnseen(w, raw, child.version))
  {
    hide Unpad;
  }

  /** Exactly when it clears without a handler having been called. */
  lemma ClearsUnseenIff(w: World, s: State, child: Child, raw: Bytes)
    requires Row(s, w.hash(child.ciphertext)) == Some(Some(raw))
    ensures DeliverNext(w, s, child).0.log == s.log + [Cleared(w.hash(child.ciphertext))]
            <==> Uninterrupted(child.luck) && ClearsUnseen(w, raw, child.version)
  {
    hide Unpad;
    var h := w.hash(child.ciphertext);
    var log := DeliverNext(w, s, child).0.log;
    assert log == s.log + [Cleared(h)] ==> log[|s.log|] == Cleared(h);
  }

  /** What a stanza appends to the log once it has the plaintext. */
  function Tail(w: World, child: Child, raw: Bytes): seq<Event> {
    var h, luck := w.hash(child.ciphertext), child.luck;
    match Unpad(raw, child.version)
    case None => []
    case Some(text) =>
      if child.version == 2 && w.parse(text, 2).Failed? then []
      else
        var handled := if Dispatches(w, text, child.version) then [Handled(h, raw, !luck.handlerFails)] else [];
        if (Dispatches(w, text, child.version) && luck.handlerFails) || luck.crashHandled || luck.clearFails then handled
        else handled + [Cleared(h)]
  }

  lemma FinishAppends(w: World, s: State, child: Child, raw: Bytes)
    requires w.hash(child.ciphertext) in s.buffer
    ensures Finish(w, s, child, raw).0.log == s.log + Tail(w, child, raw)
  {
    hide Unpad, Dispatches;
    var handled := Handled(w.hash(child.ciphertext), raw, !child.luck.handlerFails);
    assert s.log + [] == s.log;
    assert [] + [Cleared(handled.hash)] == [Cleared(handled.hash)];
    assert (s.log + [handled]) + [Cleared(handled.hash)] == s.log + ([handled] + [Cleared(handled.hash)]);
  }

  lemma {:induction false} RecentTail(log: seq<Event>, tail: seq<Event>, h: Bytes)
    requires forall e | e in tail :: !e.Expired? && e.hash == h
    ensures Recent(log + tail, h) == Recent(log, h) + tail
  {
    if tail == [] {
      assert log + tail == log;
    } else {
      var init, last := tail[..|tail| - 1], tail[|tail| - 1];
      assert last in tail;
      RecentTail(log, init, h);
      assert log + tail == (log + init) + [last];
      RecentAppend(log + init, last, h);
    }
  }

  /** A clear stands behind an acceptance, or the plaintext clears unseen. */
  lemma TailEnds(w: World, child: Child, raw: Bytes)
    ensures var tail := Tail(w, child, raw);
            && (forall e | e in tail :: !e.Expired? && e.hash == w.hash(child.ciphertext))
            && (tail != [] && tail[|tail| - 1].Cleared? ==>
                  (|tail| == 2 && tail[0] == Handled(w.hash(child.ciphertext), raw, true))
                  || ClearsUnseen(w, raw, child.version))
  {
    hide Unpad, Dispatches;
  }

  /** If the events of a hash end with a clear, the handler accepted the committed plaintext right before it, or one of
  the deliveries of the hash takes a branch that clears that plaintext unseen. */
  ghost predicate Accounted(w: World, actions: seq<Action>, events: seq<Event>, h: Bytes)
  {
    events != [] && events[0].Committed? && events[|events| - 1].Cleared? ==>
      || (|events| >= 2 && events[|events| - 2] == Handled(h, Value(events[0].raw), true))
      || SomeUnseen(w, actions, Value(events[0].raw), h)
  }

  predicate SomeUnseen(w: World, actions: seq<Action>, raw: Bytes, h: Bytes)
  {
    exists i :: 0 <= i < |actions| && actions[i].Deliver? && w.hash(actions[i].child.ciphertext) == h
                && ClearsUnseen(w, raw, actions[i].child.version)
  }

  lemma SomeUnseenLater(w: World, actions: seq<Action>, action: Action, raw: Bytes, h: Bytes)
    ensures SomeUnseen(w, actions, raw, h) ==> SomeUnseen(w, actions + [action], raw, h)
    ensures action.Deliver? && w.hash(action.child.ciphertext) == h && ClearsUnseen(w, raw, action.child.version)
            ==> SomeUnseen(w, actions + [action], raw, h)
  {
    hide ClearsUnseen;
    var more := actions + [action];
    if SomeUnseen(w, actions, raw, h) {
      var i :| 0 <= i < |actions| && actions[i].Deliver? && w.hash(actions[i].child.ciphertext) == h
               && ClearsUnseen(w, raw, actions[i].child.version);
      assert more[i] == actions[i];
    }
    assert more[|actions|] == action;
  }

  lemma AccountedSame(w: World, actions: seq<Action>, action: Action, events: seq<Event>, h: Bytes)
    requires Accounted(w, actions, events, h)
    ensures Accounted(w, actions + [action], events, h)
  {
    hide SomeUnseen;
    if events != [] && events[0].Committed? {
      SomeUnseenLater(w, actions, action, Value(events[0].raw), h);
    }
  }

  /** A plaintext that is open gets the tail of its delivery. */
  lemma AccountedTail(w: World, actions: seq<Action>, child: Child, events: seq<Event>, raw: Option<Bytes>)
    requires Open(events, raw)
    ensures Accounted(w, actions + [Deliver(child)], events + Tail(w, child, Value(raw)), w.hash(child.ciphertext))
  {
    hide Tail, SomeUnseen, ClearsUnseen;
    var tail := Tail(w, child, Value(raw));
    var all := events + tail;
    TailEnds(w, child, Value(raw));
    SomeUnseenLater(w, actions, Deliver(child), Value(raw), w.hash(child.ciphertext));
    assert all[0] == events[0];
    if tail == [] {
      OpenEnds(events, raw);
      assert all == events;
    } else {
      assert all[|all| - 1] == tail[|tail| - 1];
      assert |tail| == 2 ==> all[|all| - 2] == tail[0];
    }
  }

  lemma OpenEnds(events: seq<Event>, raw: Option<Bytes>)
    requires Open(events, raw)
    ensures !events[|events| - 1].Cleared?
  {
    if |events| > 1 {
      assert events[1..][|events| - 2] == events[|events| - 1];
      assert events[|events| - 1] in events[1..];
    }
  }

  lemma DeliverOther(w: World, s: State, child: Child, h: Bytes)
    requires h != w.hash(child.ciphertext)
    ensures Recent(DeliverNext(w, s, child).0.log, h) == Recent(s.log, h)
  {
    hide Recent, Unpad, Dispatches;
    var hash := w.hash(child.ciphertext);
    var t := Fetch(w, s, child).0;
    var d := w.decrypt(s.ratchet, child.ciphertext);
    if d.Plain? {
      RecentAppend(s.log, Committed(hash, child.ciphertext, d.raw), h);
    }
    var f := Fetch(w, s, child).1;
    if f.Got? {
      var e := Handled(hash, Value(f.raw), !child.luck.handlerFails);
      RecentAppend(t.log, e, h);
      RecentAppend(t.log, Cleared(hash), h);
      RecentAppend(t.log + [e], Cleared(hash), h);
    }
  }

  lemma AccountedStep(w: World, actions: seq<Action>, s: State, action: Action, h: Bytes)
    requires Alive(s, h) && Accounted(w, actions, Recent(s.log, h), h)
    ensures Accounted(w, actions + [action], Recent(Next(w, s, action).log, h), h)
  {
    hide Lifecycle, Open, Finish, Tail, Accounted, Recent;
    match action
    case Expire(hash) =>
      RecentAppend(s.log, Expired(hash), h);
      AccountedSame(w, actions, action, Recent(s.log, h), h);
      AccountedNothing(w, actions + [action], h);
    case Deliver(child) =>
      AccountedSame(w, actions, action, Recent(s.log, h), h);
      if h != w.hash(child.ciphertext) {
        DeliverOther(w, s, child, h);
      } else {
        FetchKeeps(w, s, child, h);
        var (t, f) := Fetch(w, s, child);
        if f.Got? {
          if child.luck.crashDecrypted {
            AccountedOpen(w, actions + [action], Recent(t.log, h), f.raw, h);
          } else {
            FinishAppends(w, t, child, Value(f.raw));
            TailEnds(w, child, Value(f.raw));
            RecentTail(t.log, Tail(w, child, Value(f.raw)), h);
            AccountedTail(w, actions, child, Recent(t.log, h), f.raw);
          }
        }
      }
  }

  lemma AccountedNothing(w: World, actions: seq<Action>, h: Bytes)
    ensures Accounted(w, actions, [], h)
  {
  }

  lemma AccountedOpen(w: World, actions: seq<Action>, events: seq<Event>, raw: Option<Bytes>, h: Bytes)
    requires Open(events, raw)
    ensures Accounted(w, actions, events, h)
  {
    OpenEnds(events, raw);
  }

  lemma {:induction false} EveryRunIsAccounted(w: World, ratchet: Bytes, actions: seq<Action>, h: Bytes)
    ensures Accounted(w, actions, Recent(Run(w, Start(ratchet), actions).log, h), h)
  {
    hide Next, Accounted, Recent, Alive;
    if actions == [] {
      NothingLogged(ratchet, h);
      AccountedNothing(w, actions, h);
    } else {
      var before, action := actions[..|actions| - 1], actions[|actions| - 1];
      EveryRunIsAccounted(w, ratchet, before, h);
      EveryRunIsAlive(w, ratchet, before, h);
      AccountedStep(w, before, Run(w, Start(ratchet), before), action, h);
      assert before + [action] == actions;
    }
  }

  lemma NothingLogged(ratchet: Bytes, h: Bytes)
    ensures Recent(Start(ratchet).log, h) == []
  {
  }

  /** The plaintext that a hash was committed with. */
  function CommittedRaw(events: seq<Event>): Bytes {
    if events != [] && events[0].Committed? then Value(events[0].raw) else []
  }

  /** In every run, a clear directly follows a call of the handler that accepted the committed plaintext, unless one of
  the deliveries of that ciphertext takes a branch that clears this plaintext unseen. */
  lemma ClearedOnlyIfAccepted(w: World, ratchet: Bytes, actions: seq<Action>, h: Bytes, j: nat)
    requires var events := Recent(Run(w, Start(ratchet), actions).log, h);
             j < |events| && events[j].Cleared?
             && forall action | action in actions && action.Deliver? && w.hash(action.child.ciphertext) == h ::
                  !ClearsUnseen(w, CommittedRaw(events), action.child.version)
    ensures var events := Recent(Run(w, Start(ratchet), actions).log, h);
            j >= 1 && events[j - 1] == Handled(h, CommittedRaw(events), true)
  {
    hide Run, Recent, ClearsUnseen;
    var events := Recent(Run(w, Start(ratchet), actions).log, h);
    EveryRunIsAlive(w, ratchet, actions, h);
    EveryRunIsAccounted(w, ratchet, actions, h);
    LifecycleOpens(events, Row(Run(w, Start(ratchet), actions), h));
    LifecycleEvents(events, Row(Run(w, Start(ratchet), actions), h), 0, j);
  }

  lemma LifecycleOpens(events: seq<Event>, row: Option<Option<Bytes>>)
    requires Lifecycle(events, row) && events != []
    ensures events[0].Committed?
  {
  }

  /** One plaintext that nothing parses, delivered once without trouble: as version 3 and as an unknown version it is
  committed and cleared with no handler called; as version 2 it is kept. */
  lemma FailedParseClears()
    ensures var w := World(c => c, (r, c) => Plain(r, Some(c)), (text, v) => Failed);
            var third, fourth, second := Child([1], 3, NO_TROUBLE), Child([1], 4, NO_TROUBLE), Child([1], 2, NO_TROUBLE);
            var committed := Committed([1], [1], Some([1]));
            && Run(w, Start([]), [Deliver(third)]) == State(map[[1] := None], [], [committed, Cleared([1])])
            && Run(w, Start([]), [Deliver(fourth)]) == State(map[[1] := None], [], [committed, Cleared([1])])
            && Run(w, Start([]), [Deliver(second)]) == State(map[[1] := Some([1])], [], [committed])
  {
    var w := World(c => c, (r, c) => Plain(r, Some(c)), (text, v) => Failed);
    var third, fourth, second := Child([1], 3, NO_TROUBLE), Child([1], 4, NO_TROUBLE), Child([1], 2, NO_TROUBLE);
    UnpadPad([], 1, 2);
    UnpadPad([], 1, 4);
    assert Repeat(1, 1) == [1] + Repeat(1, 0);
    assert Pad([], 1) == [1];
    RunOne(w, Deliver(third));
    RunOne(w, Deliver(fourth));
    RunOne(w, Deliver(second));
  }

  lemma RunOne(w: World, action: Action)
    ensures Run(w, Start([]), [action]) == Next(w, Start([]), action)
  {
    hide Next;
    var one := [action];
    assert one[..0] == [];
  }

  // ---------- The ratchet ----------

  /** The ratchet after the commits of a log, each decrypting with what the ones before it left. */
  function Replay(w: World, ratchet: Bytes, log: seq<Event>): Option<Bytes> {
    if log == [] then Some(ratchet)
    else
      match Replay(w, ratchet, log[..|log| - 1])
      case None => None
      case Some(before) =>
        match log[|log| - 1]
        case Committed(h, c, raw) =>
          (match w.decrypt(before, c)
           case Plain(after, r) => if r == raw && h == w.hash(c) then Some(after) else None
           case _ => None)
        case _ => Some(before)
  }

  lemma ReplayAppend(w: World, ratchet: Bytes, log: seq<Event>, e: Event)
    requires !e.Committed?
    ensures Replay(w, ratchet, log + [e]) == Replay(w, ratchet, log)
  {
    assert (log + [e])[..|log|] == log;
  }

  lemma ReplayFetch(w: World, ratchet: Bytes, s: State, child: Child)
    requires Replay(w, ratchet, s.log) == Some(s.ratchet)
    ensures var t := Fetch(w, s, child).0; Replay(w, ratchet, t.log) == Some(t.ratchet)
  {
    var t := Fetch(w, s, child).0;
    if t != s {
      assert t.log[..|t.log| - 1] == s.log;
    }
  }

  lemma ReplayFinish(w: World, ratchet: Bytes, s: State, child: Child, raw: Bytes)
    requires Replay(w, ratchet, s.log) == Some(s.ratchet)
    ensures var t := Finish(w, s, child, raw).0; Replay(w, ratchet, t.log) == Some(t.ratchet)
  {
    hide Replay, Unpad;
    var h := w.hash(child.ciphertext);
    var e := Handled(h, raw, !child.luck.handlerFails);
    ReplayAppend(w, ratchet, s.log, e);
    ReplayAppend(w, ratchet, s.log, Cleared(h));
    ReplayAppend(w, ratchet, s.log + [e], Cleared(h));
  }

  /** In every run the ratchet is where the committed decryptions, and no others, took it. */
  lemma {:induction false} RatchetIsReplay(w: World, ratchet: Bytes, actions: seq<Action>)
    ensures var s := Run(w, Start(ratchet), actions); Replay(w, ratchet, s.log) == Some(s.ratchet)
  {
    hide Fetch, Finish;
    if actions == [] {
    } else {
      var before, action := actions[..|actions| - 1], actions[|actions| - 1];
      RatchetIsReplay(w, ratchet, before);
      var s := Run(w, Start(ratchet), before);
      match action
      case Expire(h) => ReplayAppend(w, ratchet, s.log, Expired(h));
      case Deliver(child) =>
        ReplayFetch(w, ratchet, s, child);
        var (t, f) := Fetch(w, s, child);
        if f.Got? && !child.luck.crashDecrypted {
          ReplayFinish(w, ratchet, t, child, Value(f.raw));
        }
    }
  }

  // ---------- The code ----------

  /** The children of a stanza, until one of them stops it. */
  function DeliverAll(w: World, s: State, children: seq<Child>): State
    decreases |children|
  {
    if children == [] then s
    else
      var (t, goesOn) := DeliverNext(w, s, children[0]);
      if goesOn then DeliverAll(w, t, children[1..]) else t
  }

  function Actions(children: seq<Child>): (r: seq<Action>)
    ensures |r| == |children|
  {
    seq(|children|, i requires 0 <= i < |children| => Deliver(children[i]))
  }

  lemma {:induction false} RunFirst(w: World, s: State, actions: seq<Action>)
    requires actions != []
    ensures Run(w, s, actions) == Run(w, Next(w, s, actions[0]), actions[1..])
    decreases |actions|
  {
    hide Next;
    if |actions| == 1 {
      assert actions[..0] == [];
    } else {
      RunFirst(w, s, actions[..|actions| - 1]);
      assert actions[..|actions| - 1][1..] == actions[1..][..|actions| - 2];
    }
  }

  /** The plaintext that a delivery has in hand, if it gets one. */
  function InHand(w: World, s: State, child: Child): Option<Bytes> {
    var h := w.hash(child.ciphertext);
    if h in s.buffer then s.buffer[h]
    else
      match w.decrypt(s.ratchet, child.ciphertext)
      case Plain(_, raw) => if child.luck.putFails || child.luck.commitFails then None else Some(Value(raw))
      case _ => None
  }

  /** Exactly when the stanza goes on behind a child: the event was processed already, or its counter is old; or its
  plaintext unpads, and either it is a version 2 plaintext that does not parse, or no handler fails and nothing crashes. */
  lemma GoesOnIff(w: World, s: State, child: Child)
    ensures var row := Row(s, w.hash(child.ciphertext)); var luck := child.luck; var raw := InHand(w, s, child);
            DeliverNext(w, s, child).1
            <==> && !luck.getFails
                 && (row == Some(None) || (row == None && w.decrypt(s.ratchet, child.ciphertext).OldCounter?)
                     || (raw.Some? && !luck.crashDecrypted && Passes(w, raw.value, child.version, luck)))
  {
    hide Unpad;
  }

  predicate Passes(w: World, raw: Bytes, version: int, luck: Luck)
  {
    match Unpad(raw, version)
    case None => false
    case Some(text) =>
      || (version == 2 && w.parse(text, 2).Failed?)
      || (!luck.crashHandled && !((version == 2 || version == 3) && w.parse(text, version).Dispatch? && luck.handlerFails))
  }

  lemma RunShifts(w: World, s: State, children: seq<Child>, i: nat)
    requires i < |children|
    ensures Run(w, s, Actions(children[..i + 1]))
            == Run(w, DeliverNext(w, s, children[0]).0, Actions(children[1..][..i]))
  {
    hide DeliverNext, Run;
    assert Actions(children[..i + 1])[1..] == Actions(children[1..][..i]);
    RunFirst(w, s, Actions(children[..i + 1]));
  }

  /** A stanza is a run of the deliveries of its first children: all of them, or up to the first that stops it. */
  lemma {:induction false} StanzaIsRun(w: World, s: State, children: seq<Child>) returns (n: nat)
    ensures n <= |children| && DeliverAll(w, s, children) == Run(w, s, Actions(children[..n]))
    ensures n < |children| ==> n > 0 && !DeliverNext(w, Run(w, s, Actions(children[..n - 1])), children[n - 1]).1
    ensures forall i :: 0 <= i < n - 1 ==> DeliverNext(w, Run(w, s, Actions(children[..i])), children[i]).1
    decreases |children|
  {
    hide DeliverNext, Run;
    RunNothing(w, s);
    if children == [] {
      n := 0;
    } else {
      var (t, goesOn) := DeliverNext(w, s, children[0]);
      var rest, m := children[1..], 0;
      if goesOn {
        m := StanzaIsRun(w, t, rest);
      } else {
        RunNothing(w, t);
      }
      n := m + 1;
      RunShifts(w, s, children, m);
      if m > 0 {
        RunShifts(w, s, children, m - 1);
      }
      forall i | 0 <= i < n - 1 ensures DeliverNext(w, Run(w, s, Actions(children[..i])), children[i]).1 {
        if i > 0 {
          RunShifts(w, s, children, i - 1);
        }
      }
    }
  }

  lemma RunNothing(w: World, s: State)
    ensures Run(w, s, Actions([])) == s
  {
  }

  function AlwaysDispatches(): World {
    World(c => c, (r, c) => Plain(r, Some(c)), (text, v) => Dispatch)
  }

  lemma OneByte()
    ensures Unpad([1], 2) == Some([]) && Unpad([1], 3) == Some([1])
  {
    UnpadPad([], 1, 2);
    assert Repeat(1, 1) == [1] + Repeat(1, 0);
    assert Pad([], 1) == [1];
  }

  /** A plaintext that parses with an event to dispatch, as version 2 and as version 3: committed, handled and cleared. */
  lemma BothVersionsAreHandled(version: int)
    requires version == 2 || version == 3
    ensures Next(AlwaysDispatches(), Start([]), Deliver(Child([1], version, NO_TROUBLE))).log
            == [Committed([1], [1], Some([1])), Handled([1], [1], true), Cleared([1])]
  {
    hide Unpad, Pad, Repeat;
    OneByte();
  }

  class Client {
    var buffer: map<Bytes, Option<Bytes>>
    var ratchet: Bytes
    ghost var log: seq<Event>

    ghost function Now(): State
      reads this
    {
      State(buffer, ratchet, log)
    }

    constructor (ratchet: Bytes)
      ensures Now() == Start(ratchet)
    {
      this.ratchet, buffer, log := ratchet, map[], [];
    }

    /** With the buffer off, every delivery decrypts; with it on, the decryption and the row commit together. */
    method BufferedDecrypt(w: World, enabled: bool, child: Child) returns (r: Fetched)
      modifies this
      ensures enabled ==> (Now(), r) == Fetch(w, old(Now()), child)
      ensures !enabled ==> buffer == old(buffer) && log == old(log)
      ensures !enabled ==> match w.decrypt(old(ratchet), child.ciphertext)
                           case Plain(after, raw) => ratchet == after && r == Got(raw)
                           case OldCounter => ratchet == old(ratchet) && r == Skipped
                           case Refused => ratchet == old(ratchet) && r == Stopped
    {
      if !enabled {
        var d := w.decrypt(ratchet, child.ciphertext);
        match d {
          case Plain(after, raw) =>
            ratchet := after;
            return Got(raw);
          case OldCounter => return Skipped;
          case Refused => return Stopped;
        }
      }
      var h := w.hash(child.ciphertext);
      if child.luck.getFails {
        return Stopped;
      }
      if h in buffer {
        if buffer[h].None? {
          return Skipped;
        }
        return Got(buffer[h]);
      }
      r := DoDecryptionTxn(w, h, child);
    }

    method DoDecryptionTxn(w: World, h: Bytes, child: Child) returns (r: Fetched)
      requires h == w.hash(child.ciphertext) && h !in buffer && !child.luck.getFails
      modifies this
      ensures (Now(), r) == Fetch(w, old(Now()), child)
    {
      var savedBuffer, savedRatchet := buffer, ratchet;
      var d := w.decrypt(ratchet, child.ciphertext);
      if d.OldCounter? {
        return Skipped;
      }
      if d.Refused? {
        return Stopped;
      }
      ratchet := d.ratchet;
      if !child.luck.putFails {
        buffer := buffer[h := d.raw];
      }
      if child.luck.putFails || child.luck.commitFails {
        buffer, ratchet := savedBuffer, savedRatchet;
        return Stopped;
      }
      log := log + [Committed(h, child.ciphertext, d.raw)];
      r := Got(d.raw);
    }

    method FinishMessage(w: World, child: Child, raw: Bytes) returns (goesOn: bool)
      modifies this
      ensures (Now(), goesOn) == Finish(w, old(Now()), child, raw)
    {
      hide Unpad;
      var h := w.hash(child.ciphertext);
      var text := Unpad(raw, child.version);
      if text.None? {
        return false;
      }
      var handlerFailed := false;
      if child.version == 2 && w.parse(text.value, 2).Failed? {
        return true;
      }
      if (child.version == 2 || child.version == 3) && w.parse(text.value, child.version).Dispatch? {
        handlerFailed := child.luck.handlerFails;
        log := log + [Handled(h, raw, !handlerFailed)];
      }
      if handlerFailed || child.luck.crashHandled {
        return false;
      }
      if !child.luck.clearFails && h in buffer {
        buffer := buffer[h := None];
        log := log + [Cleared(h)];
      }
      return true;
    }

    method DecryptMessages(w: World, children: seq<Child>)
      modifies this
      ensures Now() == DeliverAll(w, old(Now()), children)
    {
      hide Fetch, Finish;
      assert children[0..] == children;
      for i := 0 to |children|
        invariant DeliverAll(w, Now(), children[i..]) == DeliverAll(w, old(Now()), children)
      {
        var rest := children[i..];
        assert rest[0] == children[i] && rest[1..] == children[i + 1..];
        var got := BufferedDecrypt(w, true, children[i]);
        if got.Stopped? {
          return;
        }
        if got.Got? {
          if children[i].luck.crashDecrypted {
            return;
          }
          var goesOn := FinishMessage(w, children[i], Value(got.raw));
          if !goesOn {
            return;
          }
        }
      }
    }
  }
}
