/** Requests waiting for their responses: one-shot channels in a map under a lock, served by concurrent steps. */
module ResponseWaiters {
  import opened ByteStrings

  /** What the read loop hands over.  `StreamEnd` is the one node that is compared by identity. */
  datatype Stanza = StreamEnd | Stanza(tag: string, id: Option<string>)

  predicate IsDisconnect(node: Stanza)
  {
    node.StreamEnd? || node.tag == "stream:error"
  }

  /** Only an iq or an ack with an id can answer a request. */
  predicate IsAnswer(node: Stanza)
  {
    node.Stanza? && node.id.Some? && (node.tag == "iq" || node.tag == "ack")
  }

  const CAPACITY := 1

  /** A response channel: the request it was made for, what it buffers, all it was ever sent, whether it is closed,
  whether its owner has received from it, and whether its owner has cancelled it. */
  datatype Channel = Channel(id: string, buffer: seq<Stanza>, sent: seq<Stanza>, closed: bool, taken: bool, cancelled: bool)

  datatype Progress = Pending | Sent | GaveUp

  /** A call of `receiveResponse` that has taken its waiter out of the map. */
  datatype Claim = Claim(channel: nat, data: Stanza, progress: Progress)

  datatype State = State(waiters: map<string, nat>, channels: seq<Channel>, claims: seq<Claim>, panicked: bool)

  const INITIAL := State(map[], [], [], false)

  datatype Step =
    | Wait(id: string)
    | Receive(data: Stanza)
    | Send(claim: nat)
    | GiveUp(claim: nat)
    | Clear(node: Stanza)
    | Cancel(channel: nat)
    | Take(channel: nat)

  // ---------- The steps ----------

  function Fresh(id: string): Channel {
    Channel(id, [], [], false, false, false)
  }

  function Put(ch: Channel, node: Stanza): Channel {
    ch.(buffer := ch.buffer + [node], sent := ch.sent + [node])
  }

  /** The select of `clearResponseWaiters`: send if there is room, close otherwise. */
  function Offer(ch: Channel, node: Stanza): Channel {
    if |ch.buffer| < CAPACITY then Put(ch, node) else ch.(closed := true)
  }

  /** Every channel of the map is offered the node, once. */
  function OfferAll(channels: seq<Channel>, chosen: set<nat>, node: Stanza): (r: seq<Channel>)
    ensures |r| == |channels|
  {
    seq(|channels|, c requires 0 <= c < |channels| => if c in chosen then Offer(channels[c], node) else channels[c])
  }

  function WaitNext(s: State, id: string): State {
    s.(waiters := s.waiters[id := |s.channels|], channels := s.channels + [Fresh(id)])
  }

  /** The locked half of `receiveResponse`. */
  function ReceiveNext(s: State, data: Stanza): State {
    if IsAnswer(data) && data.id.value in s.waiters then
      s.(waiters := s.waiters - {data.id.value},
         claims := s.claims + [Claim(s.waiters[data.id.value], data, Pending)])
    else s
  }

  /** The send that follows the unlock.  Sending on a closed channel panics. */
  function SendNext(s: State, k: nat): State
    requires k < |s.claims| && s.claims[k].channel < |s.channels|
  {
    var claim := s.claims[k];
    if s.channels[claim.channel].closed then s.(panicked := true)
    else s.(channels := s.channels[claim.channel := Put(s.channels[claim.channel], claim.data)],
            claims := s.claims[k := claim.(progress := Sent)])
  }

  function GiveUpNext(s: State, k: nat): State
    requires k < |s.claims|
  {
    s.(claims := s.claims[k := s.claims[k].(progress := GaveUp)])
  }

  function ClearNext(s: State, node: Stanza): State {
    s.(waiters := map[],
       channels := OfferAll(s.channels, s.waiters.Values, node),
       panicked := s.panicked || exists c | c in s.waiters.Values :: c < |s.channels| && s.channels[c].closed)
  }

  function CancelNext(s: State, c: nat): State
    requires c < |s.channels|
  {
    var ch := s.channels[c];
    s.(waiters := s.waiters - {ch.id},
       channels := s.channels[c := ch.(closed := true, cancelled := true)],
       panicked := s.panicked || ch.closed)
  }

  function TakeNext(s: State, c: nat): State
    requires c < |s.channels| && s.channels[c].buffer != []
  {
    var ch := s.channels[c];
    s.(channels := s.channels[c := ch.(buffer := ch.buffer[1..], taken := true)])
  }

  /** A request is over once its owner has received or cancelled. */
  predicate Settled(ch: Channel)
  {
    ch.taken || ch.cancelled
  }

  /** What the callers do: an id is used again only by a retry, after its earlier requests are over; an owner cancels
  only a request that is not over; a claim is sent or given up once, and a send waits for room; the owner receives
  what is there. */
  predicate Enabled(s: State, step: Step)
  {
    && !s.panicked
    && match step
       case Wait(id) => forall ch | ch in s.channels :: ch.id == id ==> Settled(ch)
       case Receive(_) => true
       case Send(k) =>
         && k < |s.claims| && s.claims[k].progress.Pending? && s.claims[k].channel < |s.channels|
         && (s.channels[s.claims[k].channel].closed || |s.channels[s.claims[k].channel].buffer| < CAPACITY)
       case GiveUp(k) => k < |s.claims| && s.claims[k].progress.Pending?
       case Clear(_) => true
       case Cancel(c) => c < |s.channels| && !Settled(s.channels[c])
       case Take(c) => c < |s.channels| && !Settled(s.channels[c]) && s.channels[c].buffer != []
  }

  function Next(s: State, step: Step): State
    requires Enabled(s, step)
  {
    match step
    case Wait(id) => WaitNext(s, id)
    case Receive(data) => ReceiveNext(s, data)
    case Send(k) => SendNext(s, k)
    case GiveUp(k) => GiveUpNext(s, k)
    case Clear(node) => ClearNext(s, node)
    case Cancel(c) => CancelNext(s, c)
    case Take(c) => TakeNext(s, c)
  }

  /** The state after a run, if every one of its steps was enabled. */
  function After(steps: seq<Step>): Option<State>
  {
    if steps == [] then Some(INITIAL)
    else
      match After(steps[..|steps| - 1])
      case None => None
      case Some(s) => if Enabled(s, steps[|steps| - 1]) then Some(Next(s, steps[|steps| - 1])) else None
  }

  // ---------- The invariant ----------

  /** In the map: open, empty, never used, under its own id. */
  predicate Registered(s: State, id: string)
    requires id in s.waiters
  {
    s.waiters[id] < |s.channels| && s.channels[s.waiters[id]] == Fresh(id)
  }

  predicate ClaimKept(s: State, k: nat)
    requires k < |s.claims|
  {
    var claim := s.claims[k];
    && claim.channel < |s.channels|
    && IsAnswer(claim.data) && claim.data.id == Some(s.channels[claim.channel].id)
    && claim.channel !in s.waiters.Values
    && s.channels[claim.channel].sent == if claim.progress.Sent? then [claim.data] else []
  }

  /** The node came from this channel's claim, or from a clear. */
  ghost predicate HasSource(s: State, c: nat, given: set<Stanza>)
    requires c < |s.channels|
  {
    forall node | node in s.channels[c].sent ::
      node in given || (IsAnswer(node) && node.id == Some(s.channels[c].id))
  }

  ghost predicate ChannelKept(s: State, c: nat, given: set<Stanza>)
    requires c < |s.channels|
  {
    var ch := s.channels[c];
    && |ch.sent| <= 1
    && ch.buffer == (if ch.taken then [] else ch.sent)
    && (ch.taken ==> ch.sent != [])
    && (ch.closed <==> ch.cancelled)
    && HasSource(s, c, given)
  }

  ghost predicate Kept(s: State, given: set<Stanza>)
  {
    && (forall id | id in s.waiters :: Registered(s, id))
    && (forall k: nat | k < |s.claims| :: ClaimKept(s, k))
    && (forall k: nat, l: nat | k < l < |s.claims| :: s.claims[k].channel != s.claims[l].channel)
    && (forall c: nat | c < |s.channels| :: ChannelKept(s, c, given))
    && (forall c: nat, d: nat | c < d < |s.channels| && s.channels[c].id == s.channels[d].id :: Settled(s.channels[c]))
  }

  /** The nodes a run's clears were given. */
  function Given(steps: seq<Step>): set<Stanza> {
    set i | 0 <= i < |steps| && steps[i].Clear? :: steps[i].node
  }

  lemma NotRegistered(s: State, given: set<Stanza>, c: nat)
    requires Kept(s, given) && c < |s.channels| && s.channels[c] != Fresh(s.channels[c].id)
    ensures c !in s.waiters.Values
  {
    forall id | id in s.waiters ensures s.waiters[id] != c {
      assert Registered(s, id);
    }
  }

  /** A request still in the map is not over, so its id cannot be used again. */
  lemma StillWaiting(s: State, given: set<Stanza>, id: string)
    requires Kept(s, given) && Enabled(s, Wait(id))
    ensures id !in s.waiters
  {
    forall i | i in s.waiters ensures i != id {
      assert Registered(s, i);
      assert s.channels[s.waiters[i]] in s.channels;
    }
  }

  lemma KeepsWait(s: State, id: string, given: set<Stanza>)
    requires Kept(s, given) && Enabled(s, Wait(id))
    ensures id !in s.waiters && Kept(WaitNext(s, id), given)
  {
    var t := WaitNext(s, id);
    StillWaiting(s, given, id);
    forall c: nat, d: nat | c < d < |t.channels| && t.channels[c].id == t.channels[d].id ensures Settled(t.channels[c]) {
      assert t.channels[c] in s.channels;
    }
    forall i | i in t.waiters ensures Registered(t, i) {
      if i != id {
        assert Registered(s, i);
      }
    }
    forall k: nat | k < |t.claims| ensures ClaimKept(t, k) {
      assert ClaimKept(s, k);
    }
    forall c: nat | c < |t.channels| ensures ChannelKept(t, c, given) {
      if c < |s.channels| {
        assert ChannelKept(s, c, given);
      }
    }
  }

  lemma KeepsReceive(s: State, data: Stanza, given: set<Stanza>)
    requires Kept(s, given) && Enabled(s, Receive(data))
    ensures Kept(ReceiveNext(s, data), given)
  {
    var t := ReceiveNext(s, data);
    if IsAnswer(data) && data.id.value in s.waiters {
      var id := data.id.value;
      var c := s.waiters[id];
      assert Registered(s, id);
      assert c in s.waiters.Values;
      forall i | i in t.waiters ensures Registered(t, i) && t.waiters[i] != c {
        assert Registered(s, i);
      }
      forall k: nat | k < |t.claims| ensures ClaimKept(t, k) && (k < |s.claims| ==> t.claims[k].channel != c) {
        if k < |s.claims| {
          assert ClaimKept(s, k);
        }
      }
      forall d: nat | d < |t.channels| ensures ChannelKept(t, d, given) {
        assert ChannelKept(s, d, given);
      }
    }
  }

  lemma KeepsSend(s: State, k: nat, given: set<Stanza>)
    requires Kept(s, given) && Enabled(s, Send(k))
    ensures Kept(SendNext(s, k), given)
    ensures SendNext(s, k).panicked <==> s.channels[s.claims[k].channel].cancelled
  {
    var t, c := SendNext(s, k), s.claims[k].channel;
    assert ClaimKept(s, k);
    assert ChannelKept(s, c, given);
    KeepsRegistered(s, t, c);
    forall l: nat | l < |t.claims| ensures ClaimKept(t, l) {
      assert ClaimKept(s, l);
      assert l != k ==> s.claims[l].channel != c;
    }
    forall d: nat | d < |t.channels| ensures ChannelKept(t, d, given) {
      assert ChannelKept(s, d, given);
    }
  }

  /** A step that changes one channel outside the map leaves the map in order. */
  lemma KeepsRegistered(s: State, t: State, c: nat)
    requires forall id | id in s.waiters :: Registered(s, id)
    requires c < |s.channels| && c !in s.waiters.Values && |t.channels| == |s.channels| && t.waiters == s.waiters
    requires forall d: nat | d < |s.channels| && d != c :: t.channels[d] == s.channels[d]
    ensures forall id | id in t.waiters :: Registered(t, id)
  {
    forall id | id in t.waiters ensures Registered(t, id) {
      assert Registered(s, id);
      assert s.waiters[id] in s.waiters.Values;
    }
  }

  lemma KeepsGiveUp(s: State, k: nat, given: set<Stanza>)
    requires Kept(s, given) && Enabled(s, GiveUp(k))
    ensures Kept(GiveUpNext(s, k), given)
  {
    var t := GiveUpNext(s, k);
    forall id | id in t.waiters ensures Registered(t, id) {
      assert Registered(s, id);
    }
    forall l: nat | l < |t.claims| ensures ClaimKept(t, l) {
      assert ClaimKept(s, l);
    }
    forall d: nat | d < |t.channels| ensures ChannelKept(t, d, given) {
      assert ChannelKept(s, d, given);
    }
  }

  /** The close branch of the clear is never taken, and nothing in the map is closed already. */
  lemma ClearNeverCloses(s: State, node: Stanza, given: set<Stanza>, c: nat)
    requires Kept(s, given) && c in s.waiters.Values
    ensures c < |s.channels| && !s.channels[c].closed && s.channels[c].sent == []
    ensures Offer(s.channels[c], node) == Put(s.channels[c], node)
  {
    var id :| id in s.waiters && s.waiters[id] == c;
    assert Registered(s, id);
  }

  lemma KeepsClear(s: State, node: Stanza, given: set<Stanza>)
    requires Kept(s, given) && Enabled(s, Clear(node))
    ensures Kept(ClearNext(s, node), given + {node}) && !ClearNext(s, node).panicked
  {
    var t := ClearNext(s, node);
    forall c | c in s.waiters.Values
      ensures c < |s.channels| && !s.channels[c].closed && Offer(s.channels[c], node) == Put(s.channels[c], node)
    {
      ClearNeverCloses(s, node, given, c);
    }
    forall k: nat | k < |t.claims| ensures ClaimKept(t, k) {
      assert ClaimKept(s, k);
    }
    forall c: nat | c < |t.channels| ensures ChannelKept(t, c, given + {node}) {
      assert ChannelKept(s, c, given);
      if c in s.waiters.Values {
        ClearNeverCloses(s, node, given, c);
      }
    }
  }

  lemma KeepsCancel(s: State, c: nat, given: set<Stanza>)
    requires Kept(s, given) && Enabled(s, Cancel(c))
    ensures Kept(CancelNext(s, c), given) && !CancelNext(s, c).panicked
  {
    var t, id := CancelNext(s, c), s.channels[c].id;
    assert ChannelKept(s, c, given);
    forall i | i in t.waiters ensures Registered(t, i) {
      assert Registered(s, i);
    }
    forall k: nat | k < |t.claims| ensures ClaimKept(t, k) {
      assert ClaimKept(s, k);
    }
    forall d: nat | d < |t.channels| ensures ChannelKept(t, d, given) {
      assert ChannelKept(s, d, given);
    }
  }

  /** A cancel takes no other request out of the map: only its own channel can be under its id. */
  lemma CancelIsItsOwn(s: State, c: nat, given: set<Stanza>)
    requires Kept(s, given) && Enabled(s, Cancel(c)) && s.channels[c].id in s.waiters
    ensures s.waiters[s.channels[c].id] == c
  {
    assert Registered(s, s.channels[c].id);
  }

  lemma KeepsTake(s: State, c: nat, given: set<Stanza>)
    requires Kept(s, given) && Enabled(s, Take(c))
    ensures Kept(TakeNext(s, c), given)
  {
    var t := TakeNext(s, c);
    assert ChannelKept(s, c, given);
    NotRegistered(s, given, c);
    KeepsRegistered(s, t, c);
    forall k: nat | k < |t.claims| ensures ClaimKept(t, k) {
      assert ClaimKept(s, k);
    }
    forall d: nat | d < |t.channels| ensures ChannelKept(t, d, given) {
      assert ChannelKept(s, d, given);
    }
  }

  /** Every step keeps the invariant, and the only step that can panic is the send of a claim whose request was
  cancelled between the claim and the send. */
  lemma KeepsStep(s: State, step: Step, given: set<Stanza>)
    requires Kept(s, given) && Enabled(s, step)
    ensures Kept(Next(s, step), if step.Clear? then given + {step.node} else given)
    ensures Next(s, step).panicked <==>
            step.Send? && s.claims[step.claim].channel < |s.channels|
            && s.channels[s.claims[step.claim].channel].cancelled
  {
    hide Kept, WaitNext, SendNext, ReceiveNext, GiveUpNext, CancelNext, ClearNext, TakeNext;
    match step
    case Wait(id) => KeepsWait(s, id, given); PanicSame(s, step);
    case Receive(data) => KeepsReceive(s, data, given); PanicSame(s, step);
    case Send(k) => KeepsSend(s, k, given);
    case GiveUp(k) => KeepsGiveUp(s, k, given); PanicSame(s, step);
    case Clear(node) => KeepsClear(s, node, given);
    case Cancel(c) => KeepsCancel(s, c, given);
    case Take(c) => KeepsTake(s, c, given); PanicSame(s, step);
  }

  lemma PanicSame(s: State, step: Step)
    requires Enabled(s, step) && (step.Wait? || step.Receive? || step.GiveUp? || step.Take?)
    ensures !Next(s, step).panicked
  {
  }

  // ---------- Every run ----------

  lemma {:induction false} EveryRunIsKept(steps: seq<Step>)
    requires After(steps).Some?
    ensures Kept(After(steps).value, Given(steps))
  {
    hide Enabled, Next;
    if steps == [] {
      EmptyIsKept();
    } else {
      var before, last := steps[..|steps| - 1], steps[|steps| - 1];
      EveryRunIsKept(before);
      KeepsStep(After(before).value, last, Given(before));
      GivenLast(steps);
    }
  }

  lemma EmptyIsKept()
    ensures Kept(INITIAL, Given([]))
  {
  }

  lemma GivenLast(steps: seq<Step>)
    requires steps != []
    ensures var last, before := steps[|steps| - 1], Given(steps[..|steps| - 1]);
            Given(steps) == if last.Clear? then before + {last.node} else before
  {
    var last, before := steps[|steps| - 1], steps[..|steps| - 1];
    forall i | 0 <= i < |before| ensures steps[i] == before[i] {
    }
    assert last.Clear? ==> steps[|steps| - 1].node in Given(steps);
    forall node | node in Given(before) ensures node in Given(steps) {
      var i :| 0 <= i < |before| && before[i].Clear? && before[i].node == node;
      assert steps[i].node == node;
    }
  }

  /** In every interleaving, a waiter is sent at most one node, and that node has the waiter's id or was given to a
  clear; when clears are given disconnect nodes only, it is a disconnect node. */
  lemma OneNodeEach(steps: seq<Step>, c: nat)
    requires After(steps).Some? && c < |After(steps).value.channels|
    ensures var ch := After(steps).value.channels[c];
            && |ch.sent| <= 1
            && (forall node | node in ch.sent :: (IsAnswer(node) && node.id == Some(ch.id)) || node in Given(steps))
            && ((forall node | node in Given(steps) :: IsDisconnect(node)) ==>
                 forall node | node in ch.sent :: (IsAnswer(node) && node.id == Some(ch.id)) || IsDisconnect(node))
  {
    hide After, Given;
    EveryRunIsKept(steps);
    assert ChannelKept(After(steps).value, c, Given(steps));
  }

  /** In every interleaving, whatever is in the map is open and empty, and no two ids share a channel. */
  lemma MapIsOpenAndEmpty(steps: seq<Step>, id: string)
    requires After(steps).Some? && id in After(steps).value.waiters
    ensures var s := After(steps).value;
            && s.waiters[id] < |s.channels| && s.channels[s.waiters[id]] == Fresh(id)
            && forall other | other in s.waiters && other != id :: s.waiters[other] != s.waiters[id]
  {
    hide After, Given;
    EveryRunIsKept(steps);
    var s := After(steps).value;
    forall i | i in s.waiters ensures Registered(s, i) {
    }
  }

  /** In every interleaving, the send of a claim on an uncancelled channel does not wait and does not panic; on a
  cancelled one it panics. */
  lemma SendNeverBlocks(steps: seq<Step>, k: nat)
    requires After(steps).Some? && !After(steps).value.panicked
    requires k < |After(steps).value.claims| && After(steps).value.claims[k].progress.Pending?
    ensures Enabled(After(steps).value, Send(k))
    ensures Next(After(steps).value, Send(k)).panicked
            <==> After(steps).value.channels[After(steps).value.claims[k].channel].cancelled
  {
    hide After, Given;
    EveryRunIsKept(steps);
    var s := After(steps).value;
    assert ClaimKept(s, k);
    assert ChannelKept(s, s.claims[k].channel, Given(steps));
    KeepsSend(s, k, Given(steps));
  }

  /** In every interleaving, a response that was claimed and sent is what its waiter holds until the owner takes it,
  and no other claim is ever made on that channel. */
  lemma ResponseIsDelivered(steps: seq<Step>, k: nat)
    requires After(steps).Some? && k < |After(steps).value.claims| && After(steps).value.claims[k].progress.Sent?
    ensures var s := After(steps).value; var c := s.claims[k].channel;
            && c < |s.channels| && s.channels[c].sent == [s.claims[k].data] && s.claims[k].data.Stanza?
            && s.claims[k].data.id == Some(s.channels[c].id)
            && (!s.channels[c].taken ==> s.channels[c].buffer == [s.claims[k].data])
            && forall l: nat | l < |s.claims| && l != k :: s.claims[l].channel != c
  {
    hide After, Given;
    EveryRunIsKept(steps);
    var s := After(steps).value;
    assert ClaimKept(s, k);
    assert ChannelKept(s, s.claims[k].channel, Given(steps));
  }

  /** A clear leaves no request waiting: each one registered is sent the node and nothing else. */
  lemma ClearServesAll(steps: seq<Step>, node: Stanza, id: string)
    requires After(steps).Some? && !After(steps).value.panicked && id in After(steps).value.waiters
    ensures var s := After(steps).value; var t := ClearNext(s, node);
            && !t.panicked && t.waiters == map[] && s.waiters[id] < |t.channels|
            && t.channels[s.waiters[id]] == Channel(id, [node], [node], false, false, false)
  {
    hide After, Given;
    EveryRunIsKept(steps);
    var s := After(steps).value;
    assert Registered(s, id);
    assert s.waiters[id] in s.waiters.Values;
    KeepsClear(s, node, Given(steps));
    ClearNeverCloses(s, node, Given(steps), s.waiters[id]);
  }

  /** The window the code leaves open: a cancel between the claim and the send makes the send panic. */
  lemma CancelledSendPanics(id: string)
    ensures var steps := [Wait(id), Receive(Stanza("iq", Some(id))), Cancel(0), Send(0)];
            After(steps).Some? && After(steps).value.panicked
  {
    var data := Stanza("iq", Some(id));
    var steps := [Wait(id), Receive(data), Cancel(0), Send(0)];
    assert After(steps[..0]) == Some(INITIAL);
    var one := WaitNext(INITIAL, id);
    assert steps[..1][..0] == [] && After(steps[..1]) == Some(one);
    var two := ReceiveNext(one, data);
    assert steps[..2][..1] == steps[..1] && After(steps[..2]) == Some(two);
    var three := CancelNext(two, 0);
    assert steps[..3][..2] == steps[..2] && After(steps[..3]) == Some(three);
    assert steps[..4] == steps && steps[..4][..3] == steps[..3];
  }

  /** An iq or an ack with the id of a registered request claims it; anything else changes nothing. */
  lemma ReceiveClaimsIff(s: State, data: Stanza)
    ensures var claims := data.Stanza? && data.tag in {"iq", "ack"} && data.id.Some? && data.id.value in s.waiters;
            var t := ReceiveNext(s, data);
            && (claims ==> data.id.value !in t.waiters && |t.claims| == |s.claims| + 1
                           && t.claims[|s.claims|] == Claim(s.waiters[data.id.value], data, Pending))
            && (!claims ==> t == s)
  {
  }

  lemma AfterMore(steps: seq<Step>, s: State, step: Step)
    requires After(steps) == Some(s) && Enabled(s, step)
    ensures After(steps + [step]) == Some(Next(s, step))
  {
    assert (steps + [step])[..|steps|] == steps;
  }

  /** A request answered by an ack, from its registration to its owner. */
  lemma AckIsDelivered(id: string)
    ensures var ack := Stanza("ack", Some(id)); var steps := [Wait(id), Receive(ack), Send(0), Take(0)];
            && After(steps).Some? && !After(steps).value.panicked
            && After(steps).value.channels == [Channel(id, [], [ack], false, true, false)]
  {
    hide After;
    var ack := Stanza("ack", Some(id));
    NothingYet();
    var none: seq<Step> := [];
    AfterMore(none, INITIAL, Wait(id));
    var one := WaitNext(INITIAL, id);
    var waits := none + [Wait(id)];
    AfterMore(waits, one, Receive(ack));
    var two := ReceiveNext(one, ack);
    AckIsClaimed(id, ack);
    var claims := waits + [Receive(ack)];
    AfterMore(claims, two, Send(0));
    var three := SendNext(two, 0);
    var sends := claims + [Send(0)];
    AfterMore(sends, three, Take(0));
    assert sends + [Take(0)] == [Wait(id), Receive(ack), Send(0), Take(0)];
  }

  lemma AckIsClaimed(id: string, ack: Stanza)
    requires ack == Stanza("ack", Some(id))
    ensures var two := ReceiveNext(WaitNext(INITIAL, id), ack);
            && two.claims == [Claim(0, ack, Pending)] && two.channels == [Fresh(id)] && !two.panicked
            && SendNext(two, 0).channels == [Channel(id, [ack], [ack], false, false, false)]
            && !SendNext(two, 0).panicked
            && TakeNext(SendNext(two, 0), 0).channels == [Channel(id, [], [ack], false, true, false)]
  {
    var two := ReceiveNext(WaitNext(INITIAL, id), ack);
    assert two.claims == [Claim(0, ack, Pending)] && two.channels == [Fresh(id)];
    assert [] + [ack] == [ack] && [ack][1..] == [];
    assert SendNext(two, 0).channels == [Put(Fresh(id), ack)];
  }

  lemma NothingYet()
    ensures After([]) == Some(INITIAL)
  {
  }

  /** The end of the stream and a stream error are disconnects; an answer is not. */
  lemma Disconnects(id: Option<string>, node: Stanza)
    ensures IsDisconnect(StreamEnd) && IsDisconnect(Stanza("stream:error", id))
    ensures IsAnswer(node) ==> !IsDisconnect(node)
  {
    assert |"iq"| == 2 && |"ack"| == 3 && |"stream:error"| == 12;
  }

  // ---------- The code under the lock ----------

  class Client {
    var responseWaiters: map<string, nat>
    var channels: seq<Channel>
    var claims: seq<Claim>

    ghost function Now(): State
      reads this
    {
      State(responseWaiters, channels, claims, false)
    }

    constructor ()
      ensures Now() == INITIAL
    {
      responseWaiters := map[];
      channels := [];
      claims := [];
    }

    method ClearResponseWaiters(node: Stanza, ghost given: set<Stanza>)
      requires Kept(Now(), given)
      modifies this
      ensures Now() == ClearNext(old(Now()), node) && Kept(Now(), given + {node})
    {
      KeepsClear(Now(), node, given);
      var ids := responseWaiters.Keys;
      ghost var done: set<nat> := {};
      while ids != {}
        invariant ids <= responseWaiters.Keys && responseWaiters == old(responseWaiters) && claims == old(claims)
        invariant forall id | id in responseWaiters :: responseWaiters[id] in done <==> id !in ids
        invariant done <= responseWaiters.Values
        invariant channels == OfferAll(old(channels), done, node)
        decreases ids
      {
        var id :| id in ids;
        var c := responseWaiters[id];
        assert Registered(old(Now()), id);
        DistinctChannels(old(Now()), given, id);
        channels := channels[c := Offer(channels[c], node)];
        done := done + {c};
        ids := ids - {id};
      }
      assert done == responseWaiters.Values;
      responseWaiters := map[];
    }

    method WaitResponse(reqID: string, ghost given: set<Stanza>) returns (ch: nat)
      requires Kept(Now(), given) && Enabled(Now(), Wait(reqID))
      modifies this
      ensures Now() == WaitNext(old(Now()), reqID) && ch == old(|channels|) && Kept(Now(), given)
    {
      KeepsWait(Now(), reqID, given);
      ch := |channels|;
      channels := channels + [Fresh(reqID)];
      responseWaiters := responseWaiters[reqID := ch];
    }

    method CancelResponse(ch: nat, ghost given: set<Stanza>)
      requires Kept(Now(), given) && Enabled(Now(), Cancel(ch))
      modifies this
      ensures Now() == CancelNext(old(Now()), ch) && Kept(Now(), given)
    {
      KeepsCancel(Now(), ch, given);
      channels := channels[ch := channels[ch].(closed := true, cancelled := true)];
      responseWaiters := responseWaiters - {channels[ch].id};
    }

    /** Up to the unlock.  `waiter` is the channel taken out of the map. */
    method ReceiveResponse(data: Stanza, ghost given: set<Stanza>) returns (waiter: Option<nat>)
      requires Kept(Now(), given)
      modifies this
      ensures Now() == ReceiveNext(old(Now()), data) && Kept(Now(), given)
      ensures waiter.Some? <==> IsAnswer(data) && data.id.value in old(responseWaiters)
      ensures waiter.Some? ==> waiter.value == old(responseWaiters)[data.id.value]
    {
      KeepsReceive(Now(), data, given);
      if data.StreamEnd? || data.id.None? || (data.tag != "iq" && data.tag != "ack") {
        return None;
      }
      var id := data.id.value;
      if id !in responseWaiters {
        return None;
      }
      waiter := Some(responseWaiters[id]);
      claims := claims + [Claim(responseWaiters[id], data, Pending)];
      responseWaiters := responseWaiters - {id};
    }

    /** The send after the unlock, for a request that was not cancelled meanwhile. */
    method SendResponse(k: nat, ghost given: set<Stanza>)
      requires Kept(Now(), given) && k < |claims| && claims[k].progress.Pending?
      requires claims[k].channel < |channels| && !channels[claims[k].channel].cancelled
      modifies this
      ensures Now() == SendNext(old(Now()), k) && Kept(Now(), given)
    {
      var c := claims[k].channel;
      assert ClaimKept(Now(), k);
      assert ChannelKept(Now(), c, given);
      KeepsSend(Now(), k, given);
      channels := channels[c := Put(channels[c], claims[k].data)];
      claims := claims[k := claims[k].(progress := Sent)];
    }
  }

  lemma DistinctChannels(s: State, given: set<Stanza>, id: string)
    requires Kept(s, given) && id in s.waiters
    ensures forall other | other in s.waiters && other != id :: s.waiters[other] != s.waiters[id]
  {
    forall i | i in s.waiters ensures Registered(s, i) {
    }
  }
}
