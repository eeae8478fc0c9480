/** The cache of sent messages: a ring of keys beside a map. */
module RecentMessages {
  import opened ByteStrings
  import opened Collections
  import Jid

  const SIZE := 256

  datatype Key = Key(to: Jid.JID, id: Bytes)

  /** `None` is a nil pointer. */
  datatype RecentMessage = RecentMessage(wa: Option<Bytes>, fb: Option<Bytes>)

  const EMPTY := RecentMessage(None, None)

  const ZERO_KEY := Key(Jid.JID([], 0, 0, 0, []), [])

  datatype Add = Add(key: Key, message: RecentMessage)

  datatype State = State(ring: seq<Key>, entries: map<Key, RecentMessage>, next: nat)

  function Blank(n: nat): (r: seq<Key>)
    ensures |r| == n && forall i :: 0 <= i < n ==> r[i] == ZERO_KEY
  {
    seq(n, i => ZERO_KEY)
  }

  function Start(): State {
    State(Blank(SIZE), map[], 0)
  }

  predicate Valid(s: State)
  {
    |s.ring| == SIZE && s.next < SIZE
  }

  function Next(s: State, add: Add): (t: State)
    requires Valid(s)
    ensures Valid(t)
  {
    var evicted := s.ring[s.next];
    var kept := if evicted.id != [] then s.entries - {evicted} else s.entries;
    State(s.ring[s.next := add.key], kept[add.key := add.message], if s.next + 1 >= SIZE then 0 else s.next + 1)
  }

  function After(adds: seq<Add>): (s: State)
    ensures Valid(s)
  {
    if adds == [] then Start() else Next(After(adds[..|adds| - 1]), adds[|adds| - 1])
  }

  // ---------- The ring ----------

  /** Slot i holds the latest key that was put there. */
  lemma {:induction false} RingHolds(adds: seq<Add>, i: nat)
    requires i < |adds| <= i + SIZE
    ensures After(adds).ring[i % SIZE] == adds[i].key
  {
    var before := adds[..|adds| - 1];
    NextIsCount(before);
    if i < |before| {
      RingHolds(before, i);
      DifferentSlots(i, |before|);
    }
  }

  lemma DifferentSlots(i: nat, n: nat)
    requires i < n < i + SIZE
    ensures i % SIZE != n % SIZE
  {
  }

  lemma {:induction false} NextIsCount(adds: seq<Add>)
    ensures After(adds).next == |adds| % SIZE
  {
    if adds != [] {
      NextIsCount(adds[..|adds| - 1]);
    }
  }

  lemma {:induction false} RingStartsBlank(adds: seq<Add>, j: nat)
    requires |adds| <= j < SIZE
    ensures After(adds).ring[j] == ZERO_KEY
  {
    if adds != [] {
      NextIsCount(adds[..|adds| - 1]);
      RingStartsBlank(adds[..|adds| - 1], j);
    }
  }

  /** The key that the next add puts out of the ring. */
  lemma NextOut(adds: seq<Add>)
    ensures var s := After(adds);
            s.ring[s.next] == if |adds| >= SIZE then adds[|adds| - SIZE].key else ZERO_KEY
  {
    hide After;
    NextIsCount(adds);
    var n := |adds|;
    if n >= SIZE {
      RingHolds(adds, n - SIZE);
      assert (n - SIZE) % SIZE == n % SIZE;
    } else {
      RingStartsBlank(adds, n);
    }
  }

  // ---------- What is in the map ----------

  /** Add t is the last one of its key. */
  predicate LastAdd(adds: seq<Add>, key: Key, t: nat)
  {
    && t < |adds| && adds[t].key == key
    && forall i :: t < i < |adds| ==> adds[i].key != key
  }

  /** Some add of the key left the ring after add t. */
  predicate PushedOut(adds: seq<Add>, key: Key, t: nat)
  {
    exists s :: 0 <= s < |adds| && adds[s].key == key && t < s + SIZE < |adds|
  }

  predicate Stays(adds: seq<Add>, key: Key, t: nat)
  {
    LastAdd(adds, key, t) && (key.id == [] || !PushedOut(adds, key, t))
  }

  lemma LastAddStep(before: seq<Add>, add: Add, key: Key, t: nat)
    requires key != add.key
    ensures LastAdd(before + [add], key, t) <==> LastAdd(before, key, t)
  {
    var adds := before + [add];
    if LastAdd(adds, key, t) {
      assert t < |before|;
      forall i | t < i < |before| ensures before[i].key != key {
        assert adds[i] == before[i];
      }
    }
  }

  lemma PushedOutStep(before: seq<Add>, add: Add, key: Key, t: nat)
    requires t < |before|
    ensures PushedOut(before + [add], key, t)
            <==> PushedOut(before, key, t) || (|before| >= SIZE && before[|before| - SIZE].key == key)
  {
    var adds := before + [add];
    if PushedOut(adds, key, t) {
      var s :| 0 <= s < |adds| && adds[s].key == key && t < s + SIZE < |adds|;
      assert adds[s] == before[s];
    }
    if PushedOut(before, key, t) {
      var s :| 0 <= s < |before| && before[s].key == key && t < s + SIZE < |before|;
      assert adds[s] == before[s];
    }
    if |before| >= SIZE && before[|before| - SIZE].key == key {
      assert adds[|before| - SIZE] == before[|before| - SIZE];
    }
  }

  lemma AfterStep(before: seq<Add>, add: Add)
    ensures After(before + [add]) == Next(After(before), add)
  {
    hide Next;
    assert (before + [add])[..|before|] == before;
  }

  lemma NextEntries(s: State, add: Add, key: Key)
    requires Valid(s) && key != add.key
    ensures var t := Next(s, add);
            && (key in t.entries <==> key in s.entries && !(key.id != [] && s.ring[s.next] == key))
            && (key in t.entries ==> t.entries[key] == s.entries[key])
  {
  }

  lemma StepOther(before: seq<Add>, add: Add, key: Key)
    requires key != add.key
    ensures var s, t := After(before), After(before + [add]);
            var out := key.id != [] && |before| >= SIZE && before[|before| - SIZE].key == key;
            && (key in t.entries <==> key in s.entries && !out)
            && (key in t.entries ==> t.entries[key] == s.entries[key])
  {
    hide After, Next;
    NextOut(before);
    AfterStep(before, add);
    NextEntries(After(before), add, key);
  }

  lemma StepSame(before: seq<Add>, add: Add)
    ensures var t := After(before + [add]); add.key in t.entries && t.entries[add.key] == add.message
  {
    assert (before + [add])[..|before|] == before;
  }

  /** Exactly what the map holds after any history: a key last added at t is there, with its latest message, if and
  only if its id is empty or no add of it has left the ring since. */
  lemma {:induction false} HeldIff(adds: seq<Add>, key: Key, t: nat)
    requires LastAdd(adds, key, t)
    ensures key in After(adds).entries <==> Stays(adds, key, t)
    ensures key in After(adds).entries ==> After(adds).entries[key] == adds[t].message
    decreases |adds|
  {
    hide After, PushedOut;
    var n := |adds| - 1;
    var before, add := adds[..n], adds[n];
    assert adds == before + [add];
    if key == add.key {
      StepSame(before, add);
      assert t == n;
      NotYetOut(adds, key);
    } else {
      LastAddStep(before, add, key, t);
      HeldIff(before, key, t);
      PushedOutStep(before, add, key, t);
      StepOther(before, add, key);
    }
  }

  lemma NotYetOut(adds: seq<Add>, key: Key)
    requires adds != []
    ensures !PushedOut(adds, key, |adds| - 1)
  {
  }

  /** Nothing is held that was never added. */
  lemma {:induction false} NeverAdded(adds: seq<Add>, key: Key)
    requires forall i :: 0 <= i < |adds| ==> adds[i].key != key
    ensures key !in After(adds).entries
  {
    if adds != [] {
      NeverAdded(adds[..|adds| - 1], key);
    }
  }

  lemma {:induction false} FindLast(adds: seq<Add>, key: Key) returns (t: nat)
    requires exists i :: 0 <= i < |adds| && adds[i].key == key
    ensures LastAdd(adds, key, t)
  {
    var n := |adds| - 1;
    if adds[n].key == key {
      t := n;
    } else {
      t := FindLast(adds[..n], key);
      assert adds == adds[..n] + [adds[n]];
      LastAddStep(adds[..n], adds[n], key, t);
    }
  }

  /** A held key with an id is in the ring. */
  lemma HeldIsInRing(adds: seq<Add>, key: Key)
    requires key in After(adds).entries && key.id != []
    ensures key in After(adds).ring
  {
    hide After;
    if forall i :: 0 <= i < |adds| ==> adds[i].key != key {
      NeverAdded(adds, key);
    }
    var t := FindLast(adds, key);
    HeldIff(adds, key, t);
    assert !PushedOut(adds, key, t);
    RingHolds(adds, t);
  }

  lemma {:induction false} SetOfSeq(ring: seq<Key>)
    ensures |set k | k in ring| <= |ring|
  {
    if ring != [] {
      SetOfSeq(ring[1..]);
      assert (set k | k in ring) == {ring[0]} + (set k | k in ring[1..]);
    }
  }

  /** At most 256 messages with an id are held. */
  lemma AtMostSize(adds: seq<Add>)
    ensures |set k | k in After(adds).entries && k.id != []| <= SIZE
  {
    hide After;
    var s := After(adds);
    var held, slots := set k | k in s.entries && k.id != [], set k | k in s.ring;
    forall k | k in held ensures k in slots {
      HeldIsInRing(adds, k);
    }
    SetOfSeq(s.ring);
    SubsetSize(held, slots);
  }

  /** Without an id nothing is ever put out, so the map itself has no bound: it holds every key ever added. */
  lemma {:induction false} EmptyIdsStay(adds: seq<Add>)
    requires forall i :: 0 <= i < |adds| ==> adds[i].key.id == []
    ensures After(adds).entries.Keys == set i | 0 <= i < |adds| :: adds[i].key
  {
    if adds == [] {
    } else {
      var n := |adds| - 1;
      var before := adds[..n];
      EmptyIdsStay(before);
      NextOut(before);
      assert forall i :: 0 <= i < n ==> before[i] == adds[i];
      assert (set i | 0 <= i < |adds| :: adds[i].key) == (set i | 0 <= i < n :: before[i].key) + {adds[n].key};
    }
  }

  /** A key added again, 255 adds later, goes when its first slot does: one further add puts it out. */
  lemma FirstSlotPutsOut(key: Key, other: Key, message: RecentMessage)
    requires key.id != [] && other != key
    ensures var adds := seq(257, i => Add(if i == 0 || i == 255 then key else other, message));
            LastAdd(adds, key, 255) && key !in After(adds).entries
  {
    hide After;
    var adds := seq(257, i => Add(if i == 0 || i == 255 then key else other, message));
    assert adds[0].key == key && 255 < 0 + SIZE < |adds|;
    assert PushedOut(adds, key, 255);
    HeldIff(adds, key, 255);
  }

  // ---------- The cache ----------

  class Cache {
    const list: array<Key>
    var entries: map<Key, RecentMessage>
    var ptr: nat

    ghost function Now(): State
      reads this, list
    {
      State(list[..], entries, ptr)
    }

    constructor ()
      ensures Now() == Start() && fresh(list)
    {
      list := new Key[SIZE](i => ZERO_KEY);
      entries, ptr := map[], 0;
      new;
      assert list[..] == Blank(SIZE);
    }

    method AddRecentMessage(to: Jid.JID, id: Bytes, wa: Option<Bytes>, fb: Option<Bytes>)
      requires Valid(Now())
      modifies this, list
      ensures Valid(Now()) && Now() == Next(old(Now()), Add(Key(to, id), RecentMessage(wa, fb)))
    {
      var key := Key(to, id);
      if list[ptr].id != [] {
        entries := entries - {list[ptr]};
      }
      entries := entries[key := RecentMessage(wa, fb)];
      list[ptr] := key;
      ptr := ptr + 1;
      if ptr >= list.Length {
        ptr := 0;
      }
    }

    /** After any history: the latest message if it stays, the empty one otherwise. */
    method GetRecentMessage(to: Jid.JID, id: Bytes, ghost adds: seq<Add>) returns (message: RecentMessage)
      requires Now() == After(adds)
      ensures forall t: nat | LastAdd(adds, Key(to, id), t) ::
                message == if Stays(adds, Key(to, id), t) then adds[t].message else EMPTY
      ensures (forall i :: 0 <= i < |adds| ==> adds[i].key != Key(to, id)) ==> message == EMPTY
    {
      hide After, Stays, LastAdd;
      var key := Key(to, id);
      forall t: nat | LastAdd(adds, key, t)
        ensures t < |adds|
        ensures key in entries <==> Stays(adds, key, t)
        ensures key in entries ==> entries[key] == adds[t].message
      {
        LastAddBound(adds, key, t);
        HeldIff(adds, key, t);
      }
      if forall i :: 0 <= i < |adds| ==> adds[i].key != key {
        NeverAdded(adds, key);
      }
      message := if key in entries then entries[key] else EMPTY;
    }
  }

  lemma LastAddBound(adds: seq<Add>, key: Key, t: nat)
    requires LastAdd(adds, key, t)
    ensures t < |adds|
  {
  }
}
