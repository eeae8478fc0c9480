/** The write-back cache of Signal sessions, against the store used without it. */
module SessionCache {
  import opened ByteStrings

  type Address = Bytes

  /** The record serializer, and the record of a session that does not exist yet. */
  datatype Serializer<!R> = Serializer(serialize: R -> Bytes, parse: Bytes -> Option<R>, blank: R)

  ghost predicate Lawful<R(!new)>(z: Serializer<R>)
  {
    forall r :: z.parse(z.serialize(r)) == Some(r)
  }

  datatype Entry<R> = Entry(dirty: bool, found: bool, record: R)

  type Cache<R> = map<Address, Entry<R>>

  /** `cache` is what the context carries, if it carries one. */
  datatype State<R> = State(sessions: map<Address, Bytes>, cache: Option<Cache<R>>)

  // ---------- Without the cache ----------

  /** `None` is an error: the stored bytes do not parse. */
  function LoadPlain<R>(z: Serializer<R>, sessions: map<Address, Bytes>, a: Address): Option<R>
  {
    if a in sessions then z.parse(sessions[a]) else Some(z.blank)
  }

  function StorePlain<R>(z: Serializer<R>, sessions: map<Address, Bytes>, a: Address, r: R): map<Address, Bytes>
  {
    sessions[a := z.serialize(r)]
  }

  // ---------- With the cache ----------

  function Load<R>(z: Serializer<R>, s: State<R>, a: Address): Option<R>
  {
    if s.cache.Some? && a in s.cache.value then Some(s.cache.value[a].record) else LoadPlain(z, s.sessions, a)
  }

  function Store<R>(z: Serializer<R>, s: State<R>, a: Address, r: R): State<R>
  {
    if s.cache.Some? then s.(cache := Some(s.cache.value[a := Entry(true, true, r)]))
    else s.(sessions := StorePlain(z, s.sessions, a, r))
  }

  function Dirty<R>(z: Serializer<R>, cache: Cache<R>): map<Address, Bytes>
  {
    map a | a in cache && cache[a].dirty :: z.serialize(cache[a].record)
  }

  /** The sessions are written in one transaction; only then is the cache emptied, and it stays in the context. */
  function Flush<R>(z: Serializer<R>, s: State<R>, fails: bool): State<R>
  {
    match s.cache
    case None => s
    case Some(cache) =>
      if Dirty(z, cache) != map[] && fails then s else State(s.sessions + Dirty(z, cache), Some(map[]))
  }

  /** What is read ahead: addresses whose stored bytes do not parse are left out. */
  function Prefetched<R>(z: Serializer<R>, sessions: map<Address, Bytes>, chosen: set<Address>): Cache<R>
  {
    map a | a in chosen && LoadPlain(z, sessions, a).Some? ::
      Entry(false, a in sessions, LoadPlain(z, sessions, a).value)
  }

  /** Which of the addresses read ahead have a session. */
  function Existing<R>(z: Serializer<R>, sessions: map<Address, Bytes>, chosen: set<Address>): map<Address, bool>
  {
    map a | a in chosen && LoadPlain(z, sessions, a).Some? :: a in sessions
  }

  function Elements(addresses: seq<Address>): set<Address> {
    set a | a in addresses
  }

  function Prefetch<R>(z: Serializer<R>, s: State<R>, addresses: seq<Address>): State<R>
  {
    if addresses == [] then s else s.(cache := Some(Prefetched(z, s.sessions, Elements(addresses))))
  }

  // ---------- Traces ----------

  datatype Op<R> = LoadOp(a: Address) | StoreOp(a: Address, r: R) | FlushOp(fails: bool)

  function Next<R>(z: Serializer<R>, s: State<R>, op: Op<R>): State<R>
  {
    match op
    case LoadOp(_) => s
    case StoreOp(a, r) => Store(z, s, a, r)
    case FlushOp(fails) => Flush(z, s, fails)
  }

  function NextPlain<R>(z: Serializer<R>, sessions: map<Address, Bytes>, op: Op<R>): map<Address, Bytes>
  {
    match op
    case LoadOp(_) => sessions
    case StoreOp(a, r) => StorePlain(z, sessions, a, r)
    case FlushOp(_) => sessions
  }

  function Run<R>(z: Serializer<R>, s: State<R>, ops: seq<Op<R>>): State<R>
  {
    if ops == [] then s else Next(z, Run(z, s, ops[..|ops| - 1]), ops[|ops| - 1])
  }

  function RunPlain<R>(z: Serializer<R>, sessions: map<Address, Bytes>, ops: seq<Op<R>>): map<Address, Bytes>
  {
    if ops == [] then sessions else NextPlain(z, RunPlain(z, sessions, ops[..|ops| - 1]), ops[|ops| - 1])
  }

  /** What the loads of a trace returned, in order. */
  function Loads<R>(z: Serializer<R>, s: State<R>, ops: seq<Op<R>>): seq<Option<R>>
  {
    if ops == [] then []
    else
      var before, op := ops[..|ops| - 1], ops[|ops| - 1];
      Loads(z, s, before) + (if op.LoadOp? then [Load(z, Run(z, s, before), op.a)] else [])
  }

  function LoadsPlain<R>(z: Serializer<R>, sessions: map<Address, Bytes>, ops: seq<Op<R>>): seq<Option<R>>
  {
    if ops == [] then []
    else
      var before, op := ops[..|ops| - 1], ops[|ops| - 1];
      LoadsPlain(z, sessions, before) + (if op.LoadOp? then [LoadPlain(z, RunPlain(z, sessions, before), op.a)] else [])
  }

  // ---------- Refinement ----------

  /** The plain store is the cached one with the dirty entries written, and a clean entry is what a load would give. */
  ghost predicate Refines<R>(z: Serializer<R>, s: State<R>, plain: map<Address, Bytes>)
  {
    match s.cache
    case None => plain == s.sessions
    case Some(cache) =>
      && plain == s.sessions + Dirty(z, cache)
      && forall a | a in cache :: LoadPlain(z, plain, a) == Some(cache[a].record)
  }

  lemma LoadAgrees<R>(z: Serializer<R>, s: State<R>, plain: map<Address, Bytes>, a: Address)
    requires Refines(z, s, plain)
    ensures Load(z, s, a) == LoadPlain(z, plain, a)
  {
  }

  lemma DirtyStored<R>(z: Serializer<R>, sessions: map<Address, Bytes>, cache: Cache<R>, a: Address, r: R)
    ensures sessions + Dirty(z, cache[a := Entry(true, true, r)]) == (sessions + Dirty(z, cache))[a := z.serialize(r)]
  {
    assert Dirty(z, cache[a := Entry(true, true, r)]) == Dirty(z, cache)[a := z.serialize(r)];
  }

  lemma StoreRefines<R(!new)>(z: Serializer<R>, s: State<R>, plain: map<Address, Bytes>, a: Address, r: R)
    requires Lawful(z) && Refines(z, s, plain)
    ensures Refines(z, Store(z, s, a, r), StorePlain(z, plain, a, r))
  {
    if s.cache.Some? {
      var cache := s.cache.value[a := Entry(true, true, r)];
      var plain' := plain[a := z.serialize(r)];
      DirtyStored(z, s.sessions, s.cache.value, a, r);
      forall b | b in cache ensures LoadPlain(z, plain', b) == Some(cache[b].record) {
        assert b != a ==> LoadPlain(z, plain, b) == Some(cache[b].record);
      }
    }
  }

  lemma FlushRefines<R>(z: Serializer<R>, s: State<R>, plain: map<Address, Bytes>, fails: bool)
    requires Refines(z, s, plain)
    ensures Refines(z, Flush(z, s, fails), plain)
    ensures !fails ==> Flush(z, s, fails).sessions == plain
  {
    if s.cache.Some? {
      var empty: Cache<R> := map[];
      assert Dirty(z, empty) == map[];
      assert plain + map[] == plain;
    }
  }

  lemma PrefetchRefines<R>(z: Serializer<R>, sessions: map<Address, Bytes>, addresses: seq<Address>)
    ensures Refines(z, Prefetch(z, State(sessions, None), addresses), sessions)
  {
    if addresses != [] {
      assert Dirty(z, Prefetched(z, sessions, Elements(addresses))) == map[];
      assert sessions + map[] == sessions;
    }
  }

  lemma {:induction false} RunRefines<R(!new)>(z: Serializer<R>, s: State<R>, plain: map<Address, Bytes>, ops: seq<Op<R>>)
    requires Lawful(z) && Refines(z, s, plain)
    ensures Refines(z, Run(z, s, ops), RunPlain(z, plain, ops))
    ensures Loads(z, s, ops) == LoadsPlain(z, plain, ops)
  {
    hide Lawful, Refines, Flush, Store, StorePlain, Load, LoadPlain;
    if ops == [] {
    } else {
      var before, op := ops[..|ops| - 1], ops[|ops| - 1];
      RunRefines(z, s, plain, before);
      match op
      case LoadOp(a) => LoadAgrees(z, Run(z, s, before), RunPlain(z, plain, before), a);
      case StoreOp(a, r) => StoreRefines(z, Run(z, s, before), RunPlain(z, plain, before), a, r);
      case FlushOp(fails) => FlushRefines(z, Run(z, s, before), RunPlain(z, plain, before), fails);
    }
  }

  /** For every trace of loads, stores and flushes on any addresses, after reading ahead any addresses, every load
  returns what it would have returned without the cache. */
  lemma CacheIsInvisible<R(!new)>(z: Serializer<R>, sessions: map<Address, Bytes>, addresses: seq<Address>, ops: seq<Op<R>>)
    requires Lawful(z)
    ensures Loads(z, Prefetch(z, State(sessions, None), addresses), ops) == LoadsPlain(z, sessions, ops)
  {
    hide *;
    PrefetchRefines(z, sessions, addresses);
    RunRefines(z, Prefetch(z, State(sessions, None), addresses), sessions, ops);
  }

  /** A flush that succeeds leaves the backing store as it would be without the cache. */
  lemma FlushedStoreIsPlain<R(!new)>(z: Serializer<R>, sessions: map<Address, Bytes>, addresses: seq<Address>, ops: seq<Op<R>>)
    requires Lawful(z)
    ensures Flush(z, Run(z, Prefetch(z, State(sessions, None), addresses), ops), false).sessions
         == RunPlain(z, sessions, ops)
  {
    hide *;
    var s := Prefetch(z, State(sessions, None), addresses);
    PrefetchRefines(z, sessions, addresses);
    RunRefines(z, s, sessions, ops);
    FlushRefines(z, Run(z, s, ops), RunPlain(z, sessions, ops), false);
  }

  /** After a flush that succeeds there is nothing left to write: another cannot fail and changes nothing. */
  lemma FlushTwice<R>(z: Serializer<R>, s: State<R>, fails: bool)
    ensures Flush(z, Flush(z, s, false), fails) == Flush(z, s, false)
  {
    var empty: Cache<R> := map[];
    assert Dirty(z, empty) == map[];
    var t := Flush(z, s, false);
    assert t.sessions + map[] == t.sessions;
  }

  /** A flush with nothing dirty cannot fail, and forgets what was read ahead. */
  lemma CleanFlush<R>(z: Serializer<R>, s: State<R>, fails: bool)
    requires s.cache.Some? && forall a | a in s.cache.value :: !s.cache.value[a].dirty
    ensures Flush(z, s, fails) == State(s.sessions, Some(map[]))
  {
    assert Dirty(z, s.cache.value) == map[];
    assert s.sessions + map[] == s.sessions;
  }

  /** Nothing reaches the backing store before a flush. */
  lemma {:induction false} NothingBeforeFlush<R>(z: Serializer<R>, s: State<R>, ops: seq<Op<R>>)
    requires s.cache.Some? && forall op | op in ops :: !op.FlushOp?
    ensures Run(z, s, ops).sessions == s.sessions && Run(z, s, ops).cache.Some?
  {
    if ops != [] {
      NothingBeforeFlush(z, s, ops[..|ops| - 1]);
    }
  }

  /** Reading ahead while a context already carries a cache hides what was stored in it: the outcome is the plain one
  if and only if the new cache's addresses have nothing unflushed to read. */
  lemma NestedPrefetchIff<R(!new)>(z: Serializer<R>, s: State<R>, plain: map<Address, Bytes>, addresses: seq<Address>, a: Address)
    requires Lawful(z) && Refines(z, s, plain) && s.cache.Some? && addresses != []
    ensures Load(z, Prefetch(z, s, addresses), a) == LoadPlain(z, plain, a)
            <==> (a in s.cache.value && s.cache.value[a].dirty ==>
                    LoadPlain(z, s.sessions, a) == Some(s.cache.value[a].record))
  {
    var cache := s.cache.value;
    var t := Prefetch(z, s, addresses);
    assert Load(z, t, a) == LoadPlain(z, s.sessions, a);
    if a in cache && cache[a].dirty {
      assert plain[a] == z.serialize(cache[a].record);
    }
  }

  /** Records that are their own bytes. */
  function Verbatim(): Serializer<Bytes> {
    Serializer((r: Bytes) => r, (bytes: Bytes) => Some(bytes), [])
  }

  /** An input where a second reading ahead loses what was stored: the load gives a new record. */
  lemma NestedPrefetchLoses()
    ensures var z := Verbatim();
            var s := Store(z, Prefetch(z, State(map[], None), [[1]]), [1], [7]);
            Load(z, s, [1]) == Some([7]) && Load(z, Prefetch(z, s, [[1]]), [1]) == Some([])
  {
    var z := Verbatim();
    var s := Store(z, Prefetch(z, State(map[], None), [[1]]), [1], [7]);
    assert [1] in Elements([[1]]);
  }

  /** Whether the store has a session: this asks the backing store, past the cache. */
  predicate Contains<R>(s: State<R>, a: Address)
  {
    a in s.sessions
  }

  lemma {:induction false} PlainContains<R>(z: Serializer<R>, plain: map<Address, Bytes>, ops: seq<Op<R>>, a: Address)
    ensures a in RunPlain(z, plain, ops) <==> a in plain || exists op :: op in ops && op.StoreOp? && op.a == a
  {
    if ops != [] {
      var before, last := ops[..|ops| - 1], ops[|ops| - 1];
      PlainContains(z, plain, before, a);
      assert forall op :: op in ops <==> op in before || op == last;
    }
  }

  /** Loads never show the cache, but this question does: after any trace it is answered as without the cache if and
  only if the address is not one whose first session is still waiting to be flushed. */
  lemma ContainsIff<R(!new)>(z: Serializer<R>, sessions: map<Address, Bytes>, addresses: seq<Address>, ops: seq<Op<R>>,
                             a: Address)
    requires Lawful(z)
    ensures var s := Run(z, Prefetch(z, State(sessions, None), addresses), ops);
            (Contains(s, a) <==> a in RunPlain(z, sessions, ops))
            <==> !(s.cache.Some? && a in s.cache.value && s.cache.value[a].dirty && a !in s.sessions)
  {
    hide Lawful, Prefetch, Run, RunPlain, LoadPlain;
    PrefetchRefines(z, sessions, addresses);
    RunRefines(z, Prefetch(z, State(sessions, None), addresses), sessions, ops);
  }

  /** While nothing is flushed: exactly the addresses that had no session and were given one. */
  lemma ContainsBeforeFlush<R(!new)>(z: Serializer<R>, sessions: map<Address, Bytes>, addresses: seq<Address>,
                                     ops: seq<Op<R>>, a: Address)
    requires addresses != [] && forall op | op in ops :: !op.FlushOp?
    ensures (Contains(Run(z, Prefetch(z, State(sessions, None), addresses), ops), a) <==> a in RunPlain(z, sessions, ops))
            <==> a in sessions || forall op | op in ops :: op.StoreOp? ==> op.a != a
  {
    hide Run, RunPlain;
    NothingBeforeFlush(z, Prefetch(z, State(sessions, None), addresses), ops);
    PlainContains(z, sessions, ops, a);
  }

  lemma NoneChosen<R>(z: Serializer<R>, sessions: map<Address, Bytes>)
    ensures Prefetched(z, sessions, {}) == map[] && Existing(z, sessions, {}) == map[]
  {
  }

  lemma OneMoreChosen<R>(z: Serializer<R>, sessions: map<Address, Bytes>, chosen: set<Address>, a: Address)
    ensures LoadPlain(z, sessions, a) == if a in sessions then z.parse(sessions[a]) else Some(z.blank)
    ensures Prefetched(z, sessions, chosen + {a})
         == match LoadPlain(z, sessions, a)
            case None => Prefetched(z, sessions, chosen)
            case Some(r) => Prefetched(z, sessions, chosen)[a := Entry(false, a in sessions, r)]
    ensures Existing(z, sessions, chosen + {a})
         == if LoadPlain(z, sessions, a).None? then Existing(z, sessions, chosen)
            else Existing(z, sessions, chosen)[a := a in sessions]
  {
  }

  // ---------- The code ----------

  class Device<R> {
    var sessions: map<Address, Bytes>
    var cache: Option<Cache<R>>

    ghost function Now(): State<R>
      reads this
    {
      State(sessions, cache)
    }

    constructor (sessions: map<Address, Bytes>)
      ensures Now() == State(sessions, None)
    {
      this.sessions, cache := sessions, None;
    }

    /** Every address asked for gets an entry, nil when there is no session. */
    method GetManySessions(addresses: seq<Address>) returns (rows: map<Address, Option<Bytes>>)
      ensures rows == map a | a in addresses :: if a in sessions then Some(sessions[a]) else None
    {
      rows := map[];
      for i := 0 to |addresses|
        invariant rows == map a | a in addresses[..i] :: if a in sessions then Some(sessions[a]) else None
      {
        var a := addresses[i];
        assert addresses[..i + 1] == addresses[..i] + [a];
        rows := rows[a := if a in sessions then Some(sessions[a]) else None];
      }
      assert addresses[..|addresses|] == addresses;
    }

    method WithCachedSessions(z: Serializer<R>, addresses: seq<Address>) returns (existing: map<Address, bool>)
      modifies this
      ensures Now() == Prefetch(z, old(Now()), addresses)
      ensures existing == Existing(z, sessions, Elements(addresses))
    {
      hide Prefetched, Existing, LoadPlain;
      NoneChosen(z, sessions);
      if |addresses| == 0 {
        assert Elements(addresses) == {};
        return map[];
      }
      var rows := GetManySessions(addresses);
      assert rows.Keys == Elements(addresses);
      var wrapped: Cache<R> := map[];
      existing := map[];
      ghost var done: set<Address> := {};
      var rest := rows.Keys;
      while rest != {}
        invariant done + rest == rows.Keys && Now() == old(Now())
        invariant wrapped == Prefetched(z, sessions, done) && existing == Existing(z, sessions, done)
        decreases rest
      {
        var a :| a in rest;
        OneMoreChosen(z, sessions, done, a);
        rest := rest - {a};
        done := done + {a};
        var raw, found, record := rows[a], false, z.blank;
        if raw.Some? {
          found := true;
          var parsed := z.parse(raw.value);
          if parsed.None? {
            continue;
          }
          record := parsed.value;
        }
        existing := existing[a := found];
        wrapped := wrapped[a := Entry(false, found, record)];
      }
      assert done == rows.Keys;
      cache := Some(wrapped);
    }

    method LoadSession(z: Serializer<R>, a: Address) returns (r: Option<R>)
      ensures r == Load(z, Now(), a)
    {
      if cache.Some? && a in cache.value {
        return Some(cache.value[a].record);
      }
      if a !in sessions {
        return Some(z.blank);
      }
      return z.parse(sessions[a]);
    }

    method ContainsSession(a: Address) returns (r: bool)
      ensures r <==> Contains(Now(), a)
    {
      r := a in sessions;
    }

    method StoreSession(z: Serializer<R>, a: Address, r: R)
      modifies this
      ensures Now() == Store(z, old(Now()), a, r)
    {
      if cache.Some? {
        cache := Some(cache.value[a := Entry(true, true, r)]);
        return;
      }
      sessions := sessions[a := z.serialize(r)];
    }

    method PutCachedSessions(z: Serializer<R>, fails: bool) returns (ok: bool)
      modifies this
      ensures Now() == Flush(z, old(Now()), fails)
      ensures !ok <==> fails && cache.Some? && Dirty(z, old(cache).value) != map[]
    {
      if cache.None? {
        return true;
      }
      var entries := cache.value;
      var dirty: map<Address, Bytes> := map[];
      var rest := entries.Keys;
      while rest != {}
        invariant rest <= entries.Keys && Now() == old(Now())
        invariant dirty == map a | a in entries && a !in rest && entries[a].dirty :: z.serialize(entries[a].record)
        decreases rest
      {
        var a :| a in rest;
        rest := rest - {a};
        if entries[a].dirty {
          dirty := dirty[a := z.serialize(entries[a].record)];
        }
      }
      assert dirty == Dirty(z, entries);
      if |dirty| > 0 {
        if fails {
          return false;
        }
        sessions := sessions + dirty;
      } else {
        assert sessions + dirty == sessions;
      }
      cache := Some(map[]);
      return true;
    }
  }
}
