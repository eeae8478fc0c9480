/** What a Noise state stands for: the transcript, the mixed keys and the messages since the last mix, and nothing else;
and its agreement with the symmetric state of the Noise Protocol Framework (revision 34). */
module NoiseTranscript {
  import opened ByteStrings
  import opened Noise

  // ---------- Chains of hashes ----------

  function Chain(c: Crypto, h: Bytes, ds: seq<Bytes>): Bytes {
    if ds == [] then h else c.hash(Chain(c, h, ds[..|ds| - 1]) + ds[|ds| - 1])
  }

  /** Everything that is hashed along a chain. */
  function Inputs(c: Crypto, h: Bytes, ds: seq<Bytes>): set<Bytes> {
    if ds == [] then {} else Inputs(c, h, ds[..|ds| - 1]) + {Chain(c, h, ds[..|ds| - 1]) + ds[|ds| - 1]}
  }

  predicate CollisionFree(c: Crypto, inputs: set<Bytes>)
  {
    forall x, y | x in inputs && y in inputs :: c.hash(x) == c.hash(y) ==> x == y
  }

  predicate NotHit(c: Crypto, inputs: set<Bytes>, h: Bytes)
  {
    forall x | x in inputs :: c.hash(x) != h
  }

  /** Two chains from one value that do not collide end alike if and only if they are over the same data. */
  lemma {:induction false} ChainBinds(c: Crypto, h: Bytes, ds: seq<Bytes>, es: seq<Bytes>)
    requires Sized(c) && |h| == KEY_SIZE && CollisionFree(c, Inputs(c, h, ds) + Inputs(c, h, es))
    requires |ds| == |es| || NotHit(c, Inputs(c, h, ds) + Inputs(c, h, es), h)
    ensures Chain(c, h, ds) == Chain(c, h, es) <==> ds == es
    decreases |ds|
  {
    if ds != [] && es != [] {
      var d, e := ds[..|ds| - 1], es[..|es| - 1];
      var x, y := ds[|ds| - 1], es[|es| - 1];
      assert ds == d + [x] && es == e + [y];
      ChainSize(c, h, d);
      ChainSize(c, h, e);
      if Chain(c, h, ds) == Chain(c, h, es) {
        assert Chain(c, h, d) + x == Chain(c, h, e) + y;
        assert (Chain(c, h, d) + x)[..KEY_SIZE] == Chain(c, h, d) && (Chain(c, h, e) + y)[..KEY_SIZE] == Chain(c, h, e);
        assert (Chain(c, h, d) + x)[KEY_SIZE..] == x && (Chain(c, h, e) + y)[KEY_SIZE..] == y;
        ChainBinds(c, h, d, e);
      }
    }
  }

  lemma ChainSize(c: Crypto, h: Bytes, ds: seq<Bytes>)
    requires Sized(c) && |h| == KEY_SIZE
    ensures |Chain(c, h, ds)| == KEY_SIZE
  {
  }

  /** One step: what was sealed after authenticating `a` opens for a peer that authenticated `b` from the same state if
  and only if they are the same. */
  lemma AuthenticationBinds(c: Crypto, s: State, a: Bytes, b: Bytes, plaintext: Bytes)
    requires Ideal(c) && (c.hash(s.hash + a) == c.hash(s.hash + b) ==> s.hash + a == s.hash + b)
    ensures DecryptNext(c, AuthenticateNext(c, s, b), EncryptNext(c, AuthenticateNext(c, s, a), plaintext).1).1
         == if a == b then Some(plaintext) else None
  {
    hide EncryptNext, DecryptNext;
    AcceptsIff(c, AuthenticateNext(c, s, a), AuthenticateNext(c, s, b), plaintext);
    assert (s.hash + a)[|s.hash|..] == a && (s.hash + b)[|s.hash|..] == b;
  }

  // ---------- The transcript of a run ----------

  /** What an act adds to the transcript: what it authenticates, the ciphertext it makes, or the one it opens. */
  function Added(c: Crypto, s: State, act: Act): seq<Bytes> {
    match act
    case Authenticates(data) => [data]
    case Mixes(_) => []
    case Encrypts(plaintext) => [EncryptNext(c, s, plaintext).1]
    case Decrypts(ciphertext) => if DecryptNext(c, s, ciphertext).1.Some? then [ciphertext] else []
  }

  function Transcript(c: Crypto, s: State, acts: seq<Act>): seq<Bytes> {
    if acts == [] then []
    else
      var before := acts[..|acts| - 1];
      Transcript(c, s, before) + Added(c, ActRun(c, s, before), acts[|acts| - 1])
  }

  lemma ChainPush(c: Crypto, h: Bytes, ds: seq<Bytes>, d: Bytes)
    ensures Chain(c, h, ds + [d]) == c.hash(Chain(c, h, ds) + d)
  {
    assert (ds + [d])[..|ds|] == ds;
  }

  lemma AddedIsHashed(c: Crypto, s: State, act: Act)
    ensures var added := Added(c, s, act); ActNext(c, s, act).hash == if added == [] then s.hash else c.hash(s.hash + added[0])
    ensures |Added(c, s, act)| <= 1
  {
    hide GenerateIV, Increment;
  }

  lemma {:induction false} HashIsTranscript(c: Crypto, s: State, acts: seq<Act>)
    ensures ActRun(c, s, acts).hash == Chain(c, s.hash, Transcript(c, s, acts))
  {
    hide ActNext, Added;
    if acts != [] {
      var before, act := acts[..|acts| - 1], acts[|acts| - 1];
      HashIsTranscript(c, s, before);
      AddedIsHashed(c, ActRun(c, s, before), act);
      var added := Added(c, ActRun(c, s, before), act);
      if added == [] {
        assert Transcript(c, s, acts) == Transcript(c, s, before);
      } else {
        assert added == [added[0]];
        ChainPush(c, s.hash, Transcript(c, s, before), added[0]);
      }
    }
  }

  // ---------- Mixed keys ----------

  function Mixed(acts: seq<Act>): seq<Bytes> {
    if acts == [] then []
    else
      var before, act := Mixed(acts[..|acts| - 1]), acts[|acts| - 1];
      if act.Mixes? then before + [act.data] else before
  }

  function Salt(c: Crypto, salt: Bytes, ds: seq<Bytes>): Bytes {
    if ds == [] then salt else c.expand(Salt(c, salt, ds[..|ds| - 1]), ds[|ds| - 1]).0
  }

  function Key(c: Crypto, s: State, ds: seq<Bytes>): Bytes {
    if ds == [] then s.key else c.expand(Salt(c, s.salt, ds[..|ds| - 1]), ds[|ds| - 1]).1
  }

  function Expansions(c: Crypto, salt: Bytes, ds: seq<Bytes>): set<(Bytes, Bytes)> {
    if ds == [] then {} else Expansions(c, salt, ds[..|ds| - 1]) + {(Salt(c, salt, ds[..|ds| - 1]), ds[|ds| - 1])}
  }

  /** Neither half of an expansion collides with another of its kind, or with what the state started with. */
  predicate KeysApart(c: Crypto, s: State, used: set<(Bytes, Bytes)>)
  {
    && (forall x, y | x in used && y in used :: c.expand(x.0, x.1).0 == c.expand(y.0, y.1).0 ==> x == y)
    && (forall x, y | x in used && y in used :: c.expand(x.0, x.1).1 == c.expand(y.0, y.1).1 ==> x == y)
    && forall x | x in used :: c.expand(x.0, x.1).0 != s.salt && c.expand(x.0, x.1).1 != s.key
  }

  /** What was expanded last. */
  function LastUse(c: Crypto, salt: Bytes, ds: seq<Bytes>): (Bytes, Bytes)
    requires ds != []
  {
    (Salt(c, salt, ds[..|ds| - 1]), ds[|ds| - 1])
  }

  lemma LastUsed(c: Crypto, s: State, ds: seq<Bytes>, used: set<(Bytes, Bytes)>)
    requires ds != [] && Expansions(c, s.salt, ds) <= used
    ensures var x := LastUse(c, s.salt, ds);
            && x in used && Salt(c, s.salt, ds) == c.expand(x.0, x.1).0 && Key(c, s, ds) == c.expand(x.0, x.1).1
            && ds == ds[..|ds| - 1] + [x.1] && x.0 == Salt(c, s.salt, ds[..|ds| - 1])
            && Expansions(c, s.salt, ds[..|ds| - 1]) <= used
  {
    assert LastUse(c, s.salt, ds) in Expansions(c, s.salt, ds);
  }

  lemma UsesApart(c: Crypto, s: State, used: set<(Bytes, Bytes)>, x: (Bytes, Bytes), y: (Bytes, Bytes))
    requires KeysApart(c, s, used) && x in used && y in used
    ensures c.expand(x.0, x.1).0 == c.expand(y.0, y.1).0 ==> x == y
    ensures c.expand(x.0, x.1).1 == c.expand(y.0, y.1).1 ==> x == y
    ensures c.expand(x.0, x.1).0 != s.salt && c.expand(x.0, x.1).1 != s.key
  {
  }

  lemma {:induction false} SaltBinds(c: Crypto, s: State, ds: seq<Bytes>, es: seq<Bytes>, used: set<(Bytes, Bytes)>)
    requires KeysApart(c, s, used) && Expansions(c, s.salt, ds) <= used && Expansions(c, s.salt, es) <= used
    ensures Salt(c, s.salt, ds) == Salt(c, s.salt, es) <==> ds == es
    decreases |ds|
  {
    hide KeysApart, Expansions, LastUse, Key;
    if ds != [] {
      LastUsed(c, s, ds, used);
      UsesApart(c, s, used, LastUse(c, s.salt, ds), LastUse(c, s.salt, ds));
    }
    if es != [] {
      LastUsed(c, s, es, used);
      UsesApart(c, s, used, LastUse(c, s.salt, es), LastUse(c, s.salt, es));
    }
    if ds != [] && es != [] {
      UsesApart(c, s, used, LastUse(c, s.salt, ds), LastUse(c, s.salt, es));
      SaltBinds(c, s, ds[..|ds| - 1], es[..|es| - 1], used);
    }
  }

  lemma KeyBinds(c: Crypto, s: State, ds: seq<Bytes>, es: seq<Bytes>)
    requires KeysApart(c, s, Expansions(c, s.salt, ds) + Expansions(c, s.salt, es))
    ensures Key(c, s, ds) == Key(c, s, es) <==> ds == es
  {
    hide KeysApart, Expansions, LastUse, Salt;
    var used := Expansions(c, s.salt, ds) + Expansions(c, s.salt, es);
    if ds != [] {
      LastUsed(c, s, ds, used);
      UsesApart(c, s, used, LastUse(c, s.salt, ds), LastUse(c, s.salt, ds));
    }
    if es != [] {
      LastUsed(c, s, es, used);
      UsesApart(c, s, used, LastUse(c, s.salt, es), LastUse(c, s.salt, es));
    }
    if ds != [] && es != [] {
      UsesApart(c, s, used, LastUse(c, s.salt, ds), LastUse(c, s.salt, es));
      SaltBinds(c, s, ds[..|ds| - 1], es[..|es| - 1], used);
    }
  }

  /** The messages since the last mix, or since before the run. */
  function SinceMix(s: State, acts: seq<Act>): nat {
    if acts == [] then s.counter
    else
      var act := acts[|acts| - 1];
      if act.Mixes? then 0 else SinceMix(s, acts[..|acts| - 1]) + (if UsesIV(act) then 1 else 0)
  }

  lemma {:induction false} RunIsMixed(c: Crypto, s: State, acts: seq<Act>)
    ensures var t := ActRun(c, s, acts);
            && t.salt == Salt(c, s.salt, Mixed(acts)) && t.key == Key(c, s, Mixed(acts))
            && t.counter == SinceMix(s, acts) % 0x1_0000_0000
  {
    hide GenerateIV;
    if acts != [] {
      var before, act := acts[..|acts| - 1], acts[|acts| - 1];
      RunIsMixed(c, s, before);
      IncrementModulo(SinceMix(s, before));
      if act.Mixes? {
        assert Mixed(acts)[..|Mixed(acts)| - 1] == Mixed(before);
      }
    }
  }

  /** Nothing collides in either of two runs. */
  predicate Apart(c: Crypto, s: State, mine: seq<Act>, theirs: seq<Act>)
  {
    var inputs := Inputs(c, s.hash, Transcript(c, s, mine)) + Inputs(c, s.hash, Transcript(c, s, theirs));
    && CollisionFree(c, inputs) && NotHit(c, inputs, s.hash)
    && KeysApart(c, s, Expansions(c, s.salt, Mixed(mine)) + Expansions(c, s.salt, Mixed(theirs)))
  }

  /** After any two runs from one state, the next message of the one opens for the other if and only if they agree on
  everything authenticated, on everything mixed in, and on the number of messages since the last mix modulo 2^32. */
  lemma MessageOpensIff(c: Crypto, s: State, mine: seq<Act>, theirs: seq<Act>, plaintext: Bytes)
    requires Ideal(c) && Sized(c) && |s.hash| == KEY_SIZE && Apart(c, s, mine, theirs)
    ensures DecryptNext(c, ActRun(c, s, theirs), EncryptNext(c, ActRun(c, s, mine), plaintext).1).1 == Some(plaintext)
            <==> Transcript(c, s, mine) == Transcript(c, s, theirs) && Mixed(mine) == Mixed(theirs)
                 && SinceMix(s, mine) % 0x1_0000_0000 == SinceMix(s, theirs) % 0x1_0000_0000
  {
    hide Ideal, Sized, EncryptNext, DecryptNext, ActRun, Transcript, Mixed, SinceMix, CollisionFree, NotHit, KeysApart,
         Inputs, Expansions, Chain, Key;
    AcceptsIff(c, ActRun(c, s, mine), ActRun(c, s, theirs), plaintext);
    HashIsTranscript(c, s, mine);
    HashIsTranscript(c, s, theirs);
    RunIsMixed(c, s, mine);
    RunIsMixed(c, s, theirs);
    ChainBinds(c, s.hash, Transcript(c, s, mine), Transcript(c, s, theirs));
    KeyBinds(c, s, Mixed(mine), Mixed(theirs));
  }

  // ---------- The handshake ----------

  function Greeting(header: Bytes, clientEphemeral: Bytes, serverEphemeral: Bytes): seq<Bytes> {
    [header, clientEphemeral, serverEphemeral]
  }

  lemma PatternSize()
    ensures |START_PATTERN| == KEY_SIZE
  {
  }

  lemma GreetingIsHashed(c: Crypto, header: Bytes, clientEphemeral: Bytes, serverEphemeral: Bytes)
    ensures AuthenticateNext(c, AuthenticateNext(c, StartNext(c, FRESH, START_PATTERN, header), clientEphemeral),
                             serverEphemeral).hash
         == Chain(c, START_PATTERN, Greeting(header, clientEphemeral, serverEphemeral))
  {
    PatternSize();
    ChainPush(c, START_PATTERN, [], header);
    ChainPush(c, START_PATTERN, [header], clientEphemeral);
    ChainPush(c, START_PATTERN, [header, clientEphemeral], serverEphemeral);
    assert [] + [header] == [header] && [header] + [clientEphemeral] == [header, clientEphemeral];
    assert [header, clientEphemeral] + [serverEphemeral] == Greeting(header, clientEphemeral, serverEphemeral);
  }

  /** The first ciphertext of a hello opens only for a client that said and heard the same so far. */
  lemma FirstCiphertext(c: Crypto, a: State, b: State, secret: Bytes, secret': Bytes, plaintext: Bytes)
    requires Ideal(c) && a.hash != b.hash
    ensures DecryptNext(c, MixNext(c, b, secret'), EncryptNext(c, MixNext(c, a, secret), plaintext).1).1 == None
  {
    hide EncryptNext, DecryptNext;
    AcceptsIff(c, MixNext(c, a, secret), MixNext(c, b, secret'), plaintext);
  }

  /** A client accepts the hello of an honest server only if the server started with the client's header and saw the
  client's ephemeral key: a replaced header or ephemeral is noticed. */
  lemma HandshakeBinds(c: Crypto, k: Curve, header: Bytes, ephemeral: Bytes, noiseKey: Bytes, payload: Bytes,
                       header': Bytes, seen: Bytes, serverEphemeral: Bytes, serverStatic: Bytes, cert: Bytes)
    requires Ideal(c) && Sized(c)
    requires CollisionFree(c, Inputs(c, START_PATTERN, Greeting(header, k.pub(ephemeral), k.pub(serverEphemeral)))
                              + Inputs(c, START_PATTERN, Greeting(header', seen, k.pub(serverEphemeral))))
    ensures var answer := ServerAnswer(c, k, header', seen, serverEphemeral, serverStatic, cert);
            answer.Some? && ClientSide(c, k, header, ephemeral, noiseKey, payload, answer.value.1).Some? ==>
            header == header' && seen == k.pub(ephemeral)
  {
    hide Ideal, Sized, StartNext, AuthenticateNext, EncryptNext, DecryptNext, MixNext, CollisionFree, Inputs, Chain,
         FinalKeys;
    var mine := Greeting(header, k.pub(ephemeral), k.pub(serverEphemeral));
    var theirs := Greeting(header', seen, k.pub(serverEphemeral));
    PatternSize();
    ChainBinds(c, START_PATTERN, mine, theirs);
    GreetingIsHashed(c, header, k.pub(ephemeral), k.pub(serverEphemeral));
    GreetingIsHashed(c, header', seen, k.pub(serverEphemeral));
    var client := AuthenticateNext(c, AuthenticateNext(c, StartNext(c, FRESH, START_PATTERN, header), k.pub(ephemeral)),
                                   k.pub(serverEphemeral));
    var server := AuthenticateNext(c, AuthenticateNext(c, StartNext(c, FRESH, START_PATTERN, header'), seen),
                                   k.pub(serverEphemeral));
    var a, b := k.dh(serverEphemeral, seen), k.dh(ephemeral, k.pub(serverEphemeral));
    if a.Some? && b.Some? && client.hash != server.hash {
      FirstCiphertext(c, server, client, a.value, b.value, k.pub(serverStatic));
    }
    assert mine == theirs ==> mine[0] == theirs[0] && mine[1] == theirs[1];
  }

  // ---------- The symmetric state of the framework ----------

  /** Sections 5.1 and 5.2: chaining key, hash, cipher key (empty before the first MixKey) and nonce. */
  datatype Symmetric = Symmetric(ck: Bytes, h: Bytes, k: Option<Bytes>, n: nat)

  /** InitializeSymmetric: a name of up to 32 bytes is padded with zeros, a longer one is hashed. */
  function InitializeSymmetric(c: Crypto, name: Bytes): Symmetric {
    var h := if |name| <= KEY_SIZE then name + seq(KEY_SIZE - |name|, i => 0) else c.hash(name);
    Symmetric(h, h, None, 0)
  }

  function MixHash(c: Crypto, r: Symmetric, data: Bytes): Symmetric {
    r.(h := c.hash(r.h + data))
  }

  function MixKey(c: Crypto, r: Symmetric, material: Bytes): Symmetric {
    var (ck, k) := c.expand(r.ck, material);
    r.(ck := ck, k := Some(k), n := 0)
  }

  /** Section 12.3: 32 bits of zeros and the nonce as a 64-bit big-endian number. */
  function Nonce(n: nat): Bytes {
    [0, 0, 0, 0] + BigEndian(n, 8)
  }

  function EncryptAndHash(c: Crypto, r: Symmetric, plaintext: Bytes): (Symmetric, Bytes) {
    match r.k
    case None => (MixHash(c, r, plaintext), plaintext)
    case Some(k) =>
      var ciphertext := c.seal(k, Nonce(r.n), plaintext, r.h);
      (MixHash(c, r.(n := r.n + 1), ciphertext), ciphertext)
  }

  /** `None` is an authentication failure, after which the state is as it was. */
  function DecryptAndHash(c: Crypto, r: Symmetric, ciphertext: Bytes): (Symmetric, Option<Bytes>) {
    match r.k
    case None => (MixHash(c, r, ciphertext), Some(ciphertext))
    case Some(k) =>
      match c.unseal(k, Nonce(r.n), ciphertext, r.h)
      case None => (r, None)
      case Some(plaintext) => (MixHash(c, r.(n := r.n + 1), ciphertext), Some(plaintext))
  }

  function Split(c: Crypto, r: Symmetric): (Bytes, Bytes) {
    c.expand(r.ck, [])
  }

  /** The code's state is the framework's, once there is a cipher key. */
  predicate Implements(s: State, r: Symmetric)
  {
    && s.hash == r.h && s.salt == r.ck
    && match r.k case None => true case Some(k) => s.key == k && s.counter == r.n
  }

  function Zeros(n: nat): (r: Bytes)
    ensures |r| == n
  {
    if n == 0 then [] else Zeros(n - 1) + [0]
  }

  lemma {:induction false} BigEndianZero(k: nat)
    ensures BigEndian(0, k) == Zeros(k)
  {
    if k > 0 {
      BigEndianZero(k - 1);
    }
  }

  /** A number that fits m bytes has zeros in front of them. */
  lemma {:induction false} HighBytesZero(n: nat, m: nat, k: nat)
    requires n < Pow256(m)
    ensures BigEndian(n, m + k) == Zeros(k) + BigEndian(n, m)
  {
    if m == 0 {
      BigEndianZero(k);
      assert Zeros(k) + BigEndian(n, 0) == Zeros(k);
    } else {
      Shrinks(n, m);
      HighBytesZero(n / 256, m - 1, k);
      Associate(Zeros(k), BigEndian(n / 256, m - 1), [n % 256]);
    }
  }

  lemma Shrinks(n: nat, m: nat)
    requires m > 0 && n < Pow256(m)
    ensures n / 256 < Pow256(m - 1)
  {
  }

  /** The IV of the code is the nonce of the framework. */
  lemma IVIsNonce(n: UInt32)
    ensures GenerateIV(n) == Nonce(n)
  {
    hide BigEndian;
    Pow256Four();
    HighBytesZero(n, 4, 4);
    assert Zeros(4) == [0, 0, 0, 0];
  }

  /** The pattern is the name of the protocol, padded: starting is InitializeSymmetric and the prologue. */
  lemma StartImplements(c: Crypto, header: Bytes)
    ensures START_PATTERN == Ascii("Noise_XX_25519_AESGCM_SHA256") + [0, 0, 0, 0]
    ensures Implements(StartNext(c, FRESH, START_PATTERN, header),
                       MixHash(c, InitializeSymmetric(c, Ascii("Noise_XX_25519_AESGCM_SHA256")), header))
  {
    PatternSize();
    var zeros: Bytes := seq(4, i => 0);
    assert zeros == [0, 0, 0, 0];
  }

  lemma AuthenticateImplements(c: Crypto, s: State, r: Symmetric, data: Bytes)
    requires Implements(s, r)
    ensures Implements(AuthenticateNext(c, s, data), MixHash(c, r, data))
  {
  }

  lemma MixImplements(c: Crypto, s: State, r: Symmetric, material: Bytes)
    requires Implements(s, r)
    ensures Implements(MixNext(c, s, material), MixKey(c, r, material))
  {
  }

  lemma EncryptImplements(c: Crypto, s: State, r: Symmetric, plaintext: Bytes)
    requires Implements(s, r) && r.k.Some? && r.n + 1 < 0x1_0000_0000
    ensures var (s', ciphertext) := EncryptNext(c, s, plaintext); var (r', expected) := EncryptAndHash(c, r, plaintext);
            Implements(s', r') && ciphertext == expected
  {
    hide GenerateIV, Nonce;
    IVIsNonce(s.counter);
  }

  /** A message that opens leaves the states alike; one that does not costs the code a nonce, and not the framework. */
  lemma DecryptImplements(c: Crypto, s: State, r: Symmetric, ciphertext: Bytes)
    requires Implements(s, r) && r.k.Some? && r.n + 1 < 0x1_0000_0000
    ensures var (s', plaintext) := DecryptNext(c, s, ciphertext); var (r', expected) := DecryptAndHash(c, r, ciphertext);
            plaintext == expected && (Implements(s', r') <==> plaintext.Some?)
  {
    hide GenerateIV, Nonce;
    IVIsNonce(s.counter);
  }

  lemma SplitImplements(c: Crypto, s: State, r: Symmetric)
    requires Implements(s, r)
    ensures FinalKeys(c, s) == Split(c, r)
  {
  }

  function SymmetricNext(c: Crypto, r: Symmetric, act: Act): Symmetric {
    match act
    case Authenticates(data) => MixHash(c, r, data)
    case Mixes(data) => MixKey(c, r, data)
    case Encrypts(plaintext) => EncryptAndHash(c, r, plaintext).0
    case Decrypts(ciphertext) => DecryptAndHash(c, r, ciphertext).0
  }

  function SymmetricRun(c: Crypto, r: Symmetric, acts: seq<Act>): Symmetric {
    if acts == [] then r else SymmetricNext(c, SymmetricRun(c, r, acts[..|acts| - 1]), acts[|acts| - 1])
  }

  /** An act that keeps the code and the framework alike: messages come after a mix, fewer than 2^32 of them, and open. */
  predicate Proper(c: Crypto, r: Symmetric, act: Act)
  {
    UsesIV(act) ==>
      && r.k.Some? && r.n + 1 < 0x1_0000_0000
      && (act.Decrypts? ==> DecryptAndHash(c, r, act.ciphertext).1.Some?)
  }

  /** Over every run of such acts the code's state is the framework's. */
  lemma {:induction false} RunImplements(c: Crypto, s: State, r: Symmetric, acts: seq<Act>)
    requires Implements(s, r)
    requires forall i :: 0 <= i < |acts| ==> Proper(c, SymmetricRun(c, r, acts[..i]), acts[i])
    ensures Implements(ActRun(c, s, acts), SymmetricRun(c, r, acts))
  {
    hide EncryptNext, DecryptNext, EncryptAndHash, DecryptAndHash, Implements, AuthenticateNext, MixNext, MixHash, MixKey;
    if acts != [] {
      var before, act := acts[..|acts| - 1], acts[|acts| - 1];
      forall i | 0 <= i < |before| ensures Proper(c, SymmetricRun(c, r, before[..i]), before[i]) {
        assert before[..i] == acts[..i];
      }
      RunImplements(c, s, r, before);
      var t, u := ActRun(c, s, before), SymmetricRun(c, r, before);
      match act
      case Authenticates(data) => AuthenticateImplements(c, t, u, data);
      case Mixes(data) => MixImplements(c, t, u, data);
      case Encrypts(plaintext) => EncryptImplements(c, t, u, plaintext);
      case Decrypts(ciphertext) => DecryptImplements(c, t, u, ciphertext);
    }
  }

  // ---------- The client as an initiator of the framework ----------

  /** What the initiator has said before it hears anything: its name for the protocol, the prologue, and the token e. */
  function Opening(c: Crypto, k: Curve, header: Bytes, e: Bytes): Symmetric {
    MixHash(c, MixHash(c, InitializeSymmetric(c, Ascii("Noise_XX_25519_AESGCM_SHA256")), header), k.pub(e))
  }

  /** The tokens "e, ee, s, es" of the responder's message, read: the responder's static key, and its payload. */
  function ReadXX(c: Crypto, k: Curve, r: Symmetric, e: Bytes, hello: ServerHello): Option<(Symmetric, Bytes, Bytes)>
  {
    var ee := k.dh(e, hello.ephemeral);
    if |hello.ephemeral| != KEY_SIZE || ee.None? then None
    else
      var (r1, rs) := DecryptAndHash(c, MixKey(c, MixHash(c, r, hello.ephemeral), ee.value), hello.staticKey);
      if rs.None? || |rs.value| != KEY_SIZE || k.dh(e, rs.value).None? then None
      else
        match DecryptAndHash(c, MixKey(c, r1, k.dh(e, rs.value).value), hello.payload)
        case (_, None) => None
        case (r2, Some(payload)) => Some((r2, rs.value, payload))
  }

  /** The tokens "s, se" of the initiator's last message, written. */
  function WriteXX(c: Crypto, k: Curve, r: Symmetric, s: Bytes, re: Bytes, payload: Bytes): Option<Finished>
  {
    match k.dh(s, re)
    case None => None
    case Some(se) =>
      var (r1, key) := EncryptAndHash(c, r, k.pub(s));
      var (r2, sealed) := EncryptAndHash(c, MixKey(c, r1, se), payload);
      Some(Finished(ClientFinish(key, sealed), Split(c, r2).0, Split(c, r2).1))
  }

  /** A message after a mix or two leaves the nonce small. */
  lemma NoncesStaySmall(c: Crypto, r: Symmetric, data: Bytes)
    ensures MixKey(c, r, data).k.Some? && MixKey(c, r, data).n == 0
    ensures r.k.Some? ==> EncryptAndHash(c, r, data).0.k.Some? && EncryptAndHash(c, r, data).0.n == r.n + 1
    ensures r.k.Some? ==> DecryptAndHash(c, r, data).0.k.Some? && DecryptAndHash(c, r, data).0.n <= r.n + 1
  {
  }

  /** Mix, then decrypt: the step that the client takes twice. */
  lemma HearImplements(c: Crypto, s: State, r: Symmetric, secret: Bytes, ciphertext: Bytes)
    requires Implements(s, r)
    ensures var (s', plaintext) := DecryptNext(c, MixNext(c, s, secret), ciphertext);
            var (r', expected) := DecryptAndHash(c, MixKey(c, r, secret), ciphertext);
            && plaintext == expected && (plaintext.Some? ==> Implements(s', r'))
            && r'.k.Some? && r'.n <= 1
  {
    hide DecryptNext, DecryptAndHash, MixNext, MixKey, Implements;
    MixImplements(c, s, r, secret);
    NoncesStaySmall(c, r, secret);
    NoncesStaySmall(c, MixKey(c, r, secret), ciphertext);
    DecryptImplements(c, MixNext(c, s, secret), MixKey(c, r, secret), ciphertext);
  }

  lemma OpeningImplements(c: Crypto, k: Curve, header: Bytes, e: Bytes, re: Bytes)
    ensures Implements(AuthenticateNext(c, AuthenticateNext(c, StartNext(c, FRESH, START_PATTERN, header), k.pub(e)), re),
                       MixHash(c, Opening(c, k, header, e), re))
  {
    hide AuthenticateNext, MixHash, StartNext, Implements;
    StartImplements(c, header);
    var s := StartNext(c, FRESH, START_PATTERN, header);
    var r := MixHash(c, InitializeSymmetric(c, Ascii("Noise_XX_25519_AESGCM_SHA256")), header);
    AuthenticateImplements(c, s, r, k.pub(e));
    AuthenticateImplements(c, AuthenticateNext(c, s, k.pub(e)), MixHash(c, r, k.pub(e)), re);
  }

  /** The client's last message and its keys, from the state behind the certificate on. */
  function Finishing(c: Crypto, k: Curve, s: State, noiseKey: Bytes, re: Bytes, payload: Bytes): Option<Finished>
  {
    var (s5, encryptedKey) := EncryptNext(c, s, k.pub(noiseKey));
    match MixShared(c, k, s5, noiseKey, re)
    case None => None
    case Some(s6) =>
      var (s7, encryptedPayload) := EncryptNext(c, s6, payload);
      Some(Finished(ClientFinish(encryptedKey, encryptedPayload), FinalKeys(c, s7).0, FinalKeys(c, s7).1))
  }

  lemma FinishingImplements(c: Crypto, k: Curve, s: State, r: Symmetric, noiseKey: Bytes, re: Bytes, payload: Bytes)
    requires Implements(s, r) && r.k.Some? && r.n <= 1
    ensures Finishing(c, k, s, noiseKey, re, payload) == WriteXX(c, k, r, noiseKey, re, payload)
  {
    hide EncryptNext, EncryptAndHash, MixNext, MixKey, Implements, FinalKeys, Split;
    EncryptImplements(c, s, r, k.pub(noiseKey));
    if k.dh(noiseKey, re).Some? {
      var se := k.dh(noiseKey, re).value;
      var s5, r5 := EncryptNext(c, s, k.pub(noiseKey)).0, EncryptAndHash(c, r, k.pub(noiseKey)).0;
      MixImplements(c, s5, r5, se);
      NoncesStaySmall(c, r5, se);
      EncryptImplements(c, MixNext(c, s5, se), MixKey(c, r5, se), payload);
      SplitImplements(c, EncryptNext(c, MixNext(c, s5, se), payload).0, EncryptAndHash(c, MixKey(c, r5, se), payload).0);
    }
  }

  /** The client is an initiator of the XX pattern of section 7.5 that also checks the certificate in the payload:
  it succeeds on the same answers, with the same last message and the same transport keys. */
  lemma ClientIsInitiator(c: Crypto, k: Curve, header: Bytes, ephemeral: Bytes, noiseKey: Bytes, payload: Bytes,
                          hello: ServerHello)
    ensures ClientSide(c, k, header, ephemeral, noiseKey, payload, hello)
            == match ReadXX(c, k, Opening(c, k, header, ephemeral), ephemeral, hello)
               case None => None
               case Some((r, static_, cert)) =>
                 if !k.certified(cert, static_) then None else WriteXX(c, k, r, noiseKey, hello.ephemeral, payload)
  {
    hide AuthenticateNext, MixHash, StartNext, MixNext, MixKey, DecryptNext, DecryptAndHash, EncryptNext, Implements,
         FinalKeys, Opening, WriteXX;
    var r0 := Opening(c, k, header, ephemeral);
    var s0 := AuthenticateNext(c, StartNext(c, FRESH, START_PATTERN, header), k.pub(ephemeral));
    OpeningImplements(c, k, header, ephemeral, hello.ephemeral);
    var sa, ra := AuthenticateNext(c, s0, hello.ephemeral), MixHash(c, r0, hello.ephemeral);
    if |hello.ephemeral| == KEY_SIZE && k.dh(ephemeral, hello.ephemeral).Some? {
      var ee := k.dh(ephemeral, hello.ephemeral).value;
      HearImplements(c, sa, ra, ee, hello.staticKey);
      var (s2, heard) := DecryptNext(c, MixNext(c, sa, ee), hello.staticKey);
      var r2 := DecryptAndHash(c, MixKey(c, ra, ee), hello.staticKey).0;
      if heard.Some? && |heard.value| == KEY_SIZE && k.dh(ephemeral, heard.value).Some? {
        var es := k.dh(ephemeral, heard.value).value;
        HearImplements(c, s2, r2, es, hello.payload);
        var (s4, cert) := DecryptNext(c, MixNext(c, s2, es), hello.payload);
        var r4 := DecryptAndHash(c, MixKey(c, r2, es), hello.payload).0;
        if cert.Some? {
          FinishingImplements(c, k, s4, r4, noiseKey, hello.ephemeral, payload);
        }
      }
    }
  }

  /** The framework hashes the payload of the first message too, and here it is empty; the code leaves that step out. */
  lemma FirstPayloadIsNotHashed(c: Crypto, k: Curve, header: Bytes, e: Bytes)
    ensures var r := Opening(c, k, header, e); var (r', payload) := EncryptAndHash(c, r, []);
            payload == [] && (r' == r <==> c.hash(r.h) == r.h)
  {
    var r := Opening(c, k, header, e);
    assert r.h + [] == r.h;
  }
}
