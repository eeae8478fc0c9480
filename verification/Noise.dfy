/** The Noise handshake state, the XX handshake of the client, and the transport that follows it. */
module Noise {
  import opened ByteStrings

  type UInt32 = x: int | 0 <= x < 0x1_0000_0000

  const KEY_SIZE := 32

  const START_PATTERN := Ascii("Noise_XX_25519_AESGCM_SHA256") + [0, 0, 0, 0]

  /** Hash, AEAD and key derivation as functions: `seal` and `unseal` take key, IV, text and associated data. */
  datatype Crypto = Crypto(
    hash: Bytes -> Bytes,
    seal: (Bytes, Bytes, Bytes, Bytes) -> Bytes,
    unseal: (Bytes, Bytes, Bytes, Bytes) -> Option<Bytes>,
    expand: (Bytes, Bytes) -> (Bytes, Bytes)
  )

  ghost predicate Sized(c: Crypto)
  {
    && (forall x :: |c.hash(x)| == KEY_SIZE)
    && forall salt, data :: |c.expand(salt, data).0| == KEY_SIZE && |c.expand(salt, data).1| == KEY_SIZE
  }

  /** Unsealing undoes sealing. */
  ghost predicate Unseals(c: Crypto)
  {
    forall k, iv, p, ad :: c.unseal(k, iv, c.seal(k, iv, p, ad), ad) == Some(p)
  }

  /** An ideal AEAD: what was sealed is unsealed with the same key, IV and associated data, and with no others. */
  ghost predicate Ideal(c: Crypto)
  {
    forall k, iv, p, ad, k', iv', ad' ::
      c.unseal(k', iv', c.seal(k, iv, p, ad), ad')
      == if k' == k && iv' == iv && ad' == ad then Some(p) else None
  }

  // ---------- IVs ----------

  function GenerateIV(count: UInt32): (iv: Bytes)
    ensures |iv| == 12
  {
    [0, 0, 0, 0, 0, 0, 0, 0] + BigEndian(count, 4)
  }

  lemma IVsDiffer(m: UInt32, n: UInt32)
    ensures GenerateIV(m) == GenerateIV(n) <==> m == n
  {
    hide BigEndian;
    BigEndianInverse(m, 4);
    BigEndianInverse(n, 4);
    Pow256Four();
    assert GenerateIV(m)[8..] == BigEndian(m, 4) && GenerateIV(n)[8..] == BigEndian(n, 4);
  }

  lemma Pow256Four()
    ensures Pow256(4) == 0x1_0000_0000
  {
    assert Pow256(2) == 65536;
  }

  /** The next value of a 32-bit counter. */
  function Increment(n: UInt32): UInt32 {
    (n + 1) % 0x1_0000_0000
  }

  // ---------- The handshake state ----------

  datatype State = State(hash: Bytes, salt: Bytes, key: Bytes, counter: UInt32)

  function AuthenticateNext(c: Crypto, s: State, data: Bytes): State {
    s.(hash := c.hash(s.hash + data))
  }

  function StartNext(c: Crypto, s: State, pattern: Bytes, header: Bytes): State {
    var h := if |pattern| == KEY_SIZE then pattern else c.hash(pattern);
    AuthenticateNext(c, State(h, h, h, s.counter), header)
  }

  function EncryptNext(c: Crypto, s: State, plaintext: Bytes): (State, Bytes) {
    var ciphertext := c.seal(s.key, GenerateIV(s.counter), plaintext, s.hash);
    (AuthenticateNext(c, s.(counter := Increment(s.counter)), ciphertext), ciphertext)
  }

  /** A failed decryption still uses up its IV, and leaves the hash as it was. */
  function DecryptNext(c: Crypto, s: State, ciphertext: Bytes): (State, Option<Bytes>) {
    var t, plaintext := s.(counter := Increment(s.counter)), c.unseal(s.key, GenerateIV(s.counter), ciphertext, s.hash);
    (if plaintext.Some? then AuthenticateNext(c, t, ciphertext) else t, plaintext)
  }

  function MixNext(c: Crypto, s: State, data: Bytes): State {
    var (write, read) := c.expand(s.salt, data);
    State(s.hash, write, read, 0)
  }

  function FinalKeys(c: Crypto, s: State): (Bytes, Bytes) {
    c.expand(s.salt, [])
  }

  // ---------- Two parties in lock step ----------

  /** A step of a handshake: both sides authenticate or mix the same data, or one side says something to the other. */
  datatype Step = Auth(data: Bytes) | Mix(data: Bytes) | Say(byFirst: bool, plaintext: Bytes)

  datatype Pair = Pair(first: State, second: State, heard: seq<Option<Bytes>>)

  function PairNext(c: Crypto, p: Pair, step: Step): Pair {
    match step
    case Auth(data) => Pair(AuthenticateNext(c, p.first, data), AuthenticateNext(c, p.second, data), p.heard)
    case Mix(data) => Pair(MixNext(c, p.first, data), MixNext(c, p.second, data), p.heard)
    case Say(true, plaintext) =>
      var (first, ciphertext) := EncryptNext(c, p.first, plaintext);
      var (second, heard) := DecryptNext(c, p.second, ciphertext);
      Pair(first, second, p.heard + [heard])
    case Say(false, plaintext) =>
      var (second, ciphertext) := EncryptNext(c, p.second, plaintext);
      var (first, heard) := DecryptNext(c, p.first, ciphertext);
      Pair(first, second, p.heard + [heard])
  }

  function PairRun(c: Crypto, p: Pair, steps: seq<Step>): Pair {
    if steps == [] then p else PairNext(c, PairRun(c, p, steps[..|steps| - 1]), steps[|steps| - 1])
  }

  function Said(steps: seq<Step>): seq<Option<Bytes>> {
    if steps == [] then []
    else
      var last, before := steps[|steps| - 1], Said(steps[..|steps| - 1]);
      if last.Say? then before + [Some(last.plaintext)] else before
  }

  /** A message between equal states is heard, and leaves equal states. */
  lemma SameTurn(c: Crypto, s: State, plaintext: Bytes)
    requires Unseals(c)
    ensures var (t, ciphertext) := EncryptNext(c, s, plaintext); DecryptNext(c, s, ciphertext) == (t, Some(plaintext))
  {
    hide GenerateIV, Increment, AuthenticateNext;
    var iv := GenerateIV(s.counter);
    assert c.unseal(s.key, iv, c.seal(s.key, iv, plaintext, s.hash), s.hash) == Some(plaintext);
  }

  /** Two objects in equal states stay equal through any script, and everything said is heard. */
  lemma {:induction false} LockStep(c: Crypto, s: State, steps: seq<Step>)
    requires Unseals(c)
    ensures var p := PairRun(c, Pair(s, s, []), steps); p.first == p.second && p.heard == Said(steps)
  {
    hide EncryptNext, DecryptNext, AuthenticateNext, MixNext;
    if steps != [] {
      var before, last := steps[..|steps| - 1], steps[|steps| - 1];
      LockStep(c, s, before);
      if last.Say? {
        SameTurn(c, PairRun(c, Pair(s, s, []), before).first, last.plaintext);
      }
    }
  }

  /** With an ideal AEAD a message is accepted if and only if key, counter and transcript hash agree, and then they
  agree afterwards. */
  lemma AcceptsIff(c: Crypto, a: State, b: State, plaintext: Bytes)
    requires Ideal(c)
    ensures var (a', ciphertext) := EncryptNext(c, a, plaintext); var (b', heard) := DecryptNext(c, b, ciphertext);
            && (heard == Some(plaintext) <==> a.key == b.key && a.counter == b.counter && a.hash == b.hash)
            && (heard.Some? <==> heard == Some(plaintext))
            && (heard.Some? ==> a'.key == b'.key && a'.counter == b'.counter && a'.hash == b'.hash)
  {
    hide GenerateIV, Increment;
    IVsDiffer(a.counter, b.counter);
  }

  // ---------- IVs are not used twice ----------

  /** What one object does. */
  datatype Act = Authenticates(data: Bytes) | Mixes(data: Bytes) | Encrypts(plaintext: Bytes) | Decrypts(ciphertext: Bytes)

  function ActNext(c: Crypto, s: State, act: Act): State {
    match act
    case Authenticates(data) => AuthenticateNext(c, s, data)
    case Mixes(data) => MixNext(c, s, data)
    case Encrypts(plaintext) => EncryptNext(c, s, plaintext).0
    case Decrypts(ciphertext) => DecryptNext(c, s, ciphertext).0
  }

  function ActRun(c: Crypto, s: State, acts: seq<Act>): State {
    if acts == [] then s else ActNext(c, ActRun(c, s, acts[..|acts| - 1]), acts[|acts| - 1])
  }

  predicate UsesIV(act: Act)
  {
    act.Encrypts? || act.Decrypts?
  }

  function Uses(acts: seq<Act>): nat {
    if acts == [] then 0 else Uses(acts[..|acts| - 1]) + (if UsesIV(acts[|acts| - 1]) then 1 else 0)
  }

  predicate NoMix(acts: seq<Act>)
  {
    forall act | act in acts :: !act.Mixes?
  }

  lemma {:induction false} CounterCounts(c: Crypto, s: State, acts: seq<Act>)
    requires NoMix(acts)
    ensures ActRun(c, s, acts).counter == (s.counter + Uses(acts)) % 0x1_0000_0000
    ensures ActRun(c, s, acts).key == s.key
  {
    hide GenerateIV;
    if acts != [] {
      var before, last := acts[..|acts| - 1], acts[|acts| - 1];
      CounterCounts(c, s, before);
      assert last in acts;
      IncrementModulo(s.counter + Uses(before));
    }
  }

  lemma IncrementModulo(n: nat)
    ensures (n % 0x1_0000_0000 + 1) % 0x1_0000_0000 == (n + 1) % 0x1_0000_0000
  {
  }

  lemma {:induction false} UsesAppend(a: seq<Act>, b: seq<Act>)
    ensures Uses(a + b) == Uses(a) + Uses(b)
  {
    if b == [] {
      assert a + b == a;
    } else {
      assert (a + b)[..|a + b| - 1] == a + b[..|b| - 1];
      UsesAppend(a, b[..|b| - 1]);
    }
  }

  lemma UsesBetween(acts: seq<Act>, i: nat, j: nat)
    requires i < j < |acts| && UsesIV(acts[i])
    ensures Uses(acts[..j]) == Uses(acts[..i]) + Uses(acts[i..j]) && Uses(acts[i..j]) > 0
  {
    hide Uses;
    assert acts[..i] + acts[i..j] == acts[..j];
    UsesAppend(acts[..i], acts[i..j]);
    assert [acts[i]] + acts[i + 1..j] == acts[i..j];
    UsesAppend([acts[i]], acts[i + 1..j]);
    UsesOne(acts[i]);
  }

  lemma UsesOne(act: Act)
    ensures Uses([act]) == if UsesIV(act) then 1 else 0
  {
    assert [act][..0] == [];
  }

  lemma NoMixPrefix(acts: seq<Act>, n: nat)
    requires NoMix(acts) && n <= |acts|
    ensures NoMix(acts[..n])
  {
  }

  /** Between mixes, the IV of one use is that of an earlier use if and only if the number of uses from the one to the
  other is a multiple of 2^32. */
  lemma IVRepeatsIff(c: Crypto, s: State, acts: seq<Act>, i: nat, j: nat)
    requires NoMix(acts) && i < j < |acts| && UsesIV(acts[i]) && UsesIV(acts[j])
    ensures GenerateIV(ActRun(c, s, acts[..i]).counter) == GenerateIV(ActRun(c, s, acts[..j]).counter)
            <==> Uses(acts[i..j]) % 0x1_0000_0000 == 0
    ensures Uses(acts[i..j]) > 0
  {
    hide *;
    NoMixPrefix(acts, i);
    NoMixPrefix(acts, j);
    CounterCounts(c, s, acts[..i]);
    CounterCounts(c, s, acts[..j]);
    IVsDiffer(ActRun(c, s, acts[..i]).counter, ActRun(c, s, acts[..j]).counter);
    UsesBetween(acts, i, j);
    SameModulo(s.counter + Uses(acts[..i]), Uses(acts[i..j]));
  }

  lemma SameModulo(n: nat, d: nat)
    ensures n % 0x1_0000_0000 == (n + d) % 0x1_0000_0000 <==> d % 0x1_0000_0000 == 0
  {
  }

  lemma {:induction false} UsesBound(acts: seq<Act>)
    ensures Uses(acts) <= |acts|
  {
    if acts != [] {
      UsesBound(acts[..|acts| - 1]);
    }
  }

  /** So no IV is used twice with one key while fewer than 2^32 messages pass between mixes. */
  lemma IVsAreFresh(c: Crypto, s: State, acts: seq<Act>, i: nat, j: nat)
    requires NoMix(acts) && i < j < |acts| < 0x1_0000_0000 && UsesIV(acts[i]) && UsesIV(acts[j])
    ensures GenerateIV(ActRun(c, s, acts[..i]).counter) != GenerateIV(ActRun(c, s, acts[..j]).counter)
    ensures ActRun(c, s, acts[..i]).key == ActRun(c, s, acts[..j]).key
  {
    hide GenerateIV, ActRun, Uses;
    IVRepeatsIff(c, s, acts, i, j);
    UsesBound(acts[i..j]);
    CounterCounts(c, s, acts[..i]);
    CounterCounts(c, s, acts[..j]);
  }

  // ---------- The XX handshake ----------

  /** X25519 and the check of the server's certificate. */
  datatype Curve = Curve(pub: Bytes -> Bytes, dh: (Bytes, Bytes) -> Option<Bytes>, certified: (Bytes, Bytes) -> bool)

  ghost predicate Agrees(k: Curve)
  {
    && (forall a :: |k.pub(a)| == KEY_SIZE)
    && forall a, b :: k.dh(a, k.pub(b)).Some? && k.dh(a, k.pub(b)) == k.dh(b, k.pub(a))
  }

  datatype ServerHello = ServerHello(ephemeral: Bytes, staticKey: Bytes, payload: Bytes)

  datatype ClientFinish = ClientFinish(staticKey: Bytes, payload: Bytes)

  datatype Finished = Finished(message: ClientFinish, write: Bytes, read: Bytes)

  const FRESH := State([], [], [], 0)

  function MixShared(c: Crypto, k: Curve, s: State, priv: Bytes, pub: Bytes): Option<State> {
    match k.dh(priv, pub)
    case None => None
    case Some(secret) => Some(MixNext(c, s, secret))
  }

  /** `doHandshake`, from the server's answer on: `None` is an error. */
  function ClientSide(c: Crypto, k: Curve, header: Bytes, ephemeral: Bytes, noiseKey: Bytes, payload: Bytes,
                      hello: ServerHello): Option<Finished>
  {
    var s0 := AuthenticateNext(c, StartNext(c, FRESH, START_PATTERN, header), k.pub(ephemeral));
    if |hello.ephemeral| != KEY_SIZE then None
    else
      match MixShared(c, k, AuthenticateNext(c, s0, hello.ephemeral), ephemeral, hello.ephemeral)
      case None => None
      case Some(s1) =>
        var (s2, staticKey) := DecryptNext(c, s1, hello.staticKey);
        if staticKey.None? || |staticKey.value| != KEY_SIZE then None
        else
          match MixShared(c, k, s2, ephemeral, staticKey.value)
          case None => None
          case Some(s3) =>
            var (s4, cert) := DecryptNext(c, s3, hello.payload);
            if cert.None? || !k.certified(cert.value, staticKey.value) then None
            else
              var (s5, encryptedKey) := EncryptNext(c, s4, k.pub(noiseKey));
              match MixShared(c, k, s5, noiseKey, hello.ephemeral)
              case None => None
              case Some(s6) =>
                var (s7, encryptedPayload) := EncryptNext(c, s6, payload);
                var (write, read) := FinalKeys(c, s7);
                Some(Finished(ClientFinish(encryptedKey, encryptedPayload), write, read))
  }

  /** The responder of the XX pattern (section 7.5 of the Noise Protocol Framework, revision 34): its hello, and its
  state after it. */
  function ServerAnswer(c: Crypto, k: Curve, header: Bytes, clientEphemeral: Bytes, ephemeral: Bytes, staticKey: Bytes,
                        cert: Bytes): Option<(State, ServerHello)>
  {
    var s0 := AuthenticateNext(c, StartNext(c, FRESH, START_PATTERN, header), clientEphemeral);
    match MixShared(c, k, AuthenticateNext(c, s0, k.pub(ephemeral)), ephemeral, clientEphemeral)
    case None => None
    case Some(s1) =>
      var (s2, encryptedStatic) := EncryptNext(c, s1, k.pub(staticKey));
      match MixShared(c, k, s2, staticKey, clientEphemeral)
      case None => None
      case Some(s3) =>
        var (s4, encryptedCert) := EncryptNext(c, s3, cert);
        Some((s4, ServerHello(k.pub(ephemeral), encryptedStatic, encryptedCert)))
  }

  /** What the responder gets from the client's last message, and its transport keys: it writes with the second. */
  datatype Accepted = Accepted(clientKey: Bytes, payload: Bytes, write: Bytes, read: Bytes)

  function ServerAccept(c: Crypto, k: Curve, s: State, ephemeral: Bytes, message: ClientFinish): Option<Accepted>
  {
    var (s1, clientKey) := DecryptNext(c, s, message.staticKey);
    if clientKey.None? then None
    else
      match MixShared(c, k, s1, ephemeral, clientKey.value)
      case None => None
      case Some(s2) =>
        var (s3, payload) := DecryptNext(c, s2, message.payload);
        if payload.None? then None
        else
          var (first, second) := FinalKeys(c, s3);
          Some(Accepted(clientKey.value, payload.value, second, first))
  }

  lemma SharedMix(c: Crypto, k: Curve, s: State, a: Bytes, b: Bytes)
    requires Agrees(k)
    ensures MixShared(c, k, s, a, k.pub(b)).Some?
    ensures MixShared(c, k, s, a, k.pub(b)) == MixShared(c, k, s, b, k.pub(a))
  {
    hide MixNext;
    var one, other := k.dh(a, k.pub(b)), k.dh(b, k.pub(a));
    assert one.Some? && one == other;
  }

  /** Against an honest server whose certificate is accepted, the client's handshake succeeds, the server recovers the
  client's key and payload, and each side writes with the key the other reads with. */
  lemma HandshakeAgrees(c: Crypto, k: Curve, header: Bytes, ephemeral: Bytes, noiseKey: Bytes, payload: Bytes,
                        serverEphemeral: Bytes, serverStatic: Bytes, cert: Bytes)
    requires Unseals(c) && Agrees(k) && k.certified(cert, k.pub(serverStatic))
    ensures var answer := ServerAnswer(c, k, header, k.pub(ephemeral), serverEphemeral, serverStatic, cert);
            answer.Some? &&
            var (server, hello) := answer.value;
            var client := ClientSide(c, k, header, ephemeral, noiseKey, payload, hello);
            client.Some? &&
            ServerAccept(c, k, server, serverEphemeral, client.value.message)
            == Some(Accepted(k.pub(noiseKey), payload, client.value.read, client.value.write))
  {
    hide StartNext, AuthenticateNext, EncryptNext, DecryptNext, MixShared, FinalKeys;
    var start := AuthenticateNext(c, StartNext(c, FRESH, START_PATTERN, header), k.pub(ephemeral));
    var s0 := AuthenticateNext(c, start, k.pub(serverEphemeral));
    SharedMix(c, k, s0, serverEphemeral, ephemeral);
    var s1 := MixShared(c, k, s0, serverEphemeral, k.pub(ephemeral)).value;
    SameTurn(c, s1, k.pub(serverStatic));
    var s2 := EncryptNext(c, s1, k.pub(serverStatic)).0;
    SharedMix(c, k, s2, serverStatic, ephemeral);
    var s3 := MixShared(c, k, s2, serverStatic, k.pub(ephemeral)).value;
    SameTurn(c, s3, cert);
    var s4 := EncryptNext(c, s3, cert).0;
    SameTurn(c, s4, k.pub(noiseKey));
    var s5 := EncryptNext(c, s4, k.pub(noiseKey)).0;
    SharedMix(c, k, s5, noiseKey, serverEphemeral);
    var s6 := MixShared(c, k, s5, noiseKey, k.pub(serverEphemeral)).value;
    SameTurn(c, s6, payload);
  }

  // ---------- The transport ----------

  /** What happens to one direction of the transport: a frame is sent and arrives, or is counted but does not reach the
  peer, or something else arrives that does not unseal. */
  datatype Wire = Sent(plaintext: Bytes) | Lost(plaintext: Bytes) | Junk(bytes: Bytes)

  function Frame(c: Crypto, key: Bytes, counter: UInt32, plaintext: Bytes): Bytes {
    c.seal(key, GenerateIV(counter), plaintext, [])
  }

  function OpenFrame(c: Crypto, key: Bytes, counter: UInt32, frame: Bytes): Option<Bytes> {
    c.unseal(key, GenerateIV(counter), frame, [])
  }

  /** Both counters, and what the receiver's handler was given for each arrival. */
  datatype Link = Link(write: UInt32, read: UInt32, seen: seq<Option<Bytes>>)

  function LinkNext(c: Crypto, key: Bytes, l: Link, w: Wire): Link {
    match w
    case Sent(p) =>
      Link(Increment(l.write), Increment(l.read),
           l.seen + [OpenFrame(c, key, l.read, Frame(c, key, l.write, p))])
    case Lost(_) => l.(write := Increment(l.write))
    case Junk(bytes) => l.(read := Increment(l.read), seen := l.seen + [OpenFrame(c, key, l.read, bytes)])
  }

  function LinkRun(c: Crypto, key: Bytes, wires: seq<Wire>): Link {
    if wires == [] then Link(0, 0, []) else LinkNext(c, key, LinkRun(c, key, wires[..|wires| - 1]), wires[|wires| - 1])
  }

  function Plaintexts(wires: seq<Wire>): seq<Option<Bytes>>
    requires forall w | w in wires :: w.Sent?
  {
    seq(|wires|, i requires 0 <= i < |wires| => Some(wires[i].plaintext))
  }

  /** While every frame arrives and nothing else does, the counters advance together and every frame is opened. */
  lemma {:induction false} InOrderFramesOpen(c: Crypto, key: Bytes, wires: seq<Wire>)
    requires Unseals(c) && forall w | w in wires :: w.Sent?
    ensures var l := LinkRun(c, key, wires); l.write == l.read && l.seen == Plaintexts(wires)
  {
    hide GenerateIV, Increment;
    if wires != [] {
      var before, last := wires[..|wires| - 1], wires[|wires| - 1];
      assert last in wires;
      InOrderFramesOpen(c, key, before);
      assert Plaintexts(wires) == Plaintexts(before) + [Some(last.plaintext)];
    }
  }

  function Losses(wires: seq<Wire>): nat {
    if wires == [] then 0 else Losses(wires[..|wires| - 1]) + (if wires[|wires| - 1].Lost? then 1 else 0)
  }

  function Intrusions(wires: seq<Wire>): nat {
    if wires == [] then 0 else Intrusions(wires[..|wires| - 1]) + (if wires[|wires| - 1].Junk? then 1 else 0)
  }

  function Arrivals(wires: seq<Wire>): nat {
    if wires == [] then 0 else Arrivals(wires[..|wires| - 1]) + (if wires[|wires| - 1].Sent? then 1 else 0)
  }

  lemma {:induction false} LinkCounters(c: Crypto, key: Bytes, wires: seq<Wire>)
    ensures var l := LinkRun(c, key, wires);
            && l.write == (Arrivals(wires) + Losses(wires)) % 0x1_0000_0000
            && l.read == (Arrivals(wires) + Intrusions(wires)) % 0x1_0000_0000
  {
    hide Frame, OpenFrame;
    if wires != [] {
      var before := wires[..|wires| - 1];
      LinkCounters(c, key, before);
      IncrementModulo(Arrivals(before) + Losses(before));
      IncrementModulo(Arrivals(before) + Intrusions(before));
    }
  }

  /** With an ideal AEAD, a frame that arrives is opened if and only if as many frames were lost before it as
  intruders arrived, modulo 2^32: one frame lost on the way makes every later one unreadable. */
  lemma FrameOpensIff(c: Crypto, key: Bytes, wires: seq<Wire>, plaintext: Bytes)
    requires Ideal(c)
    ensures var l := LinkRun(c, key, wires);
            LinkNext(c, key, l, Sent(plaintext)).seen
            == l.seen + [if Losses(wires) % 0x1_0000_0000 == Intrusions(wires) % 0x1_0000_0000
                         then Some(plaintext) else None]
  {
    hide GenerateIV, Increment, LinkRun, Losses, Intrusions, Arrivals;
    var l := LinkRun(c, key, wires);
    LinkCounters(c, key, wires);
    IVsDiffer(l.write, l.read);
    SameSum(Arrivals(wires), Losses(wires), Intrusions(wires));
  }

  lemma SameSum(a: nat, b: nat, d: nat)
    ensures (a + b) % 0x1_0000_0000 == (a + d) % 0x1_0000_0000 <==> b % 0x1_0000_0000 == d % 0x1_0000_0000
  {
  }

  /** One frame lost, and the next does not open. */
  lemma OneLostFrame(c: Crypto, key: Bytes, lost: Bytes, plaintext: Bytes)
    requires Ideal(c)
    ensures LinkRun(c, key, [Lost(lost), Sent(plaintext)]).seen == [None]
  {
    hide LinkNext;
    var one, two := [Lost(lost)], [Lost(lost), Sent(plaintext)];
    assert one[..0] == [] && two[..1] == one;
    assert Losses([]) == 0 && Intrusions([]) == 0;
    FrameOpensIff(c, key, one, plaintext);
    LoseOne(c, key, lost);
  }

  lemma LoseOne(c: Crypto, key: Bytes, lost: Bytes)
    ensures LinkRun(c, key, [Lost(lost)]).seen == []
  {
    var one := [Lost(lost)];
    assert one[..0] == [];
  }

  // ---------- The code ----------

  class NoiseSocket {
    const writeKey: Bytes
    const readKey: Bytes
    var writeCounter: UInt32
    var readCounter: UInt32

    constructor (writeKey: Bytes, readKey: Bytes)
      ensures this.writeKey == writeKey && this.readKey == readKey && writeCounter == 0 && readCounter == 0
    {
      this.writeKey, this.readKey := writeKey, readKey;
      writeCounter, readCounter := 0, 0;
    }

    /** `None` when the context is over already; otherwise the frame handed to the frame socket, whose counter is used
    up whatever becomes of it. */
    method SendFrame(c: Crypto, cancelled: bool, plaintext: Bytes) returns (frame: Option<Bytes>)
      modifies this`writeCounter
      ensures frame == if cancelled then None else Some(Frame(c, writeKey, old(writeCounter), plaintext))
      ensures writeCounter == if cancelled then old(writeCounter) else Increment(old(writeCounter))
    {
      if cancelled {
        return None;
      }
      var ciphertext := c.seal(writeKey, GenerateIV(writeCounter), plaintext, []);
      writeCounter := (writeCounter + 1) % 0x1_0000_0000;
      return Some(ciphertext);
    }

    /** What the frame handler is given. */
    method ReceiveEncryptedFrame(c: Crypto, ciphertext: Bytes) returns (plaintext: Option<Bytes>)
      modifies this`readCounter
      ensures plaintext == OpenFrame(c, readKey, old(readCounter), ciphertext)
      ensures readCounter == Increment(old(readCounter))
    {
      plaintext := c.unseal(readKey, GenerateIV(readCounter), ciphertext, []);
      readCounter := (readCounter + 1) % 0x1_0000_0000;
    }
  }

  class NoiseHandshake {
    var hash: Bytes
    var salt: Bytes
    var key: Bytes
    var counter: UInt32

    ghost function Now(): State
      reads this
    {
      State(hash, salt, key, counter)
    }

    constructor ()
      ensures Now() == FRESH
    {
      hash, salt, key, counter := [], [], [], 0;
    }

    method Start(c: Crypto, pattern: Bytes, header: Bytes)
      requires Sized(c)
      modifies this
      ensures Now() == StartNext(c, old(Now()), pattern, header) && |key| == KEY_SIZE
    {
      if |pattern| == KEY_SIZE {
        hash := pattern;
      } else {
        hash := c.hash(pattern);
      }
      salt := hash;
      key := hash;
      Authenticate(c, header);
    }

    method Authenticate(c: Crypto, data: Bytes)
      modifies this`hash
      ensures Now() == AuthenticateNext(c, old(Now()), data)
    {
      hash := c.hash(hash + data);
    }

    method PostIncrementCounter() returns (n: UInt32)
      modifies this`counter
      ensures n == old(counter) && counter == Increment(old(counter))
    {
      counter := (counter + 1) % 0x1_0000_0000;
      n := (counter + 0xFFFF_FFFF) % 0x1_0000_0000;
    }

    method Encrypt(c: Crypto, plaintext: Bytes) returns (ciphertext: Bytes)
      modifies this
      ensures (Now(), ciphertext) == EncryptNext(c, old(Now()), plaintext)
    {
      var n := PostIncrementCounter();
      ciphertext := c.seal(key, GenerateIV(n), plaintext, hash);
      Authenticate(c, ciphertext);
    }

    method Decrypt(c: Crypto, ciphertext: Bytes) returns (plaintext: Option<Bytes>)
      modifies this
      ensures (Now(), plaintext) == DecryptNext(c, old(Now()), ciphertext)
    {
      var n := PostIncrementCounter();
      plaintext := c.unseal(key, GenerateIV(n), ciphertext, hash);
      if plaintext.Some? {
        Authenticate(c, ciphertext);
      }
    }

    method MixIntoKey(c: Crypto, data: Bytes)
      requires Sized(c)
      modifies this
      ensures Now() == MixNext(c, old(Now()), data) && |key| == KEY_SIZE
    {
      counter := 0;
      var keys := c.expand(salt, data);
      salt := keys.0;
      key := keys.1;
    }

    method MixSharedSecretIntoKey(c: Crypto, k: Curve, priv: Bytes, pub: Bytes) returns (ok: bool)
      requires Sized(c)
      modifies this
      ensures ok <==> MixShared(c, k, old(Now()), priv, pub).Some?
      ensures Now() == if ok then MixShared(c, k, old(Now()), priv, pub).value else old(Now())
    {
      var secret := k.dh(priv, pub);
      if secret.None? {
        return false;
      }
      MixIntoKey(c, secret.value);
      return true;
    }

    method Finish(c: Crypto) returns (socket: NoiseSocket)
      ensures fresh(socket) && (socket.writeKey, socket.readKey) == FinalKeys(c, Now())
      ensures socket.writeCounter == 0 && socket.readCounter == 0
    {
      var keys := c.expand(salt, []);
      socket := new NoiseSocket(keys.0, keys.1);
    }
  }

  /** The client's handshake over a fresh state: the last message to send and the transport it gets. */
  method DoHandshake(c: Crypto, k: Curve, header: Bytes, ephemeral: Bytes, noiseKey: Bytes, payload: Bytes,
                     hello: ServerHello)
    returns (r: Option<ClientFinish>, socket: NoiseSocket?)
    requires Sized(c)
    ensures var spec := ClientSide(c, k, header, ephemeral, noiseKey, payload, hello);
            && (r.Some? <==> spec.Some?) && (socket != null <==> spec.Some?)
            && (spec.Some? ==> Finished(r.value, socket.writeKey, socket.readKey) == spec.value)
    ensures socket != null ==> fresh(socket) && socket.writeCounter == 0 && socket.readCounter == 0
  {
    hide Sized, StartNext, AuthenticateNext, EncryptNext, DecryptNext, MixNext, FinalKeys, GenerateIV;
    r, socket := None, null;
    var nh := new NoiseHandshake();
    nh.Start(c, START_PATTERN, header);
    nh.Authenticate(c, k.pub(ephemeral));
    if |hello.ephemeral| != KEY_SIZE {
      return;
    }
    nh.Authenticate(c, hello.ephemeral);
    var ok := nh.MixSharedSecretIntoKey(c, k, ephemeral, hello.ephemeral);
    if !ok {
      return;
    }
    var staticDecrypted := nh.Decrypt(c, hello.staticKey);
    if staticDecrypted.None? || |staticDecrypted.value| != KEY_SIZE {
      return;
    }
    ok := nh.MixSharedSecretIntoKey(c, k, ephemeral, staticDecrypted.value);
    if !ok {
      return;
    }
    var certDecrypted := nh.Decrypt(c, hello.payload);
    if certDecrypted.None? || !k.certified(certDecrypted.value, staticDecrypted.value) {
      return;
    }
    var encryptedPubkey := nh.Encrypt(c, k.pub(noiseKey));
    ok := nh.MixSharedSecretIntoKey(c, k, noiseKey, hello.ephemeral);
    if !ok {
      return;
    }
    var encryptedPayload := nh.Encrypt(c, payload);
    socket := nh.Finish(c);
    r := Some(ClientFinish(encryptedPubkey, encryptedPayload));
  }
}
