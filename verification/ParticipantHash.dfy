/** The hash of a device list: sorted, joined, hashed. */
module ParticipantHash {
  import opened ByteStrings
  import opened Collections
  import opened Jid
  import JidText

  // ---------- Sorting strings ----------

  /** Go's order on strings: byte by byte, a prefix first. */
  predicate Le(a: Bytes, b: Bytes)
  {
    a == [] || (b != [] && (a[0] < b[0] || (a[0] == b[0] && Le(a[1..], b[1..]))))
  }

  /** The strings agree before position k and the first has the smaller byte there. */
  predicate SmallerAt(a: Bytes, b: Bytes, k: int)
  {
    0 <= k < |a| && k < |b| && a[..k] == b[..k] && a[k] < b[k]
  }

  lemma {:induction false} LeBehindPrefix(a: Bytes, b: Bytes, k: nat)
    requires k <= |a| && k <= |b| && a[..k] == b[..k]
    ensures Le(a, b) <==> Le(a[k..], b[k..])
  {
    if k > 0 {
      assert a[0] == a[..k][0] == b[..k][0] == b[0];
      assert a[1..][..k - 1] == a[..k][1..] && b[1..][..k - 1] == b[..k][1..];
      LeBehindPrefix(a[1..], b[1..], k - 1);
      assert a[1..][k - 1..] == a[k..] && b[1..][k - 1..] == b[k..];
    }
  }

  lemma {:induction false} LeSplits(a: Bytes, b: Bytes) returns (k: nat)
    requires Le(a, b)
    ensures k <= |a| && k <= |b| && a[..k] == b[..k] && (k < |a| ==> SmallerAt(a, b, k))
  {
    k := 0;
    if a != [] && a[0] == b[0] {
      var j := LeSplits(a[1..], b[1..]);
      k := j + 1;
      assert a[..k] == [a[0]] + a[1..][..j] && b[..k] == [b[0]] + b[1..][..j];
    }
  }

  /** The order, said without its recursion: a prefix comes first, and otherwise the first different byte decides. */
  lemma LeIff(a: Bytes, b: Bytes)
    ensures Le(a, b) <==> a <= b || exists k :: SmallerAt(a, b, k)
  {
    if Le(a, b) {
      var k := LeSplits(a, b);
      assert k == |a| ==> a == a[..k] <= b;
    }
    if a <= b {
      LeBehindPrefix(a, b, |a|);
    }
    forall k | SmallerAt(a, b, k) ensures Le(a, b) {
      LeBehindPrefix(a, b, k);
    }
  }

  predicate IsSorted(s: seq<Bytes>)
  {
    forall i, j :: 0 <= i < j < |s| ==> Le(s[i], s[j])
  }

  lemma {:induction false} LeTotal(a: Bytes, b: Bytes)
    ensures Le(a, b) || Le(b, a)
  {
    if a != [] && b != [] {
      LeTotal(a[1..], b[1..]);
    }
  }

  lemma {:induction false} LeTransitive(a: Bytes, b: Bytes, c: Bytes)
    requires Le(a, b) && Le(b, c)
    ensures Le(a, c)
  {
    if a != [] && b != [] && c != [] {
      if Le(a[1..], b[1..]) && Le(b[1..], c[1..]) {
        LeTransitive(a[1..], b[1..], c[1..]);
      }
    }
  }

  lemma {:induction false} LeAntisymmetric(a: Bytes, b: Bytes)
    requires Le(a, b) && Le(b, a)
    ensures a == b
  {
    if a != [] && b != [] {
      LeAntisymmetric(a[1..], b[1..]);
      assert a == [a[0]] + a[1..] && b == [b[0]] + b[1..];
    }
  }

  function Insert(x: Bytes, s: seq<Bytes>): (r: seq<Bytes>)
    ensures |r| == |s| + 1
  {
    if s == [] || Le(x, s[0]) then [x] + s else [s[0]] + Insert(x, s[1..])
  }

  function Sort(s: seq<Bytes>): (r: seq<Bytes>)
    ensures |r| == |s|
  {
    if s == [] then [] else Insert(s[0], Sort(s[1..]))
  }

  lemma {:induction false} InsertMultiset(x: Bytes, s: seq<Bytes>)
    ensures multiset(Insert(x, s)) == multiset(s) + multiset{x}
  {
    hide Le;
    if s == [] || Le(x, s[0]) {
      PushMultiset(x, s);
    } else {
      InsertMultiset(x, s[1..]);
      PushMultiset(s[0], Insert(x, s[1..]));
      TailMultiset(s);
    }
  }

  lemma PushMultiset<T>(x: T, s: seq<T>)
    ensures multiset([x] + s) == multiset(s) + multiset{x}
  {
  }

  lemma TailMultiset<T>(s: seq<T>)
    requires s != []
    ensures multiset(s) == multiset(s[1..]) + multiset{s[0]}
    ensures s == [s[0]] + s[1..]
  {
    assert s == [s[0]] + s[1..];
  }

  lemma {:induction false} InsertMembers(x: Bytes, s: seq<Bytes>)
    ensures forall y :: y in Insert(x, s) ==> y == x || y in s
  {
    hide Le;
    if s != [] {
      InsertMembers(x, s[1..]);
    }
  }

  lemma {:induction false} InsertSorted(x: Bytes, s: seq<Bytes>)
    requires IsSorted(s)
    ensures IsSorted(Insert(x, s))
  {
    hide Le;
    if s == [] {
    } else if Le(x, s[0]) {
      forall j | 0 <= j < |s| ensures Le(x, s[j]) {
        if j > 0 {
          LeTransitive(x, s[0], s[j]);
        }
      }
    } else {
      LeTotal(x, s[0]);
      InsertSorted(x, s[1..]);
      InsertMembers(x, s[1..]);
      PushSorted(s[0], Insert(x, s[1..]));
    }
  }

  lemma PushSorted(least: Bytes, s: seq<Bytes>)
    requires IsSorted(s) && forall y :: y in s ==> Le(least, y)
    ensures IsSorted([least] + s)
  {
    hide Le;
  }

  lemma {:induction false} SortSorts(s: seq<Bytes>)
    ensures IsSorted(Sort(s)) && multiset(Sort(s)) == multiset(s)
  {
    hide Insert, IsSorted;
    if s == [] {
      NothingSorted();
    } else {
      SortSorts(s[1..]);
      InsertSorted(s[0], Sort(s[1..]));
      InsertMultiset(s[0], Sort(s[1..]));
      TailMultiset(s);
    }
  }

  lemma NothingSorted()
    ensures IsSorted([])
  {
  }

  lemma LeastFirst(a: seq<Bytes>, b: seq<Bytes>)
    requires IsSorted(a) && a != [] && b != [] && multiset(a) == multiset(b)
    ensures Le(a[0], b[0])
  {
    hide Le;
    SameMember(a, b, b[0]);
    var i :| 0 <= i < |a| && a[i] == b[0];
    LeTotal(a[0], a[0]);
  }

  lemma SameMember<T>(a: seq<T>, b: seq<T>, x: T)
    requires multiset(a) == multiset(b) && x in b
    ensures x in a
  {
    assert x in multiset(b);
  }

  lemma SameSize<T>(a: seq<T>, b: seq<T>)
    requires multiset(a) == multiset(b)
    ensures |a| == |b|
  {
    assert |a| == |multiset(a)| && |b| == |multiset(b)|;
  }

  lemma SameTails<T>(a: seq<T>, b: seq<T>)
    requires a != [] && b != [] && multiset(a) == multiset(b) && a[0] == b[0]
    ensures multiset(a[1..]) == multiset(b[1..])
  {
    TailMultiset(a);
    TailMultiset(b);
    assert multiset(a[1..]) == multiset(a) - multiset{a[0]} && multiset(b[1..]) == multiset(b) - multiset{b[0]};
  }

  lemma SortedTail(s: seq<Bytes>)
    requires IsSorted(s) && s != []
    ensures IsSorted(s[1..]) && s == [s[0]] + s[1..]
  {
    hide Le;
  }

  /** There is one sorted arrangement. */
  lemma {:induction false} SortedUnique(a: seq<Bytes>, b: seq<Bytes>)
    requires IsSorted(a) && IsSorted(b) && multiset(a) == multiset(b)
    ensures a == b
  {
    hide *;
    SameSize(a, b);
    if a != [] {
      LeastFirst(a, b);
      LeastFirst(b, a);
      LeAntisymmetric(a[0], b[0]);
      SortedTail(a);
      SortedTail(b);
      SameTails(a, b);
      SortedUnique(a[1..], b[1..]);
    }
  }

  // ---------- The hash ----------

  /** SHA-256, and base64 without padding. */
  datatype Digest = Digest(sha256: Bytes -> Bytes, base64: Bytes -> Bytes)

  ghost predicate Sized(d: Digest)
  {
    forall x :: |d.sha256(x)| == 32
  }

  function Strings(devices: seq<JID>): (r: seq<Bytes>)
    ensures |r| == |devices|
  {
    seq(|devices|, i requires 0 <= i < |devices| => JidText.ADString(devices[i]))
  }

  function Concat(strings: seq<Bytes>): Bytes {
    if strings == [] then [] else strings[0] + Concat(strings[1..])
  }

  /** The text that is hashed. */
  function Canonical(devices: seq<JID>): Bytes {
    Concat(Sort(Strings(devices)))
  }

  function HashOf(d: Digest, text: Bytes): Bytes
    requires Sized(d)
  {
    Ascii("2:") + d.base64(d.sha256(text)[..6])
  }

  function Mapped<T, U>(f: T -> U, s: seq<T>): (r: seq<U>)
    ensures |r| == |s| && forall i :: 0 <= i < |s| ==> r[i] == f(s[i])
  {
    seq(|s|, i requires 0 <= i < |s| => f(s[i]))
  }

  lemma {:induction false} MappedMultiset<T, U>(f: T -> U, a: seq<T>, b: seq<T>)
    requires multiset(a) == multiset(b)
    ensures multiset(Mapped(f, a)) == multiset(Mapped(f, b))
    decreases |a|
  {
    hide *;
    SameSize(a, b);
    if a == [] {
      assert b == a;
    } else {
      SameMember(b, a, a[0]);
      var k :| 0 <= k < |b| && b[k] == a[0];
      var b' := b[..k] + b[k + 1..];
      TailMultiset(a);
      WithoutOne(b, k);
      CancelOne(multiset(a[1..]), multiset(b'), a[0]);
      MappedMultiset(f, a[1..], b');
      MappedTail(f, a);
      MappedWithout(f, b, k);
    }
  }

  lemma MappedTail<T, U>(f: T -> U, a: seq<T>)
    requires a != []
    ensures multiset(Mapped(f, a)) == multiset(Mapped(f, a[1..])) + multiset{f(a[0])}
  {
    assert Mapped(f, a)[1..] == Mapped(f, a[1..]);
    TailMultiset(Mapped(f, a));
  }

  lemma MappedWithout<T, U>(f: T -> U, b: seq<T>, k: nat)
    requires k < |b|
    ensures multiset(Mapped(f, b)) == multiset(Mapped(f, b[..k] + b[k + 1..])) + multiset{f(b[k])}
  {
    assert Mapped(f, b)[..k] + Mapped(f, b)[k + 1..] == Mapped(f, b[..k] + b[k + 1..]);
    WithoutOne(Mapped(f, b), k);
  }

  lemma WithoutOne<T>(s: seq<T>, k: nat)
    requires k < |s|
    ensures multiset(s) == multiset(s[..k] + s[k + 1..]) + multiset{s[k]}
  {
    assert s == s[..k] + [s[k]] + s[k + 1..];
  }

  lemma StringsMultiset(a: seq<JID>, b: seq<JID>)
    requires multiset(a) == multiset(b)
    ensures multiset(Strings(a)) == multiset(Strings(b))
  {
    hide JidText.ADString;
    assert Strings(a) == Mapped(JidText.ADString, a) && Strings(b) == Mapped(JidText.ADString, b);
    MappedMultiset(JidText.ADString, a, b);
  }

  /** With an injective base64, two texts have the same hash if and only if their digests have the same first six
  bytes. */
  lemma HashesAgreeIff(d: Digest, x: Bytes, y: Bytes)
    requires Sized(d) && forall a, b :: d.base64(a) == d.base64(b) ==> a == b
    ensures HashOf(d, x) == HashOf(d, y) <==> forall i :: 0 <= i < 6 ==> d.sha256(x)[i] == d.sha256(y)[i]
    ensures HashOf(d, x)[..2] == Ascii("2:")
  {
    var a, b := d.sha256(x)[..6], d.sha256(y)[..6];
    assert |d.sha256(x)| == 32 && |d.sha256(y)| == 32;
    assert HashOf(d, x)[2..] == d.base64(a) && HashOf(d, y)[2..] == d.base64(b);
    if forall i :: 0 <= i < 6 ==> d.sha256(x)[i] == d.sha256(y)[i] {
      assert a == b;
    }
    if a == b {
      forall i | 0 <= i < 6 ensures d.sha256(x)[i] == d.sha256(y)[i] {
        assert a[i] == b[i];
      }
    }
  }

  /** The order of the device list does not matter. */
  lemma OrderDoesNotMatter(d: Digest, a: seq<JID>, b: seq<JID>)
    requires Sized(d) && multiset(a) == multiset(b)
    ensures Canonical(a) == Canonical(b) && HashOf(d, Canonical(a)) == HashOf(d, Canonical(b))
  {
    hide Sort, Strings, Concat, HashOf;
    StringsMultiset(a, b);
    SortSorts(Strings(a));
    SortSorts(Strings(b));
    SortedUnique(Sort(Strings(a)), Sort(Strings(b)));
  }

  // ---------- What the hashed text identifies ----------

  /** A user that starts with a byte of some class and has no '.', at a server named without bytes of that class.  The
  end of one device and the start of the next can then be told apart. */
  predicate Separable(p: Byte -> bool, jid: JID)
  {
    && jid.user != [] && p(jid.user[0]) && JidText.DOT !in jid.user
    && (forall i :: 0 <= i < |jid.server| ==> !p(jid.server[i]))
    && jid.integrator == 0
  }

  predicate StartsWithDigit(s: Bytes)
  {
    s != [] && IsDigit(s[0])
  }

  predicate StartsWith(p: Byte -> bool, s: Bytes)
  {
    s != [] && p(s[0])
  }

  lemma FrontTells(p: Byte -> bool, a: Bytes, x: Bytes)
    requires (forall i :: 0 <= i < |a| ==> p(a[i])) && !StartsWith(p, x)
    ensures StartsWith(p, a + x) <==> a != []
    ensures a == [] ==> a + x == x
    ensures a != [] ==> (a + x)[1..] == a[1..] + x && (a + x)[0] == a[0] && a == [a[0]] + a[1..]
  {
  }

  /** A run of bytes of one kind, ended by a byte of another or by nothing, is determined by the whole. */
  lemma {:induction false} SameRun(p: Byte -> bool, a: Bytes, x: Bytes, b: Bytes, y: Bytes)
    requires (forall i :: 0 <= i < |a| ==> p(a[i])) && (forall i :: 0 <= i < |b| ==> p(b[i]))
    requires !StartsWith(p, x) && !StartsWith(p, y) && a + x == b + y
    ensures a == b && x == y
  {
    FrontTells(p, a, x);
    FrontTells(p, b, y);
    if a != [] {
      SameRun(p, a[1..], x, b[1..], y);
    }
  }

  lemma SameDigits(a: Bytes, x: Bytes, b: Bytes, y: Bytes)
    requires AllDigits(a) && AllDigits(b) && !StartsWithDigit(x) && !StartsWithDigit(y) && a + x == b + y
    ensures a == b && x == y
  {
    SameRun((c: Byte) => IsDigit(c), a, x, b, y);
  }

  lemma SameUser(a: Bytes, x: Bytes, b: Bytes, y: Bytes)
    requires JidText.DOT !in a && JidText.DOT !in b && a + x == b + y
    requires x != [] && x[0] == JidText.DOT && y != [] && y[0] == JidText.DOT
    ensures a == b && x == y
  {
    SameRun((c: Byte) => c != JidText.DOT, a, x, b, y);
  }

  lemma SameName(p: Byte -> bool, a: Bytes, x: Bytes, b: Bytes, y: Bytes)
    requires (forall i :: 0 <= i < |a| ==> !p(a[i])) && (forall i :: 0 <= i < |b| ==> !p(b[i])) && a + x == b + y
    requires (x == [] || StartsWith(p, x)) && (y == [] || StartsWith(p, y))
    ensures a == b && x == y
  {
    SameRun((c: Byte) => !p(c), a, x, b, y);
  }

  lemma SameNumber(m: nat, x: Bytes, n: nat, y: Bytes)
    requires !StartsWithDigit(x) && !StartsWithDigit(y) && Digits(m) + x == Digits(n) + y
    ensures m == n && x == y
  {
    hide Digits, FromDigits;
    SameDigits(Digits(m), x, Digits(n), y);
    DigitsInverse(m);
    DigitsInverse(n);
  }

  /** One device at the front of a text, and what follows it, are determined by the text. */
  lemma SameFront(p: Byte -> bool, a: JID, x: Bytes, b: JID, y: Bytes)
    requires Separable(p, a) && Separable(p, b) && JidText.ADString(a) + x == JidText.ADString(b) + y
    requires (x == [] || StartsWith(p, x)) && (y == [] || StartsWith(p, y))
    ensures a == b && x == y
  {
    hide Digits, JidText.ADString, AllDigits;
    Spelled(a, x);
    Spelled(b, y);
    SameUser(a.user, AfterUser(a, x), b.user, AfterUser(b, y));
    assert AfterUser(a, x)[1..] == Digits(a.rawAgent) + AfterAgent(a, x);
    assert AfterUser(b, y)[1..] == Digits(b.rawAgent) + AfterAgent(b, y);
    SameNumber(a.rawAgent, AfterAgent(a, x), b.rawAgent, AfterAgent(b, y));
    assert AfterAgent(a, x)[1..] == Digits(a.device) + AfterDevice(a, x);
    assert AfterAgent(b, y)[1..] == Digits(b.device) + AfterDevice(b, y);
    SameNumber(a.device, AfterDevice(a, x), b.device, AfterDevice(b, y));
    assert AfterDevice(a, x)[1..] == a.server + x && AfterDevice(b, y)[1..] == b.server + y;
    SameName(p, a.server, x, b.server, y);
  }

  function AfterDevice(a: JID, x: Bytes): (r: Bytes)
    ensures r != [] && !StartsWithDigit(r)
  {
    [JidText.AT] + (a.server + x)
  }

  function AfterAgent(a: JID, x: Bytes): (r: Bytes)
    ensures r != [] && !StartsWithDigit(r)
  {
    [JidText.COLON] + (Digits(a.device) + AfterDevice(a, x))
  }

  function AfterUser(a: JID, x: Bytes): (r: Bytes)
    ensures r != [] && !StartsWithDigit(r)
  {
    [JidText.DOT] + (Digits(a.rawAgent) + AfterAgent(a, x))
  }

  lemma Spelled(a: JID, x: Bytes)
    ensures JidText.ADString(a) + x == a.user + AfterUser(a, x)
  {
    hide Digits;
  }

  predicate AllSeparable(p: Byte -> bool, devices: seq<JID>)
  {
    forall i :: 0 <= i < |devices| ==> Separable(p, devices[i])
  }

  lemma ConcatStart(p: Byte -> bool, devices: seq<JID>)
    requires AllSeparable(p, devices)
    ensures Concat(Strings(devices)) == [] || StartsWith(p, Concat(Strings(devices)))
    ensures devices == [] <==> Concat(Strings(devices)) == []
  {
    if devices != [] {
      Spelled(devices[0], Concat(Strings(devices)[1..]));
      assert Concat(Strings(devices))[0] == devices[0].user[0];
    }
  }

  lemma {:induction false} ConcatInjective(p: Byte -> bool, a: seq<JID>, b: seq<JID>)
    requires AllSeparable(p, a) && AllSeparable(p, b) && Concat(Strings(a)) == Concat(Strings(b))
    ensures a == b
    decreases |a|
  {
    hide JidText.ADString, Separable;
    ConcatStart(p, a);
    ConcatStart(p, b);
    if a != [] && b != [] {
      assert Strings(a)[1..] == Strings(a[1..]) && Strings(b)[1..] == Strings(b[1..]);
      ConcatStart(p, a[1..]);
      ConcatStart(p, b[1..]);
      SameFront(p, a[0], Concat(Strings(a[1..])), b[0], Concat(Strings(b[1..])));
      ConcatInjective(p, a[1..], b[1..]);
      assert a == [a[0]] + a[1..] && b == [b[0]] + b[1..];
    }
  }

  /** The devices in the order of their strings. */
  lemma {:induction false} SortedDevices(devices: seq<JID>) returns (r: seq<JID>)
    ensures multiset(r) == multiset(devices) && Strings(r) == Sort(Strings(devices))
  {
    hide JidText.ADString;
    if devices == [] {
      r := [];
    } else {
      var rest := SortedDevices(devices[1..]);
      assert Strings(devices)[1..] == Strings(devices[1..]);
      assert devices == [devices[0]] + devices[1..];
      r := InsertedDevice(devices[0], rest);
    }
  }

  lemma {:induction false} InsertedDevice(x: JID, devices: seq<JID>) returns (r: seq<JID>)
    ensures multiset(r) == multiset(devices) + multiset{x}
    ensures Strings(r) == Insert(JidText.ADString(x), Strings(devices))
  {
    hide JidText.ADString, Le;
    if devices == [] || Le(JidText.ADString(x), Strings(devices)[0]) {
      r := [x] + devices;
    } else {
      assert Strings(devices)[1..] == Strings(devices[1..]);
      var rest := InsertedDevice(x, devices[1..]);
      r := [devices[0]] + rest;
      assert devices == [devices[0]] + devices[1..];
    }
  }

  /** For separable devices the hashed text tells the lists apart: it is the same if and only if the lists hold the same
  devices equally often. */
  lemma TextIdentifies(p: Byte -> bool, a: seq<JID>, b: seq<JID>)
    requires AllSeparable(p, a) && AllSeparable(p, b)
    ensures Canonical(a) == Canonical(b) <==> multiset(a) == multiset(b)
  {
    hide Sort, Strings, Concat, Separable;
    var sa := SortedDevices(a);
    var sb := SortedDevices(b);
    SeparableAgain(p, a, sa);
    SeparableAgain(p, b, sb);
    if Canonical(a) == Canonical(b) {
      ConcatInjective(p, sa, sb);
    }
    if multiset(a) == multiset(b) {
      SameCanonical(a, b);
    }
  }

  lemma SameCanonical(a: seq<JID>, b: seq<JID>)
    requires multiset(a) == multiset(b)
    ensures Canonical(a) == Canonical(b)
  {
    hide Sort, Strings, Concat;
    StringsMultiset(a, b);
    SortSorts(Strings(a));
    SortSorts(Strings(b));
    SortedUnique(Sort(Strings(a)), Sort(Strings(b)));
  }

  lemma SeparableAgain(p: Byte -> bool, a: seq<JID>, r: seq<JID>)
    requires AllSeparable(p, a) && multiset(r) == multiset(a)
    ensures AllSeparable(p, r)
  {
    forall i | 0 <= i < |r| ensures Separable(p, r[i]) {
      assert r[i] in multiset(a);
      assert r[i] in a;
    }
  }

  /** The users and servers in use: numbers, at servers named without digits. */
  lemma NumbersAreSeparable(jid: JID)
    requires jid.user != [] && AllDigits(jid.user) && jid.integrator == 0
    requires jid.server in {DEFAULT_USER_SERVER, HIDDEN_USER_SERVER, HOSTED_SERVER, HOSTED_LID_SERVER, MESSENGER_SERVER}
    ensures Separable((c: Byte) => IsDigit(c), jid)
  {
    assert IsDigit(jid.user[0]);
    forall b | b in jid.user ensures IsDigit(b) {
      var i :| 0 <= i < |jid.user| && jid.user[i] == b;
    }
  }

  /** Without that, one device can spell two. */
  lemma TextCanMislead()
    ensures var one := JID(Ascii("1"), 0, 0, 0, Ascii("a2.0:0@b"));
            var first, second := JID(Ascii("1"), 0, 0, 0, Ascii("a")), JID(Ascii("2"), 0, 0, 0, Ascii("b"));
            Canonical([one]) == Canonical([first, second])
  {
    var one := JID(Ascii("1"), 0, 0, 0, Ascii("a2.0:0@b"));
    var first, second := JID(Ascii("1"), 0, 0, 0, Ascii("a")), JID(Ascii("2"), 0, 0, 0, Ascii("b"));
    assert Digits(0) == [ZERO];
    var s, t, u := JidText.ADString(one), JidText.ADString(first), JidText.ADString(second);
    assert s == t + u;
    assert Le(t, u);
    assert Strings([one]) == [s] && Strings([first, second]) == [t, u];
    SortTwo(t, u);
    SortOne(s);
  }

  lemma SortOne(s: Bytes)
    ensures Sort([s]) == [s] && Concat([s]) == s
  {
    var one := [s];
    assert |one[1..]| == 0;
    assert s + [] == s;
  }

  lemma SortTwo(t: Bytes, u: Bytes)
    requires Le(t, u)
    ensures Sort([t, u]) == [t, u] && Concat([t, u]) == t + u
  {
    var two := [t, u];
    SortOne(u);
    assert two[1..] == [u];
  }

  // ---------- The code ----------

  /** `sort.Strings` */
  method SortStrings(a: array<Bytes>)
    modifies a
    ensures a[..] == Sort(old(a[..]))
  {
    var sorted := Sort(a[..]);
    forall i | 0 <= i < a.Length {
      a[i] := sorted[i];
    }
  }

  method ParticipantListHashV2(d: Digest, participants: seq<JID>) returns (r: Bytes)
    requires Sized(d)
    ensures r == HashOf(d, Canonical(participants))
  {
    var participantsStrings := new Bytes[|participants|];
    for i := 0 to |participants|
      invariant forall j :: 0 <= j < i ==> participantsStrings[j] == JidText.ADString(participants[j])
    {
      participantsStrings[i] := JidText.ADString(participants[i]);
    }
    assert participantsStrings[..] == Strings(participants);
    SortStrings(participantsStrings);
    var text: Bytes := [];
    var n := participantsStrings.Length;
    ConcatPrefix(participantsStrings[..], 0);
    for i := 0 to n
      invariant text == Concat(participantsStrings[..][..i]) && participantsStrings[..] == Sort(Strings(participants))
    {
      ConcatPrefix(participantsStrings[..], i);
      text := text + participantsStrings[i];
    }
    assert participantsStrings[..][..n] == participantsStrings[..];
    var hash := d.sha256(text);
    r := Ascii("2:") + d.base64(hash[..6]);
  }

  lemma {:induction false} ConcatPrefix(s: seq<Bytes>, i: nat)
    requires i <= |s|
    ensures i < |s| ==> Concat(s[..i + 1]) == Concat(s[..i]) + s[i]
    ensures Concat(s[..0]) == []
  {
    if 0 < i < |s| {
      ConcatPrefix(s[1..], i - 1);
      assert s[..i][1..] == s[1..][..i - 1] && s[..i + 1][1..] == s[1..][..i];
      Associate(s[0], Concat(s[1..][..i - 1]), s[i]);
    } else if i < |s| {
      assert s[..1][1..] == [];
    }
  }
}
