/** JIDs as text: printing, parsing, and which JIDs survive the round trip. */
module JidText {
  import opened ByteStrings
  import opened Jid

  const AT: Byte := '@' as int
  const DOT: Byte := '.' as int
  const COLON: Byte := ':' as int

  const MAX_INT_64 := 0x7FFF_FFFF_FFFF_FFFF

  datatype Result = Ok(jid: JID) | Err

  // ---------- Printing ----------

  function ADName(jid: JID): Bytes {
    jid.user + [DOT] + Digits(jid.rawAgent) + [COLON] + Digits(jid.device)
  }

  function DeviceName(jid: JID): Bytes {
    jid.user + [COLON] + Digits(jid.device)
  }

  function ADString(jid: JID): Bytes {
    ADName(jid) + [AT] + jid.server
  }

  function String(jid: JID): Bytes {
    if jid.rawAgent > 0 then ADString(jid)
    else if jid.device > 0 then DeviceName(jid) + [AT] + jid.server
    else if |jid.user| > 0 then jid.user + [AT] + jid.server
    else jid.server
  }

  // ---------- Parsing ----------

  /** `strings.Split` by one byte. */
  function Split(s: Bytes, sep: Byte): (parts: seq<Bytes>)
    ensures |parts| >= 1
    ensures forall i :: 0 <= i < |parts| ==> sep !in parts[i]
    ensures |parts| == 1 <==> sep !in s
  {
    if s == [] then [[]]
    else
      var rest := Split(s[1..], sep);
      assert s == [s[0]] + s[1..];
      if s[0] == sep then [[]] + rest else [[s[0]] + rest[0]] + rest[1..]
  }

  /** `strconv.Atoi`: a sign if any, digits, and the range of a 64-bit integer. */
  function Atoi(s: Bytes): Option<int> {
    var digits := if s != [] && (s[0] == MINUS || s[0] == PLUS) then s[1..] else s;
    if digits == [] || !AllDigits(digits) then None
    else
      var n: int := FromDigits(digits);
      if s[0] == MINUS then (if n <= MAX_INT_64 + 1 then Some(-n) else None)
      else if n <= MAX_INT_64 then Some(n) else None
  }

  /** Conversion to an unsigned width keeps the low bits, of negative numbers too. */
  function Truncated(n: int, width: nat): (r: nat)
    requires width > 0
    ensures r < width
  {
    n % width
  }

  function ParseAD(user: Bytes, ad: Bytes, server: Bytes): Result {
    var parts := Split(ad, COLON);
    if |parts| > 2 then Err
    else
      match Atoi(parts[0])
      case None => Err
      case Some(agent) =>
        if |parts| == 1 then Ok(JID(user, Truncated(agent, 0x100), 0, 0, server))
        else
          match Atoi(parts[1])
          case None => Err
          case Some(device) => Ok(JID(user, Truncated(agent, 0x100), Truncated(device, 0x1_0000), 0, server))
  }

  function ParseName(name: Bytes, server: Bytes): Result {
    if DOT in name then
      var parts := Split(name, DOT);
      if |parts| != 2 then Err else ParseAD(parts[0], parts[1], server)
    else if COLON in name then
      var parts := Split(name, COLON);
      if |parts| != 2 then Err
      else
        match Atoi(parts[1])
        case None => Err
        case Some(device) => Ok(JID(parts[0], 0, Truncated(device, 0x1_0000), 0, server))
    else Ok(NewJID(name, server))
  }

  /** What follows a second '@' is ignored. */
  function ParseJID(text: Bytes): Result {
    var parts := Split(text, AT);
    if |parts| == 1 then Ok(NewJID([], parts[0])) else ParseName(parts[0], parts[1])
  }

  // ---------- Pieces ----------

  lemma SplitNone(s: Bytes, sep: Byte)
    requires sep !in s
    ensures Split(s, sep) == [s]
  {
    if s != [] {
      SplitNone(s[1..], sep);
      assert [s[0]] + s[1..] == s;
    }
  }

  lemma {:induction false} SplitAfter(a: Bytes, sep: Byte, b: Bytes)
    requires sep !in a
    ensures Split(a + [sep] + b, sep) == [a] + Split(b, sep)
  {
    var s := a + [sep] + b;
    if a == [] {
      assert s[1..] == b;
    } else {
      assert s[1..] == a[1..] + [sep] + b;
      SplitAfter(a[1..], sep, b);
      assert [a[0]] + a[1..] == a;
    }
  }

  lemma SplitTwo(a: Bytes, sep: Byte, b: Bytes)
    requires sep !in a && sep !in b
    ensures Split(a + [sep] + b, sep) == [a, b]
  {
    hide Split;
    SplitAfter(a, sep, b);
    SplitNone(b, sep);
  }

  lemma AtoiDigits(n: nat)
    requires n <= MAX_INT_64
    ensures Atoi(Digits(n)) == Some(n)
  {
    hide Digits, FromDigits;
    DigitsInverse(n);
    assert IsDigit(Digits(n)[0]);
  }

  lemma DigitsArePlain(n: nat)
    ensures AT !in Digits(n) && DOT !in Digits(n) && COLON !in Digits(n)
  {
    hide Digits;
    forall b | b in Digits(n) ensures IsDigit(b) {
      var i :| 0 <= i < |Digits(n)| && Digits(n)[i] == b;
      assert IsDigit(Digits(n)[i]);
    }
  }

  // ---------- Round trips ----------

  /** What parsing can give: no '@' anywhere, no '.' in the user, no integrator. */
  predicate Parseable(jid: JID)
  {
    AT !in jid.user && AT !in jid.server && DOT !in jid.user && jid.integrator == 0
  }

  lemma ParsedIsParseable(text: Bytes)
    ensures ParseJID(text).Ok? ==> Parseable(ParseJID(text).jid)
  {
    hide Atoi, Split;
    var parts := Split(text, AT);
    if |parts| > 1 {
      NameIsParseable(parts[0], parts[1]);
    } else {
      assert AT !in parts[0];
    }
  }

  lemma NameIsParseable(name: Bytes, server: Bytes)
    requires AT !in name && AT !in server
    ensures ParseName(name, server).Ok? ==> Parseable(ParseName(name, server).jid)
    ensures ParseName(name, server).Ok? && DOT !in name ==> COLON !in ParseName(name, server).jid.user
  {
    hide Atoi, Split;
    if DOT in name {
      NoNewBytes(name, DOT, AT);
    } else if COLON in name {
      NoNewBytes(name, COLON, AT);
      NoNewBytes(name, COLON, DOT);
    }
  }

  /** Splitting makes up no bytes. */
  lemma {:induction false} NoNewBytes(s: Bytes, sep: Byte, b: Byte)
    requires b !in s
    ensures forall i :: 0 <= i < |Split(s, sep)| ==> b !in Split(s, sep)[i]
  {
    if s != [] {
      NoNewBytes(s[1..], sep, b);
    }
  }

  /** The agent and device come back behind a user without dots; with dots nothing comes back. */
  lemma ParseADName(jid: JID)
    ensures ParseName(ADName(jid), jid.server)
         == if DOT in jid.user then Err else Ok(jid.(integrator := 0))
  {
    hide Split, Digits, Atoi;
    var agent, device := Digits(jid.rawAgent), Digits(jid.device);
    var ad := agent + [COLON] + device;
    DigitsArePlain(jid.rawAgent);
    DigitsArePlain(jid.device);
    AtoiDigits(jid.rawAgent);
    AtoiDigits(jid.device);
    SplitTwo(agent, COLON, device);
    assert ADName(jid) == jid.user + [DOT] + ad;
    if DOT in jid.user {
      ThreeParts(jid.user, DOT, ad);
    } else {
      SplitTwo(jid.user, DOT, ad);
    }
  }

  lemma {:induction false} ThreeParts(a: Bytes, sep: Byte, b: Bytes)
    requires sep in a
    ensures |Split(a + [sep] + b, sep)| > 2
  {
    var s := a + [sep] + b;
    assert a == [a[0]] + a[1..] && s == [s[0]] + s[1..];
    assert s[1..] == a[1..] + [sep] + b;
    if sep in a[1..] {
      ThreeParts(a[1..], sep, b);
    } else {
      assert sep in s[1..];
    }
  }

  lemma ParseDeviceName(jid: JID)
    requires jid.rawAgent == 0 && DOT !in jid.user && COLON !in jid.user
    ensures ParseName(DeviceName(jid), jid.server) == Ok(jid.(integrator := 0))
  {
    hide Split, Digits, Atoi;
    DigitsArePlain(jid.device);
    AtoiDigits(jid.device);
    SplitTwo(jid.user, COLON, Digits(jid.device));
    assert DOT !in DeviceName(jid) && COLON in DeviceName(jid);
  }

  lemma ParseParts(name: Bytes, server: Bytes)
    requires AT !in name && AT !in server
    ensures ParseJID(name + [AT] + server) == ParseName(name, server)
  {
    hide Split, ParseName;
    SplitTwo(name, AT, server);
  }

  lemma NameIsPlain(jid: JID)
    requires AT !in jid.user
    ensures AT !in ADName(jid) && AT !in DeviceName(jid)
    ensures DOT !in jid.user ==> DOT !in DeviceName(jid)
  {
    hide Digits;
    DigitsArePlain(jid.rawAgent);
    DigitsArePlain(jid.device);
  }

  /** The JIDs that printing and parsing give back. */
  predicate Printable(jid: JID)
  {
    Parseable(jid) && (COLON !in jid.user || jid.rawAgent > 0)
  }

  /** Parsing what was printed gives the JID back if and only if its user has no '@' and no '.', its server has no
  '@', it has no integrator, and its user has no ':' unless it has an agent. */
  lemma ParsePrinted(jid: JID)
    ensures ParseJID(String(jid)) == Ok(jid) <==> Printable(jid)
  {
    hide Split, ParseName, Digits, ADName, DeviceName, ParseJID;
    ParsedIsParseable(String(jid));
    if Parseable(jid) {
      NameIsPlain(jid);
      if jid.rawAgent > 0 {
        ParseParts(ADName(jid), jid.server);
        ParseADName(jid);
      } else {
        ParsePrintedPlain(jid);
      }
    }
  }

  lemma ParsePrintedPlain(jid: JID)
    requires Parseable(jid) && jid.rawAgent == 0
    ensures ParseJID(String(jid)) == Ok(jid) <==> COLON !in jid.user
  {
    hide Split, ParseName, Digits, DeviceName, ParseJID;
    NameIsPlain(jid);
    if jid.device > 0 {
      ParseParts(DeviceName(jid), jid.server);
      NameIsParseable(DeviceName(jid), jid.server);
      if COLON !in jid.user {
        ParseDeviceName(jid);
      }
    } else if |jid.user| > 0 {
      ParseParts(jid.user, jid.server);
      NameIsParseable(jid.user, jid.server);
      if COLON !in jid.user {
        ParsePlainName(jid.user, jid.server);
      }
    } else {
      ParseServer(jid.server);
    }
  }

  lemma ParsePlainName(name: Bytes, server: Bytes)
    requires DOT !in name && COLON !in name
    ensures ParseName(name, server) == Ok(NewJID(name, server))
  {
  }

  lemma ParseServer(server: Bytes)
    requires AT !in server
    ensures ParseJID(server) == Ok(NewJID([], server))
  {
    hide Split;
    SplitNone(server, AT);
  }

  /** The form with agent and device always written needs no more than that. */
  lemma ParseADString(jid: JID)
    ensures ParseJID(ADString(jid)) == Ok(jid) <==> Parseable(jid)
  {
    hide Split, ParseName, Digits, ADName, ParseJID;
    ParsedIsParseable(ADString(jid));
    if Parseable(jid) {
      NameIsPlain(jid);
      ParseParts(ADName(jid), jid.server);
      ParseADName(jid);
    }
  }

  /** Text that parses need not parse the same after printing: it does if and only if no ':' is left in a user without
  agent. */
  lemma ReprintedIff(text: Bytes)
    requires ParseJID(text).Ok?
    ensures var jid := ParseJID(text).jid;
            ParseJID(String(jid)) == Ok(jid) <==> COLON !in jid.user || jid.rawAgent > 0
  {
    hide ParseJID, String, Parseable;
    ParsedIsParseable(text);
    ParsePrinted(ParseJID(text).jid);
  }

  /** Printing tells printable JIDs apart. */
  lemma PrintedApart(a: JID, b: JID)
    requires Printable(a) && Printable(b) && String(a) == String(b)
    ensures a == b
  {
    hide ParseJID, String, Printable;
    ParsePrinted(a);
    ParsePrinted(b);
  }

  /** A ':' in a user without agent: one text is refused, the other is read as a different JID. */
  lemma ColonIsTakenForDevice()
    ensures ParseJID(String(NewJID(Ascii("a:b"), Ascii("s")))) == Err
    ensures ParseJID(String(NewJID(Ascii("a:1"), Ascii("s")))) == Ok(JID(Ascii("a"), 0, 1, 0, Ascii("s")))
  {
    hide Split, ParseName, Atoi;
    ColonName(Ascii("b"));
    ColonName(Ascii("1"));
    assert Ascii("a:b") == Ascii("a") + [COLON] + Ascii("b") && Ascii("a:1") == Ascii("a") + [COLON] + Ascii("1");
    LetterIsNoNumber();
    assert Digits(1) == Ascii("1");
    AtoiDigits(1);
  }

  lemma ColonName(suffix: Bytes)
    requires AT !in suffix && DOT !in suffix && COLON !in suffix
    ensures ParseJID(Ascii("a") + [COLON] + suffix + [AT] + Ascii("s"))
         == match Atoi(suffix) case None => Err case Some(n) => Ok(JID(Ascii("a"), 0, Truncated(n, 0x1_0000), 0, Ascii("s")))
  {
    hide Split, Atoi;
    var name := Ascii("a") + [COLON] + suffix;
    assert COLON in name;
    ParseParts(name, Ascii("s"));
    SplitTwo(Ascii("a"), COLON, suffix);
  }

  lemma LetterIsNoNumber()
    ensures Atoi(Ascii("b")) == None
  {
    NoNumber(Ascii("b"));
  }

  lemma NoNumber(s: Bytes)
    requires s != [] && !IsDigit(s[0]) && s[0] != MINUS && s[0] != PLUS
    ensures Atoi(s) == None
  {
    assert !AllDigits(s);
  }

  /** Text that parses, and whose JID prints to text that does not. */
  lemma ReprintedCanFail()
    ensures var jid := NewJID(Ascii("a:b"), Ascii("s"));
            ParseJID(Ascii("a:b.0@s")) == Ok(jid) && ParseJID(String(jid)) == Err
  {
    hide Split, ParseName, Atoi, ParseJID;
    var name := Ascii("a:b") + [DOT] + Ascii("0");
    assert Ascii("a:b.0@s") == name + [AT] + Ascii("s");
    ParseParts(name, Ascii("s"));
    DottedName();
    ColonIsTakenForDevice();
  }

  lemma DottedName()
    ensures ParseName(Ascii("a:b") + [DOT] + Ascii("0"), Ascii("s")) == Ok(NewJID(Ascii("a:b"), Ascii("s")))
  {
    hide Split, Atoi;
    var name := Ascii("a:b") + [DOT] + Ascii("0");
    assert DOT in name;
    SplitTwo(Ascii("a:b"), DOT, Ascii("0"));
    SplitNone(Ascii("0"), COLON);
    assert Digits(0) == Ascii("0");
    AtoiDigits(0);
  }

  /** "user.n@server" is agent n modulo 2^8 and device 0. */
  lemma ParseAgentOnly(user: Bytes, n: nat, server: Bytes)
    requires AT !in user && DOT !in user && AT !in server && n <= MAX_INT_64
    ensures ParseJID(user + [DOT] + Digits(n) + [AT] + server) == Ok(JID(user, n % 0x100, 0, 0, server))
  {
    hide Split, Atoi, Digits;
    var name := user + [DOT] + Digits(n);
    DigitsArePlain(n);
    ParseParts(name, server);
    SplitTwo(user, DOT, Digits(n));
    SplitNone(Digits(n), COLON);
    AtoiDigits(n);
    assert DOT in name;
  }

  /** "user.a:d@server" is agent a modulo 2^8 and device d modulo 2^16. */
  lemma ParseAgentAndDevice(user: Bytes, a: nat, d: nat, server: Bytes)
    requires AT !in user && DOT !in user && AT !in server && a <= MAX_INT_64 && d <= MAX_INT_64
    ensures ParseJID(user + [DOT] + (Digits(a) + [COLON] + Digits(d)) + [AT] + server)
         == Ok(JID(user, a % 0x100, d % 0x1_0000, 0, server))
  {
    hide Split, Atoi, Digits;
    var ad := Digits(a) + [COLON] + Digits(d);
    var name := user + [DOT] + ad;
    DigitsArePlain(a);
    DigitsArePlain(d);
    ParseParts(name, server);
    SplitTwo(user, DOT, ad);
    SplitTwo(Digits(a), COLON, Digits(d));
    AtoiDigits(a);
    AtoiDigits(d);
    assert DOT in name;
  }

  // ---------- What is parsed ----------

  lemma {:induction false} SplitOfTwo(s: Bytes, sep: Byte)
    requires |Split(s, sep)| == 2
    ensures s == Split(s, sep)[0] + [sep] + Split(s, sep)[1]
  {
    assert s == [s[0]] + s[1..];
    var rest := Split(s[1..], sep);
    if s[0] == sep {
      SplitNone(s[1..], sep);
    } else {
      SplitOfTwo(s[1..], sep);
    }
  }

  predicate IsPlain(name: Bytes)
  {
    DOT !in name && COLON !in name
  }

  predicate HasDevice(name: Bytes, user: Bytes, device: Bytes)
  {
    && name == user + [COLON] + device && DOT !in name && COLON !in user && COLON !in device
    && Atoi(device).Some?
  }

  predicate HasAgent(name: Bytes, user: Bytes, agent: Bytes)
  {
    && name == user + [DOT] + agent && DOT !in user && IsPlain(agent)
    && Atoi(agent).Some?
  }

  predicate HasBoth(name: Bytes, user: Bytes, agent: Bytes, device: Bytes)
  {
    && name == user + [DOT] + (agent + [COLON] + device) && DOT !in user && IsPlain(agent) && IsPlain(device)
    && Atoi(agent).Some? && Atoi(device).Some?
  }

  /** The low bits of a number that parses. */
  function Low(digits: Bytes, width: nat): nat
    requires Atoi(digits).Some? && width > 0
  {
    Atoi(digits).value % width
  }

  lemma ParseForms(name: Bytes, server: Bytes)
    ensures IsPlain(name) ==> ParseName(name, server) == Ok(JID(name, 0, 0, 0, server))
    ensures forall u, d :: HasDevice(name, u, d) ==> ParseName(name, server) == Ok(JID(u, 0, Low(d, 0x1_0000), 0, server))
    ensures forall u, a :: HasAgent(name, u, a) ==> ParseName(name, server) == Ok(JID(u, Low(a, 0x100), 0, 0, server))
    ensures forall u, a, d :: HasBoth(name, u, a, d) ==>
              ParseName(name, server) == Ok(JID(u, Low(a, 0x100), Low(d, 0x1_0000), 0, server))
  {
    hide Split, Atoi;
    forall u, d | HasDevice(name, u, d)
      ensures ParseName(name, server) == Ok(JID(u, 0, Low(d, 0x1_0000), 0, server))
    {
      SplitTwo(u, COLON, d);
    }
    forall u, a | HasAgent(name, u, a)
      ensures ParseName(name, server) == Ok(JID(u, Low(a, 0x100), 0, 0, server))
    {
      SplitTwo(u, DOT, a);
      SplitNone(a, COLON);
    }
    forall u, a, d | HasBoth(name, u, a, d)
      ensures ParseName(name, server) == Ok(JID(u, Low(a, 0x100), Low(d, 0x1_0000), 0, server))
    {
      SplitTwo(u, DOT, a + [COLON] + d);
      SplitTwo(a, COLON, d);
    }
  }

  /** Exactly the names that parse: plain ones, those with a device behind their only colon, and those with one dot and
  behind it an agent, or an agent and a device with one colon between them.  Agent and device are numbers. */
  lemma ParseNameIff(name: Bytes, server: Bytes)
    ensures ParseName(name, server).Ok?
            <==> || IsPlain(name)
                 || (exists u, d :: HasDevice(name, u, d))
                 || (exists u, a :: HasAgent(name, u, a))
                 || exists u, a, d :: HasBoth(name, u, a, d)
  {
    hide Split, Atoi;
    ParseForms(name, server);
    if ParseName(name, server).Ok? {
      if DOT in name {
        SplitOfTwo(name, DOT);
        var parts := Split(name, DOT);
        AgentParses(parts[0], parts[1], server, name);
      } else if COLON in name {
        SplitOfTwo(name, COLON);
        var parts := Split(name, COLON);
        assert HasDevice(name, parts[0], parts[1]);
      }
    }
  }

  lemma AgentParses(user: Bytes, ad: Bytes, server: Bytes, name: Bytes)
    requires ParseAD(user, ad, server).Ok? && DOT !in user && DOT !in ad && name == user + [DOT] + ad
    ensures (exists u, a :: HasAgent(name, u, a)) || exists u, a, d :: HasBoth(name, u, a, d)
  {
    hide Split, Atoi;
    var parts := Split(ad, COLON);
    if |parts| == 1 {
      SplitNone(ad, COLON);
      assert HasAgent(name, user, ad);
    } else {
      SplitOfTwo(ad, COLON);
      assert HasBoth(name, user, parts[0], parts[1]);
    }
  }

  /** Numbers may have leading zeros and a sign of either kind. */
  lemma AtoiForms(digits: Bytes)
    requires digits != [] && AllDigits(digits)
    ensures Atoi(digits) == if FromDigits(digits) <= MAX_INT_64 then Some(FromDigits(digits)) else None
    ensures Atoi([ZERO] + digits) == Atoi(digits) && Atoi([PLUS] + digits) == Atoi(digits)
    ensures Atoi([MINUS] + digits)
         == if FromDigits(digits) <= MAX_INT_64 + 1 then Some(0 - FromDigits(digits) as int) else None
  {
    hide FromDigits;
    assert IsDigit(digits[0]);
    ZeroInFront(digits);
    assert ([PLUS] + digits)[1..] == digits && ([MINUS] + digits)[1..] == digits;
  }

  lemma {:induction false} ZeroInFront(digits: Bytes)
    requires AllDigits(digits)
    ensures AllDigits([ZERO] + digits) && FromDigits([ZERO] + digits) == FromDigits(digits)
  {
    var s := [ZERO] + digits;
    if digits == [] {
      assert s[..0] == [];
    } else {
      ZeroInFront(digits[..|digits| - 1]);
      assert s[..|s| - 1] == [ZERO] + digits[..|digits| - 1];
    }
  }

  /** Without an at sign the text is a server; what follows a second one is ignored, whatever it is. */
  lemma ParseText(name: Bytes, server: Bytes, rest: Bytes)
    requires AT !in name && AT !in server
    ensures ParseJID(server) == Ok(JID([], 0, 0, 0, server))
    ensures ParseJID(name + [AT] + server) == ParseName(name, server)
    ensures ParseJID(name + [AT] + (server + [AT] + rest)) == ParseName(name, server)
  {
    hide Split, ParseName;
    SplitNone(server, AT);
    SplitTwo(name, AT, server);
    SplitAfter(name, AT, server + [AT] + rest);
    SplitAfter(server, AT, rest);
  }
}
