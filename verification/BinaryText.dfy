/** What numbers, booleans and identifiers look like on the wire, said without the functions that write them. */
module BinaryText {
  import opened ByteStrings
  import opened Tokens
  import opened Jid
  import opened BinaryNode
  import opened BinaryFormat
  import opened BinaryRoundTrip
  import JidText

  // ---------- Decimal text ----------

  /** A numeral: digits without a leading zero, behind a minus sign for a negative number. */
  predicate IsNumeral(s: Bytes)
  {
    var digits := if s != [] && s[0] == MINUS then s[1..] else s;
    digits != [] && AllDigits(digits) && (digits[0] == ZERO ==> s == [ZERO])
  }

  function Denoted(s: Bytes): int
    requires IsNumeral(s)
  {
    if s[0] == MINUS then 0 - FromDigits(s[1..]) as int else FromDigits(s)
  }

  lemma {:induction false} NoLeadingZero(n: nat)
    requires n > 0
    ensures Digits(n)[0] != ZERO
  {
    if n >= 10 {
      NoLeadingZero(n / 10);
      assert Digits(n)[0] == Digits(n / 10)[0];
    }
  }

  lemma DigitsAreDigits(n: nat)
    ensures AllDigits(Digits(n)) && Digits(n)[0] != MINUS
  {
    hide Digits;
    assert IsDigit(Digits(n)[0]);
  }

  /** The text of a number is a numeral that denotes the number. */
  lemma DecimalDenotes(n: int)
    ensures IsNumeral(Decimal(n)) && Denoted(Decimal(n)) == n
  {
    hide Digits, FromDigits;
    var m: nat := if n < 0 then -n else n;
    DigitsAreDigits(m);
    DigitsInverse(m);
    DigitOfZero();
    if m > 0 {
      NoLeadingZero(m);
    }
    if n < 0 {
      assert Decimal(n)[1..] == Digits(m);
    }
  }

  lemma DigitOfZero()
    ensures Digits(0) == [ZERO]
  {
  }

  /** Reading the text as a 64-bit integer gives the number back, and fails exactly on numbers that do not fit. */
  lemma AtoiDecimal(n: int)
    ensures JidText.Atoi(Decimal(n)) == if -JidText.MAX_INT_64 - 1 <= n <= JidText.MAX_INT_64 then Some(n) else None
  {
    hide Digits, FromDigits;
    var m: nat := if n < 0 then -n else n;
    DigitsAreDigits(m);
    DigitsInverse(m);
    assert IsDigit(Digits(m)[0]);
    if n < 0 {
      assert Decimal(n)[1..] == Digits(m);
    }
  }

  function Pow10(k: nat): (r: nat)
    ensures r > 0
  {
    if k == 0 then 1 else 10 * Pow10(k - 1)
  }

  lemma {:induction false} DigitsFit(n: nat, k: nat)
    requires k > 0 && n < Pow10(k)
    ensures |Digits(n)| <= k
  {
    if n >= 10 {
      assert Pow10(1) == 10 * Pow10(0);
      assert n / 10 < Pow10(k - 1);
      DigitsFit(n / 10, k - 1);
    }
  }

  lemma TwentyDigits()
    ensures Pow10(20) == 100000000000000000000
  {
    assert Pow10(5) == 100000;
    assert Pow10(10) == 10000000000;
    assert Pow10(15) == 1000000000000000;
  }

  const TWO_64 := 0x1_0000_0000_0000_0000

  /** The numbers that a Go integer type can hold. */
  predicate IsMachineInt(n: int)
  {
    -TWO_64 / 2 <= n < TWO_64
  }

  lemma NumbersPack(n: int)
    requires IsMachineInt(n)
    ensures ValidNibble(Decimal(n)) && |Decimal(n)| <= 21
  {
    hide Digits;
    var m: nat := if n < 0 then -n else n;
    TwentyDigits();
    DigitsFit(m, 20);
    DigitsAreDigits(m);
  }

  // ---------- Numbers and booleans on the wire ----------

  /** A number is read back, as an attribute or as content, as a string that denotes it. */
  lemma NumberReadBack(d: Dictionary, n: int, rest: Bytes, asString: bool)
    requires Sized(d) && IsMachineInt(n)
    ensures exists text :: ParseValue(d, EncScalar(d, Num(n)) + rest, asString) == Ok(Leaf(Str(text)), rest)
                           && IsNumeral(text) && Denoted(text) == n
  {
    hide EncScalar, ParseValue, IsNumeral, Denoted, Decimal;
    NumbersPack(n);
    DecimalDenotes(n);
    ReadBackScalar(d, Num(n), rest, asString);
  }

  /** A boolean is read back as "true" or "false", as content too when the word is a token. */
  lemma BooleanReadBack(d: Dictionary, b: bool, rest: Bytes, asString: bool)
    requires Sized(d)
    ensures var text := if b then Ascii("true") else Ascii("false");
            ParseValue(d, EncScalar(d, Boolean(b)) + rest, asString)
            == Ok(Leaf(if asString || IndexOfSingleToken(d, text).Some? || IndexOfDoubleByteToken(d, text).Some?
                       then Str(text) else Bin(text)), rest)
  {
    hide EncScalar, ParseValue;
    WordsDoNotPack();
    ReadBackScalar(d, Boolean(b), rest, asString);
  }

  lemma WordsDoNotPack()
    ensures !ValidNibble(Ascii("true")) && !ValidHex(Ascii("true"))
    ensures !ValidNibble(Ascii("false")) && !ValidHex(Ascii("false"))
  {
    assert Ascii("true")[0] == 116 && Ascii("false")[0] == 102;
    assert !NibbleChar(116) && !HexChar(116) && !NibbleChar(102) && !HexChar(102);
  }

  // ---------- Attributes ----------

  /** Exactly the attributes that are neither nil nor "" come back. */
  lemma AttributesReadBack(d: Dictionary, n: Node)
    ensures Canonical(d, n).attrs.Keys == set k | k in n.attrs && n.attrs[k] != Leaf(Nil) && n.attrs[k] != Leaf(Str([]))
  {
    hide CanonicalValue;
  }

  // ---------- Bytes ----------

  /** The forms on both sides of every boundary. */
  lemma LengthForms()
    ensures ByteLength(255) == [252, 255] && ByteLength(256) == [253, 0, 1, 0]
    ensures ByteLength(0xF_FFFF) == [253, 15, 255, 255] && ByteLength(0x10_0000) == [254, 0, 16, 0, 0]
    ensures ListStart(0) == [0] && ListStart(255) == [248, 255] && ListStart(256) == [249, 1, 0]
  {
    OneByte(255);
    TwoBytes(0, 256);
    TwoBytes(0x10, 0);
    assert BigEndian(0x10_0000, 4) == BigEndian(0x10, 2) + [0, 0] by {
      assert BigEndian(0x10_0000, 4) == BigEndian(0x1000, 3) + [0] && BigEndian(0x1000, 3) == BigEndian(0x10, 2) + [0];
    }
  }

  lemma OneByte(n: Byte)
    ensures BigEndian(n, 1) == [n]
  {
    assert BigEndian(n / 256, 0) == [];
  }

  lemma TwoBytes(high: nat, low: nat)
    ensures BigEndian(256, 2) == [1, 0] && BigEndian(0x10, 2) == [0, 0x10]
  {
    OneByte(1);
    OneByte(0);
  }

  /** Packed text, byte for byte: nibbles of even and odd length, and hexadecimal. */
  lemma PackedForms()
    ensures Packable(NIBBLE_8, Ascii("12-3")) && PackedBytes(NIBBLE_8, Ascii("12-3")) == [255, 2, 0x12, 0xA3]
    ensures Packable(NIBBLE_8, Ascii("12.")) && PackedBytes(NIBBLE_8, Ascii("12.")) == [255, 130, 0x12, 0xBF]
    ensures Packable(HEX_8, Ascii("AB1")) && PackedBytes(HEX_8, Ascii("AB1")) == [251, 130, 0xAB, 0x1F]
  {
    FourPacked(NIBBLE_8, Ascii("12-3"));
    ThreePacked(NIBBLE_8, Ascii("12."));
    ThreePacked(HEX_8, Ascii("AB1"));
  }

  lemma ThreePacked(tag: Byte, s: Bytes)
    requires |s| == 3 && Packable(tag, s)
    ensures PackedBytes(tag, s) == [tag, 130, PackBytePair(tag, s[0], s[1]), PackBytePair(tag, s[2], 0)]
  {
    hide PackBytePair, PackableChar;
    assert s[2..][0] == s[2] && |s[2..]| == 1;
    assert PackPairs(tag, s[2..]) == [PackBytePair(tag, s[2], 0)];
  }

  lemma FourPacked(tag: Byte, s: Bytes)
    requires |s| == 4 && Packable(tag, s)
    ensures PackedBytes(tag, s) == [tag, 2, PackBytePair(tag, s[0], s[1]), PackBytePair(tag, s[2], s[3])]
  {
    hide PackBytePair, PackableChar;
    var t := s[2..];
    assert t[0] == s[2] && t[1] == s[3] && t[2..] == [];
    assert PackPairs(tag, t) == [PackBytePair(tag, s[2], s[3])] + PackPairs(tag, []);
  }
}
