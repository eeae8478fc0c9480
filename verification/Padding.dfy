/** Padding of message plaintexts. */
module Padding {
  import opened ByteStrings

  const UNPADDED_VERSION := 3

  function Repeat(b: Byte, n: nat): (r: Bytes)
    ensures |r| == n && forall i :: 0 <= i < n ==> r[i] == b
  {
    if n == 0 then [] else [b] + Repeat(b, n - 1)
  }

  predicate HasSuffix(s: Bytes, suffix: Bytes)
  {
    |suffix| <= |s| && s[|s| - |suffix|..] == suffix
  }

  predicate IsValidPadding(plaintext: Bytes)
    requires plaintext != []
  {
    var last := plaintext[|plaintext| - 1];
    HasSuffix(plaintext, Repeat(last, last))
  }

  function Unpad(plaintext: Bytes, version: int): (r: Option<Bytes>)
    ensures version != UNPADDED_VERSION && plaintext == [] ==> r.None?
    ensures r.Some? ==> r.value <= plaintext
  {
    if version == UNPADDED_VERSION then Some(plaintext)
    else if |plaintext| == 0 || !IsValidPadding(plaintext) then None
    else Some(plaintext[..|plaintext| - plaintext[|plaintext| - 1]])
  }

  /** The pad byte drawn from a random byte: its low four bits, never zero. */
  function PadByte(random: Byte): (r: Byte)
    ensures 1 <= r <= 15
  {
    if random % 16 == 0 then 15 else random % 16
  }

  function Pad(plaintext: Bytes, random: Byte): Bytes {
    plaintext + Repeat(PadByte(random), PadByte(random))
  }

  /** Every plaintext is recovered, whatever byte was drawn. */
  lemma UnpadPad(plaintext: Bytes, random: Byte, version: int)
    requires version != UNPADDED_VERSION
    ensures Unpad(Pad(plaintext, random), version) == Some(plaintext)
  {
    var n := PadByte(random);
    var s := Pad(plaintext, random);
    assert s[|s| - 1] == n;
    assert s[|plaintext|..] == Repeat(n, n) && s[..|plaintext|] == plaintext;
  }

  /** What is accepted, exactly: a last byte n preceded by n - 1 copies of it is cut off; a last byte 0 is kept. */
  lemma UnpadIff(s: Bytes, version: int, x: Bytes)
    requires version != UNPADDED_VERSION
    ensures Unpad(s, version) == Some(x) <==> s != [] && s == x + Repeat(s[|s| - 1], s[|s| - 1])
  {
    if s != [] {
      var n := s[|s| - 1];
      if s == x + Repeat(n, n) {
        assert s[|x|..] == Repeat(n, n) && s[..|x|] == x;
      }
      if Unpad(s, version) == Some(x) {
        assert s == s[..|s| - n] + s[|s| - n..];
      }
    }
  }

  /** The low four bits of the random byte are the number of pad bytes, fifteen standing for zero. */
  lemma PadLength(plaintext: Bytes, high: nat, n: nat)
    requires high < 16 && n < 16
    ensures |Pad(plaintext, 16 * high + n)| == |plaintext| + if n == 0 then 15 else n
  {
    assert (16 * high + n) % 16 == n;
  }
}
