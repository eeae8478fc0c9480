/** Byte strings, fixed-width big-endian integers and decimal numerals.

A Go `string` and a Go `[]byte` are both modelled as a sequence of bytes.  Shifts and masks on
non-negative integers are written as divisions and remainders by powers of two. */
module ByteStrings {

  type Byte = x: int | 0 <= x < 256

  type Bytes = seq<Byte>

  datatype Option<+T> = None | Some(value: T)

  /** The bytes of an ASCII literal. */
  function Ascii(s: string): (r: Bytes)
    requires forall i :: 0 <= i < |s| ==> s[i] < 128 as char
    ensures |r| == |s|
    ensures forall i :: 0 <= i < |s| ==> r[i] == s[i] as int
  {
    seq(|s|, i requires 0 <= i < |s| => s[i] as int)
  }

  lemma Associate(a: Bytes, b: Bytes, c: Bytes)
    ensures (a + b) + c == a + (b + c)
  {
  }

  // ---------- Big-endian integers ----------

  function Pow256(n: nat): (r: nat)
    ensures r > 0
  {
    if n == 0 then 1 else 256 * Pow256(n - 1)
  }

  /** The low `n` bytes of `value`, most significant byte first. */
  function BigEndian(value: nat, n: nat): (r: Bytes)
    ensures |r| == n
  {
    if n == 0 then [] else BigEndian(value / 256, n - 1) + [value % 256]
  }

  function FromBigEndian(bs: Bytes): (r: nat)
  {
    if bs == [] then 0 else FromBigEndian(bs[..|bs| - 1]) * 256 + bs[|bs| - 1]
  }

  lemma MultipleAtLeast(c: nat, k: int)
    requires k >= 1
    ensures c * k >= c
  {
    assert c * k == c * (k - 1) + c;
    assert c * (k - 1) >= 0;
  }

  lemma DivideUnique(x: nat, c: nat, q: nat, r: nat)
    requires c > 0 && r < c && x == c * q + r
    ensures x / c == q && x % c == r
  {
    var q', r' := x / c, x % c;
    assert x == q' * c + r';
    assert c * (q' - q) == c * q' - c * q == r - r';
    if q' > q {
      MultipleAtLeast(c, q' - q);
    } else if q > q' {
      assert c * (q - q') == r' - r;
      MultipleAtLeast(c, q - q');
    }
  }

  lemma DivideTwice(a: nat, c: nat)
    requires c > 0
    ensures (a / 256) / c == a / (256 * c)
  {
    var q, r := (a / 256) / c, (a / 256) % c;
    assert a / 256 == q * c + r;
    assert a == (256 * c) * q + (256 * r + a % 256) by {
      assert 256 * (q * c) == (256 * c) * q;
    }
    DivideUnique(a, 256 * c, q, 256 * r + a % 256);
  }

  /** Byte `i` of the numeral is what a right shift by `8 * (n - i - 1)` bits leaves in the low byte. */
  lemma {:induction false} BigEndianAt(value: nat, n: nat, i: nat)
    requires i < n
    ensures BigEndian(value, n)[i] == (value / Pow256(n - i - 1)) % 256
  {
    if i < n - 1 {
      BigEndianAt(value / 256, n - 1, i);
      DivideTwice(value, Pow256(n - i - 2));
    }
  }

  /** Reading back a fixed-width numeral gives the value reduced to that width. */
  lemma {:induction false} BigEndianInverse(value: nat, n: nat)
    ensures FromBigEndian(BigEndian(value, n)) == value % Pow256(n)
  {
    if n > 0 {
      BigEndianInverse(value / 256, n - 1);
      assert BigEndian(value, n)[..n - 1] == BigEndian(value / 256, n - 1);
      RemainderTwice(value, Pow256(n - 1));
    }
  }

  lemma RemainderTwice(a: nat, c: nat)
    requires c > 0
    ensures (a / 256) % c * 256 + a % 256 == a % (256 * c)
  {
    var q, r := (a / 256) / c, (a / 256) % c;
    assert a / 256 == q * c + r;
    assert a == (256 * c) * q + (256 * r + a % 256) by {
      assert 256 * (q * c) == (256 * c) * q;
    }
    DivideUnique(a, 256 * c, q, 256 * r + a % 256);
  }

  lemma FromBigEndianPush(bs: Bytes, b: Byte)
    ensures FromBigEndian(bs + [b]) == FromBigEndian(bs) * 256 + b
  {
    assert (bs + [b])[..|bs|] == bs;
  }

  lemma FromBigEndian2(a: Byte, b: Byte)
    ensures FromBigEndian([a, b]) == a * 256 + b
  {
    FromBigEndianPush([a], b);
    FromBigEndianPush([], a);
    assert [] + [a] == [a] && [a] + [b] == [a, b];
  }

  // ---------- Decimal numerals ----------

  const ZERO: Byte := '0' as int
  const MINUS: Byte := '-' as int
  const PLUS: Byte := '+' as int

  predicate IsDigit(b: Byte)
  {
    ZERO <= b <= ZERO + 9
  }

  predicate AllDigits(s: Bytes)
  {
    forall i :: 0 <= i < |s| ==> IsDigit(s[i])
  }

  /** `strconv.FormatUint(n, 10)` */
  function Digits(n: nat): (r: Bytes)
    ensures |r| > 0
    ensures forall i :: 0 <= i < |r| ==> IsDigit(r[i])
  {
    if n < 10 then [ZERO + n] else Digits(n / 10) + [ZERO + n % 10]
  }

  /** `strconv.FormatInt(n, 10)` */
  function Decimal(n: int): Bytes
  {
    if n < 0 then [MINUS] + Digits(-n) else Digits(n)
  }

  /** The number a string of digits denotes. */
  function FromDigits(s: Bytes): (r: nat)
    requires AllDigits(s)
  {
    if s == [] then 0 else assert IsDigit(s[|s| - 1]); FromDigits(s[..|s| - 1]) * 10 + (s[|s| - 1] - ZERO)
  }

  lemma {:induction false} DigitsInverse(n: nat)
    ensures FromDigits(Digits(n)) == n
  {
    if n < 10 {
      assert Digits(n)[..0] == [];
    } else {
      DigitsInverse(n / 10);
      assert Digits(n)[..|Digits(n)| - 1] == Digits(n / 10);
    }
  }
}
