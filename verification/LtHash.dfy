/** The homomorphic hash of app state: 64 lanes of 16 bits, added and subtracted lane by lane. */
module LtHash {
  import opened ByteStrings

  type Lane = x: int | 0 <= x < 0x1_0000

  type Lanes = s: seq<Lane> | |s| == 64 witness seq(64, i => 0)

  function ZeroLanes(): Lanes {
    seq(64, i => 0)
  }

  function Add(a: Lanes, b: Lanes): Lanes {
    seq(64, i requires 0 <= i < 64 => (a[i] as int + b[i]) % 0x1_0000)
  }

  function Subtract(a: Lanes, b: Lanes): Lanes {
    seq(64, i requires 0 <= i < 64 => (a[i] as int - b[i]) % 0x1_0000)
  }

  // ---------- Lanes form an abelian group ----------

  lemma AddCommutes(a: Lanes, b: Lanes)
    ensures Add(a, b) == Add(b, a)
  {
  }

  lemma AddAssociates(a: Lanes, b: Lanes, c: Lanes)
    ensures Add(Add(a, b), c) == Add(a, Add(b, c))
  {
  }

  lemma AddZero(a: Lanes)
    ensures Add(a, ZeroLanes()) == a && Subtract(a, ZeroLanes()) == a
  {
  }

  lemma SubtractUndoesAdd(a: Lanes, b: Lanes)
    ensures Subtract(Add(a, b), b) == a
  {
  }

  lemma SubtractSum(a: Lanes, b: Lanes, c: Lanes)
    ensures Subtract(Subtract(a, b), c) == Subtract(a, Add(b, c))
  {
  }

  lemma SubtractThenAdd(a: Lanes, b: Lanes, c: Lanes)
    ensures Add(Subtract(a, b), c) == Subtract(Add(a, c), b)
  {
  }

  // ---------- The sum of a multiset of hashed items ----------

  ghost function Sum(expand: Bytes -> Lanes, items: multiset<Bytes>): Lanes
    decreases |items|
  {
    if items == multiset{} then ZeroLanes()
    else
      var item :| item in items;
      Add(Sum(expand, items - multiset{item}), expand(item))
  }

  /** The sum does not depend on the order in which items are picked. */
  lemma {:induction false} SumInsert(expand: Bytes -> Lanes, items: multiset<Bytes>, x: Bytes)
    ensures Sum(expand, items + multiset{x}) == Add(Sum(expand, items), expand(x))
    decreases |items|
  {
    hide Add;
    var all := items + multiset{x};
    var y :| y in all && Sum(expand, all) == Add(Sum(expand, all - multiset{y}), expand(y));
    if y == x {
      assert all - multiset{y} == items;
    } else {
      var others := items - multiset{y};
      assert all - multiset{y} == others + multiset{x};
      assert others + multiset{y} == items;
      SumInsert(expand, others, x);
      SumInsert(expand, others, y);
      AddAssociates(Sum(expand, others), expand(x), expand(y));
      AddAssociates(Sum(expand, others), expand(y), expand(x));
      AddCommutes(expand(x), expand(y));
    }
  }

  lemma {:induction false} SumUnion(expand: Bytes -> Lanes, a: multiset<Bytes>, b: multiset<Bytes>)
    ensures Sum(expand, a + b) == Add(Sum(expand, a), Sum(expand, b))
    decreases |b|
  {
    hide Add;
    if b == multiset{} {
      assert a + b == a;
      AddZero(Sum(expand, a));
    } else {
      var y :| y in b;
      var others := b - multiset{y};
      SumUnion(expand, a, others);
      assert a + b == (a + others) + multiset{y} && b == others + multiset{y};
      SumInsert(expand, a + others, y);
      SumInsert(expand, others, y);
      AddAssociates(Sum(expand, a), Sum(expand, others), expand(y));
    }
  }

  // ---------- Applying a batch ----------

  /** Subtracting each item of `subtract` and then adding each item of `add`, in order. */
  function SubtractThenAddAll(expand: Bytes -> Lanes, base: Lanes, subtract: seq<Bytes>, add: seq<Bytes>): Lanes {
    AddEach(expand, SubtractEach(expand, base, subtract), add)
  }

  function AddEach(expand: Bytes -> Lanes, base: Lanes, items: seq<Bytes>): Lanes {
    if items == [] then base else Add(AddEach(expand, base, items[..|items| - 1]), expand(items[|items| - 1]))
  }

  function SubtractEach(expand: Bytes -> Lanes, base: Lanes, items: seq<Bytes>): Lanes {
    if items == [] then base else Subtract(SubtractEach(expand, base, items[..|items| - 1]), expand(items[|items| - 1]))
  }

  lemma {:induction false} AddEachIsSum(expand: Bytes -> Lanes, base: Lanes, items: seq<Bytes>)
    ensures AddEach(expand, base, items) == Add(base, Sum(expand, multiset(items)))
  {
    hide Add;
    if items == [] {
      AddZero(base);
    } else {
      var init, last := items[..|items| - 1], items[|items| - 1];
      assert items == init + [last];
      AddEachIsSum(expand, base, init);
      SumInsert(expand, multiset(init), last);
      AddAssociates(base, Sum(expand, multiset(init)), expand(last));
    }
  }

  lemma {:induction false} SubtractEachIsSum(expand: Bytes -> Lanes, base: Lanes, items: seq<Bytes>)
    ensures SubtractEach(expand, base, items) == Subtract(base, Sum(expand, multiset(items)))
  {
    hide Add, Subtract;
    if items == [] {
      AddZero(base);
    } else {
      var init, last := items[..|items| - 1], items[|items| - 1];
      assert items == init + [last];
      SubtractEachIsSum(expand, base, init);
      SumInsert(expand, multiset(init), last);
      SubtractSum(base, Sum(expand, multiset(init)), expand(last));
    }
  }

  /** A batch that balances, item for item, takes the sum of what was there to the sum of what is there now. */
  lemma BalancedBatch(expand: Bytes -> Lanes, before: multiset<Bytes>, after: multiset<Bytes>,
                      subtract: seq<Bytes>, add: seq<Bytes>)
    requires multiset(subtract) + after == multiset(add) + before
    ensures SubtractThenAddAll(expand, Sum(expand, before), subtract, add) == Sum(expand, after)
  {
    hide Add, Subtract;
    var b, a := Sum(expand, before), Sum(expand, after);
    var s, t := Sum(expand, multiset(subtract)), Sum(expand, multiset(add));
    SubtractEachIsSum(expand, b, subtract);
    AddEachIsSum(expand, Subtract(b, s), add);
    SubtractThenAdd(b, s, t);
    SumUnion(expand, multiset(subtract), after);
    SumUnion(expand, multiset(add), before);
    AddCommutes(t, b);
    AddCommutes(s, a);
    SubtractUndoesAdd(a, s);
  }

  // ---------- The byte form ----------

  /** The little-endian lanes of a 128-byte string. */
  function LanesOf(bytes: Bytes): Lanes
    requires |bytes| == 128
  {
    seq(64, i requires 0 <= i < 64 => bytes[2 * i] as int + 256 * bytes[2 * i + 1] as int)
  }

  function LaneBytes(lanes: Lanes): (r: Bytes)
    ensures |r| == 128
  {
    seq(128, k requires 0 <= k < 128 => if k % 2 == 0 then lanes[k / 2] % 256 else lanes[k / 2] / 256)
  }

  /** The byte form gives the lanes back. */
  lemma LaneBytesInverse(lanes: Lanes)
    ensures LanesOf(LaneBytes(lanes)) == lanes
  {
    var bytes := LaneBytes(lanes);
    forall i | 0 <= i < 64
      ensures LanesOf(bytes)[i] == lanes[i]
    {
      assert bytes[2 * i] == lanes[i] % 256;
      assert (2 * i + 1) / 2 == i && (2 * i + 1) % 2 == 1;
      assert bytes[2 * i + 1] == lanes[i] / 256;
    }
  }

  lemma LanesOfInjective(a: Bytes, b: Bytes)
    requires |a| == |b| == 128 && LanesOf(a) == LanesOf(b)
    ensures a == b
  {
    forall k | 0 <= k < 128
      ensures a[k] == b[k]
    {
      var i := k / 2;
      assert LanesOf(a)[i] == LanesOf(b)[i];
      assert k == 2 * i || k == 2 * i + 1;
    }
  }

  /** The byte form and the lanes determine each other. */
  lemma BytesAndLanes(bytes: Bytes, lanes: Lanes)
    requires |bytes| == 128
    ensures LanesOf(bytes) == lanes <==> bytes == LaneBytes(lanes)
  {
    hide LanesOf, LaneBytes;
    LaneBytesInverse(lanes);
    if LanesOf(bytes) == lanes {
      LanesOfInjective(bytes, LaneBytes(lanes));
    }
  }

  function Combine(a: Lanes, b: Lanes, subtract: bool): Lanes {
    if subtract then Subtract(a, b) else Add(a, b)
  }

  lemma LaneAt(bytes: Bytes, i: nat)
    requires |bytes| == 128 && i < 64
    ensures LanesOf(bytes)[i] == bytes[2 * i] as int + 256 * bytes[2 * i + 1] as int
  {
  }

  lemma CombineAt(a: Lanes, b: Lanes, subtract: bool, i: nat)
    requires i < 64
    ensures Combine(a, b, subtract)[i]
         == if subtract then (a[i] as int - b[i]) % 0x1_0000 else (a[i] as int + b[i]) % 0x1_0000
  {
  }

  lemma PutLane(before: Bytes, i: nat, value: Lane)
    requires |before| == 128 && i < 64
    ensures LanesOf(before[2 * i := value % 256][2 * i + 1 := value / 256]) == LanesOf(before)[i := value]
  {
  }

  /** Writes one lane, low byte first. */
  method PutUint16(base: array<Byte>, i: nat, value: Lane)
    requires base.Length == 128 && i < 64
    modifies base
    ensures LanesOf(base[..]) == LanesOf(old(base[..]))[i := value]
  {
    hide LanesOf;
    ghost var before: Bytes := base[..];
    PutLane(before, i, value);
    base[2 * i] := value % 256;
    base[2 * i + 1] := value / 256;
    assert base[..] == before[2 * i := value % 256][2 * i + 1 := value / 256];
  }

  /** One operation in place on the byte form is one group operation on the lanes. */
  method PerformPointwiseWithOverflow(base: array<Byte>, input: Bytes, subtract: bool)
    requires base.Length == 128 && |input| == 128
    modifies base
    ensures LanesOf(base[..]) == Combine(LanesOf(old(base[..])), LanesOf(input), subtract)
  {
    hide LanesOf, Combine;
    ghost var first := LanesOf(base[..]);
    ghost var target := Combine(first, LanesOf(input), subtract);
    for i := 0 to 64
      invariant LanesOf(base[..]) == target[..i] + first[i..]
    {
      ghost var before: Bytes, mixed: seq<Lane> := base[..], target[..i] + first[i..];
      var x := base[2 * i] as int + 256 * base[2 * i + 1] as int;
      var y := input[2 * i] as int + 256 * input[2 * i + 1] as int;
      LaneAt(before, i);
      LaneAt(input, i);
      CombineAt(first, LanesOf(input), subtract, i);
      var result: Lane := if subtract then (x - y) % 0x1_0000 else (x + y) % 0x1_0000;
      PutUint16(base, i, result);
      assert target[..i + 1] + first[i + 1..] == mixed[i := result];
    }
  }

  /** The whole batch in place, items being expanded to 128 bytes each. */
  method SubtractThenAddInPlace(expand: Bytes -> Lanes, base: array<Byte>, subtract: seq<Bytes>, add: seq<Bytes>)
    requires base.Length == 128
    modifies base
    ensures LanesOf(base[..]) == SubtractThenAddAll(expand, LanesOf(old(base[..])), subtract, add)
  {
    ghost var start := LanesOf(base[..]);
    for i := 0 to |subtract|
      invariant LanesOf(base[..]) == SubtractEach(expand, start, subtract[..i])
    {
      assert subtract[..i + 1][..i] == subtract[..i];
      LaneBytesInverse(expand(subtract[i]));
      PerformPointwiseWithOverflow(base, LaneBytes(expand(subtract[i])), true);
    }
    assert subtract[..|subtract|] == subtract;
    ghost var middle := LanesOf(base[..]);
    for i := 0 to |add|
      invariant LanesOf(base[..]) == AddEach(expand, middle, add[..i])
    {
      assert add[..i + 1][..i] == add[..i];
      LaneBytesInverse(expand(add[i]));
      PerformPointwiseWithOverflow(base, LaneBytes(expand(add[i])), false);
    }
    assert add[..|add|] == add;
  }
}
