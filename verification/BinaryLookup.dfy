/** Looking up children by tag, and what a second trip over the wire does. */
module BinaryLookup {
  import opened ByteStrings
  import opened Jid
  import opened Tokens
  import opened BinaryNode

  // ---------- Child lookup ----------

  function ChildrenOf(n: Node): seq<Node> {
    if n.content.Children? then n.content.nodes else []
  }

  /** The first node with the tag. */
  function FirstTagged(nodes: seq<Node>, tag: Bytes): (r: Option<Node>)
    ensures r.Some? ==> r.value in nodes && r.value.tag == tag
    ensures r.None? <==> forall n | n in nodes :: n.tag != tag
  {
    if nodes == [] then None else if nodes[0].tag == tag then Some(nodes[0]) else FirstTagged(nodes[1..], tag)
  }

  /** Each tag recurses in.  When one is missing, what was reached so far is returned, and false. */
  function Lookup(n: Node, tags: seq<Bytes>): (Node, bool)
    decreases |tags|
  {
    if tags == [] then (n, true)
    else
      match FirstTagged(ChildrenOf(n), tags[0])
      case None => (n, false)
      case Some(child) => Lookup(child, tags[1..])
  }

  method GetOptionalChildByTag(n: Node, tags: seq<Bytes>) returns (val: Node, ok: bool)
    ensures (val, ok) == Lookup(n, tags)
  {
    hide FirstTagged;
    val := n;
    assert tags[0..] == tags;
    for i := 0 to |tags|
      invariant Lookup(n, tags) == Lookup(val, tags[i..])
    {
      var tag := tags[i];
      assert tags[i..][0] == tag && tags[i..][1..] == tags[i + 1..];
      var found := FindChild(ChildrenOf(val), tag);
      if found.None? {
        return val, false;
      }
      val := found.value;
    }
    ok := true;
  }

  method FindChild(children: seq<Node>, tag: Bytes) returns (r: Option<Node>)
    ensures r == FirstTagged(children, tag)
  {
    assert children[0..] == children;
    for i := 0 to |children|
      invariant FirstTagged(children, tag) == FirstTagged(children[i..], tag)
    {
      assert children[i..][1..] == children[i + 1..];
      if children[i].tag == tag {
        return Some(children[i]);
      }
    }
    return None;
  }

  /** Looking up a path is looking up its parts one after the other. */
  lemma {:induction false} LookupPath(n: Node, a: seq<Bytes>, b: seq<Bytes>)
    ensures Lookup(n, a + b) == var (m, ok) := Lookup(n, a); if ok then Lookup(m, b) else (m, false)
    decreases |a|
  {
    hide FirstTagged;
    if a == [] {
      assert a + b == b;
    } else {
      assert (a + b)[1..] == a[1..] + b && (a + b)[0] == a[0];
      var child := FirstTagged(ChildrenOf(n), a[0]);
      if child.Some? {
        LookupPath(child.value, a[1..], b);
      }
    }
  }

  lemma {:induction false} FirstTaggedSurvives(d: Dictionary, nodes: seq<Node>, tag: Bytes)
    ensures FirstTagged(CanonicalAll(d, nodes), tag)
         == match FirstTagged(nodes, tag) case None => None case Some(n) => Some(Canonical(d, n))
  {
    if nodes != [] {
      FirstTaggedSurvives(d, nodes[1..], tag);
      assert CanonicalAll(d, nodes)[1..] == CanonicalAll(d, nodes[1..]);
      assert Canonical(d, nodes[0]).tag == nodes[0].tag;
    }
  }

  /** A lookup on what was read gives what would be read of the lookup on what was written. */
  lemma {:induction false} LookupSurvives(d: Dictionary, n: Node, tags: seq<Bytes>)
    ensures Lookup(Canonical(d, n), tags) == (Canonical(d, Lookup(n, tags).0), Lookup(n, tags).1)
    decreases |tags|
  {
    hide FirstTagged;
    if tags != [] {
      assert ChildrenOf(Canonical(d, n)) == CanonicalAll(d, ChildrenOf(n));
      FirstTaggedSurvives(d, ChildrenOf(n), tags[0]);
      var child := FirstTagged(ChildrenOf(n), tags[0]);
      if child.Some? {
        LookupSurvives(d, child.value, tags[1..]);
      }
    }
  }

  // ---------- What a lookup finds ----------

  predicate FirstAt(nodes: seq<Node>, tag: Bytes, i: nat)
  {
    i < |nodes| && nodes[i].tag == tag && forall j :: 0 <= j < i ==> nodes[j].tag != tag
  }

  /** The path goes from n to m, at every level by the first child with the tag. */
  predicate Walks(n: Node, tags: seq<Bytes>, path: seq<nat>, m: Node)
    decreases |path|
  {
    if path == [] then m == n
    else tags != [] && FirstAt(ChildrenOf(n), tags[0], path[0])
         && Walks(ChildrenOf(n)[path[0]], tags[1..], path[1..], m)
  }

  lemma {:induction false} FirstIsFirst(nodes: seq<Node>, tag: Bytes) returns (i: nat)
    requires FirstTagged(nodes, tag).Some?
    ensures FirstAt(nodes, tag, i) && nodes[i] == FirstTagged(nodes, tag).value
  {
    i := 0;
    if nodes[0].tag != tag {
      var j := FirstIsFirst(nodes[1..], tag);
      i := j + 1;
      forall k | 0 <= k < i ensures nodes[k].tag != tag {
        assert k > 0 ==> nodes[k] == nodes[1..][k - 1];
      }
    }
  }

  /** A lookup walks as far as there are children with the tags: to the end, and then it succeeds; or to a node that has
  no child with the next tag, and then it fails with that node. */
  lemma {:induction false} LookupWalks(n: Node, tags: seq<Bytes>) returns (path: seq<nat>)
    ensures var (m, ok) := Lookup(n, tags);
            && |path| <= |tags| && Walks(n, tags, path, m) && (ok <==> |path| == |tags|)
            && (|path| < |tags| ==> forall child | child in ChildrenOf(m) :: child.tag != tags[|path|])
    decreases |tags|
  {
    path := [];
    if tags != [] && FirstTagged(ChildrenOf(n), tags[0]).Some? {
      var i := FirstIsFirst(ChildrenOf(n), tags[0]);
      var rest := LookupWalks(ChildrenOf(n)[i], tags[1..]);
      path := [i] + rest;
      assert path[1..] == rest;
    }
  }

  // ---------- The second trip ----------

  /** No written attribute, at any depth, is an empty byte slice or an empty list: it would come back as "" or nil. */
  predicate Settled(n: Node)
  {
    && (forall k | k in n.attrs && !Skipped(n.attrs[k]) :: !Vanishes(n.attrs[k]) && SettledValue(n.attrs[k]))
    && SettledValue(n.content)
  }

  predicate SettledValue(v: Value)
  {
    v.Children? ==> forall n | n in v.nodes :: Settled(n)
  }

  predicate Vanishes(v: Value)
  {
    v == Leaf(Bin([])) || v == Children([])
  }

  lemma CanonicalJIDTwice(j: JID)
    ensures CanonicalJID(CanonicalJID(j)) == CanonicalJID(j)
  {
    ServersDiffer();
    CanonicalJIDIdentity(CanonicalJID(j));
  }

  lemma CanonicalScalarTwice(d: Dictionary, s: Scalar, asString: bool)
    ensures CanonicalScalar(d, CanonicalScalar(d, s, asString), asString) == CanonicalScalar(d, s, asString)
  {
    hide Shortened;
    if s.JidOf? {
      CanonicalJIDTwice(s.jid);
    }
  }

  lemma SkippedAfter(d: Dictionary, v: Value)
    requires !Skipped(v)
    ensures Skipped(CanonicalValue(d, v, true)) <==> Vanishes(v)
  {
    hide CanonicalJID;
  }

  lemma {:induction false} CanonicalValueTwice(d: Dictionary, v: Value, asString: bool)
    ensures CanonicalValue(d, CanonicalValue(d, v, asString), asString) == CanonicalValue(d, v, asString)
            <==> SettledValue(v)
    decreases v, 1
  {
    hide Canonical, CanonicalScalar, Settled;
    match v
    case Leaf(s) => CanonicalScalarTwice(d, s, asString);
    case Children(nodes) =>
      AbsentStays(d, asString);
      CanonicalAllTwice(d, nodes);
  }

  lemma AbsentStays(d: Dictionary, asString: bool)
    ensures CanonicalValue(d, ABSENT, asString) == ABSENT
  {
  }

  lemma {:induction false} CanonicalAllTwice(d: Dictionary, nodes: seq<Node>)
    ensures CanonicalAll(d, CanonicalAll(d, nodes)) == CanonicalAll(d, nodes) <==> forall n | n in nodes :: Settled(n)
    decreases nodes, 0
  {
    hide Canonical, Settled;
    if nodes != [] {
      CanonicalTwice(d, nodes[0]);
      CanonicalAllTwice(d, nodes[1..]);
      var once := CanonicalAll(d, nodes);
      assert once[0] == Canonical(d, nodes[0]) && once[1..] == CanonicalAll(d, nodes[1..]);
      SameFront(CanonicalAll(d, once), once, Canonical(d, once[0]), once[0], CanonicalAll(d, once[1..]), once[1..]);
      assert nodes == [nodes[0]] + nodes[1..];
    }
  }

  lemma SameFront<T>(s: seq<T>, t: seq<T>, x: T, y: T, s': seq<T>, t': seq<T>)
    requires s == [x] + s' && t == [y] + t'
    ensures s == t <==> x == y && s' == t'
  {
    assert s[1..] == s' && t[1..] == t' && s[0] == x && t[0] == y;
  }

  /** A node that was read survives a second trip unchanged if and only if no attribute vanishes on it. */
  lemma {:induction false} CanonicalTwice(d: Dictionary, n: Node)
    ensures Canonical(d, Canonical(d, n)) == Canonical(d, n) <==> Settled(n)
    decreases n, 2
  {
    hide CanonicalValue, SettledValue, Skipped, Vanishes;
    var once := Canonical(d, n);
    CanonicalValueTwice(d, n.content, false);
    forall k | k in n.attrs && !Skipped(n.attrs[k])
      ensures Skipped(once.attrs[k]) <==> Vanishes(n.attrs[k])
      ensures CanonicalValue(d, once.attrs[k], true) == once.attrs[k] <==> SettledValue(n.attrs[k])
    {
      SkippedAfter(d, n.attrs[k]);
      CanonicalValueTwice(d, n.attrs[k], true);
    }
    CompareMaps(d, once);
  }

  lemma CompareMaps(d: Dictionary, once: Node)
    ensures Canonical(d, once) == once
            <==> (forall k | k in once.attrs ::
                    !Skipped(once.attrs[k]) && CanonicalValue(d, once.attrs[k], true) == once.attrs[k])
                 && CanonicalValue(d, once.content, false) == once.content
  {
    hide CanonicalValue, Skipped;
    var twice := Canonical(d, once);
    if twice == once {
      forall k | k in once.attrs
        ensures !Skipped(once.attrs[k]) && CanonicalValue(d, once.attrs[k], true) == once.attrs[k]
      {
        assert k in twice.attrs;
      }
    }
  }

  /** An empty byte slice as an attribute comes back as "", and is gone after the second trip. */
  lemma EmptyBytesVanish(d: Dictionary, tag: Bytes, key: Bytes)
    ensures var n := Node(tag, map[key := Leaf(Bin([]))], ABSENT);
            Canonical(d, n).attrs == map[key := Leaf(Str([]))] && Canonical(d, Canonical(d, n)).attrs == map[]
  {
    var n := Node(tag, map[key := Leaf(Bin([]))], ABSENT);
    assert Canonical(d, n).attrs == map[key := Leaf(Str([]))];
  }
}
