/** The attributes of an element: a circular doubly linked list around a sentinel, seen as an
    insertion-ordered map. */
module XmlAttributes {
  import opened Bytes

  datatype Pair = Pair(name: seq<byte>, value: seq<byte>)

  // ----- the ordered map -----

  /** The position of a name, -1 when it is not there. */
  function IndexOf(pairs: seq<Pair>, name: seq<byte>): (i: int)
    ensures -1 <= i < |pairs|
    ensures i >= 0 ==> pairs[i].name == name
  {
    if pairs == [] then -1
    else if pairs[0].name == name then 0
    else
      var i := IndexOf(pairs[1..], name);
      if i < 0 then -1 else i + 1
  }

  function Get(pairs: seq<Pair>, name: seq<byte>): Option<seq<byte>> {
    var i := IndexOf(pairs, name);
    if i < 0 then None else Some(pairs[i].value)
  }

  /** Setting keeps the place of a name that is there and appends one that is not. */
  function Put(pairs: seq<Pair>, name: seq<byte>, value: seq<byte>): seq<Pair> {
    var i := IndexOf(pairs, name);
    if name == [] then pairs
    else if i >= 0 then pairs[i := Pair(name, value)]
    else pairs + [Pair(name, value)]
  }

  function Delete(pairs: seq<Pair>, name: seq<byte>): seq<Pair> {
    var i := IndexOf(pairs, name);
    if i < 0 then pairs else pairs[..i] + pairs[i + 1..]
  }

  /** Names are not empty and not repeated. */
  predicate WellNamed(pairs: seq<Pair>) {
    && (forall i | 0 <= i < |pairs| :: pairs[i].name != [])
    && (forall i, j | 0 <= i < j < |pairs| :: pairs[i].name != pairs[j].name)
  }

  lemma {:induction false} IndexOfNone(pairs: seq<Pair>, name: seq<byte>)
    ensures IndexOf(pairs, name) < 0 <==> forall k | 0 <= k < |pairs| :: pairs[k].name != name
  {
    if pairs != [] {
      IndexOfNone(pairs[1..], name);
      if IndexOf(pairs, name) < 0 {
        forall k | 0 <= k < |pairs|
          ensures pairs[k].name != name
        {
          assert k > 0 ==> pairs[k] == pairs[1..][k - 1];
        }
      }
    }
  }

  /** In a well-named list an entry is found where it stands. */
  lemma IndexOfAt(pairs: seq<Pair>, k: nat)
    requires WellNamed(pairs) && k < |pairs|
    ensures IndexOf(pairs, pairs[k].name) == k
  {
    IndexOfNone(pairs, pairs[k].name);
    var i := IndexOf(pairs, pairs[k].name);
    assert pairs[i].name == pairs[k].name;
  }

  /** The found position is the only one with the name, so it determines Get. */
  lemma GetIs(pairs: seq<Pair>, name: seq<byte>, k: nat)
    requires WellNamed(pairs) && k < |pairs| && pairs[k].name == name
    ensures Get(pairs, name) == Some(pairs[k].value)
  {
    IndexOfAt(pairs, k);
  }

  lemma PutKeepsNames(pairs: seq<Pair>, name: seq<byte>, value: seq<byte>)
    requires WellNamed(pairs)
    ensures WellNamed(Put(pairs, name, value))
  {
    IndexOfNone(pairs, name);
  }

  lemma PutLaws(pairs: seq<Pair>, name: seq<byte>, value: seq<byte>, other: seq<byte>)
    requires WellNamed(pairs)
    ensures WellNamed(Put(pairs, name, value))
    ensures Get(Put(pairs, name, value), other) ==
            if other == name && name != [] then Some(value) else Get(pairs, other)
  {
    var r, i := Put(pairs, name, value), IndexOf(pairs, name);
    IndexOfNone(pairs, name);
    PutKeepsNames(pairs, name, value);
    hide WellNamed, IndexOf;
    if name != [] {
      var m := IndexOf(pairs, other);
      if other == name {
        GetIs(r, name, if i >= 0 then i else |pairs|);
      } else if m >= 0 {
        assert r[m] == pairs[m];
        GetIs(r, other, m);
      } else {
        IndexOfNone(pairs, other);
        IndexOfNone(r, other);
      }
    }
  }

  lemma DeleteKeepsNames(pairs: seq<Pair>, name: seq<byte>)
    requires WellNamed(pairs)
    ensures WellNamed(Delete(pairs, name))
    ensures forall k | 0 <= k < |Delete(pairs, name)| :: Delete(pairs, name)[k].name != name
  {
    var i, r := IndexOf(pairs, name), Delete(pairs, name);
    IndexOfNone(pairs, name);
    if i >= 0 {
      assert forall k | 0 <= k < |r| :: r[k] == if k < i then pairs[k] else pairs[k + 1];
    }
  }

  lemma DeleteLaws(pairs: seq<Pair>, name: seq<byte>, other: seq<byte>)
    requires WellNamed(pairs)
    ensures WellNamed(Delete(pairs, name))
    ensures Get(Delete(pairs, name), other) == if other == name then None else Get(pairs, other)
  {
    hide WellNamed, IndexOf;
    var i, r := IndexOf(pairs, name), Delete(pairs, name);
    var m := IndexOf(pairs, other);
    DeleteKeepsNames(pairs, name);
    if i >= 0 && other != name {
      assert forall k | 0 <= k < |r| :: r[k] == if k < i then pairs[k] else pairs[k + 1];
      if m >= 0 {
        GetIs(r, other, if m < i then m else m - 1);
      } else {
        IndexOfNone(pairs, other);
        IndexOfNone(r, other);
      }
    } else {
      IndexOfNone(r, other);
    }
  }

  datatype Op = Set(name: seq<byte>, value: seq<byte>) | Remove(name: seq<byte>)

  function After(ops: seq<Op>): seq<Pair> {
    if ops == [] then []
    else
      match ops[|ops| - 1]
      case Set(n, v) => Put(After(ops[..|ops| - 1]), n, v)
      case Remove(n) => Delete(After(ops[..|ops| - 1]), n)
  }

  /** What a plain map would hold. */
  function Lookup(ops: seq<Op>, name: seq<byte>): Option<seq<byte>> {
    if ops == [] then None
    else
      var op := ops[|ops| - 1];
      if op.name == name && name != [] then (if op.Set? then Some(op.value) else None)
      else Lookup(ops[..|ops| - 1], name)
  }

  /** Over every sequence of settings and removals the list stays well named and answers like a map. */
  lemma {:induction false} ActsAsMap(ops: seq<Op>, name: seq<byte>)
    ensures WellNamed(After(ops)) && Get(After(ops), name) == Lookup(ops, name)
    decreases |ops|
  {
    if ops != [] {
      var init, op := ops[..|ops| - 1], ops[|ops| - 1];
      ActsAsMap(init, name);
      hide Put, Delete, Get, WellNamed;
      match op
      case Set(n, v) => PutLaws(After(init), n, v, name);
      case Remove(n) =>
        DeleteLaws(After(init), n, name);
        if name == [] { NoEmptyName(After(init)); }
    }
  }

  /** The names in their order. */
  function Names(pairs: seq<Pair>): seq<seq<byte>> {
    seq(|pairs|, i requires 0 <= i < |pairs| => pairs[i].name)
  }

  /** Setting a known name leaves the names as they are; a new name comes last; an empty one is refused. */
  lemma NamesAfterPut(pairs: seq<Pair>, name: seq<byte>, value: seq<byte>)
    ensures Names(Put(pairs, name, value)) == if name == [] || name in Names(pairs) then Names(pairs)
            else Names(pairs) + [name]
  {
    IndexOfNone(pairs, name);
    var i := IndexOf(pairs, name);
    if i >= 0 {
      assert Names(pairs)[i] == name;
      assert forall k | 0 <= k < |pairs| :: Put(pairs, name, value)[k].name == pairs[k].name;
    } else {
      assert forall k | 0 <= k < |pairs| :: Names(pairs)[k] == pairs[k].name;
    }
  }

  /** The operation that first set `name` since it was last removed. */
  function FirstSet(ops: seq<Op>, name: seq<byte>): (t: Option<nat>)
    ensures t.Some? ==> t.value < |ops|
  {
    if ops == [] then None
    else
      var before, op := FirstSet(ops[..|ops| - 1], name), ops[|ops| - 1];
      if op.name != name || name == [] then before
      else if op.Remove? then None
      else if before.Some? then before
      else Some(|ops| - 1)
  }

  predicate Earlier(ops: seq<Op>, a: seq<byte>, b: seq<byte>) {
    FirstSet(ops, a).Some? && FirstSet(ops, b).Some? && FirstSet(ops, a).value < FirstSet(ops, b).value
  }

  /** Exactly the names that are set stand there, in the order of their first settings. */
  ghost predicate InOrderOfSetting(names: seq<seq<byte>>, ops: seq<Op>) {
    && (forall i, j | 0 <= i < j < |names| :: Earlier(ops, names[i], names[j]))
    && (forall name :: name in names <==> FirstSet(ops, name).Some?)
  }

  /** Over every sequence of settings and removals exactly the names with a setting since their last removal
      are there, in the order of the first of these settings. */
  lemma {:induction false} OrderFollowsHistory(ops: seq<Op>)
    ensures InOrderOfSetting(Names(After(ops)), ops)
    decreases |ops|
  {
    hide Put, Delete, Get, IndexOf, WellNamed, Names, InOrderOfSetting, Lookup;
    if ops == [] {
      NothingSet();
    } else {
      var init, op := ops[..|ops| - 1], ops[|ops| - 1];
      var pairs := After(init);
      OrderFollowsHistory(init);
      ActsAsMap(init, op.name);
      assert init + [op] == ops;
      match op
      case Set(n, v) =>
        NamesAfterPut(pairs, n, v);
        OrderAfterSet(Names(pairs), init, n, v);
      case Remove(n) =>
        NamesAfterDelete(pairs, n);
        OrderAfterRemove(Names(pairs), init, n, IndexOf(pairs, n));
    }
  }

  lemma NothingSet()
    ensures InOrderOfSetting(Names([]), [])
  {
  }

  lemma FirstSetNext(init: seq<Op>, op: Op, name: seq<byte>)
    ensures FirstSet(init + [op], name) ==
            if op.name != name || name == [] then FirstSet(init, name)
            else if op.Remove? then None
            else if FirstSet(init, name).Some? then FirstSet(init, name)
            else Some(|init|)
  {
    var ops := init + [op];
    assert ops[..|ops| - 1] == init;
  }

  lemma OrderAfterSet(names: seq<seq<byte>>, init: seq<Op>, n: seq<byte>, v: seq<byte>)
    requires InOrderOfSetting(names, init)
    ensures InOrderOfSetting(if n == [] || n in names then names else names + [n], init + [Set(n, v)])
  {
    var after := if n == [] || n in names then names else names + [n];
    var ops := init + [Set(n, v)];
    forall name
      ensures FirstSet(ops, name) == if name == n && n != [] && n !in names then Some(|init|) else FirstSet(init, name)
    {
      FirstSetNext(init, Set(n, v), name);
    }
    hide FirstSet;
    forall i, j | 0 <= i < j < |after|
      ensures Earlier(ops, after[i], after[j])
    {
      assert after[i] == names[i] && names[i] in names;
      if j < |names| {
        assert names[j] in names;
        assert Earlier(init, names[i], names[j]);
      }
    }
  }

  lemma NamesAfterDelete(pairs: seq<Pair>, n: seq<byte>)
    requires WellNamed(pairs)
    ensures var i := IndexOf(pairs, n);
            && -1 <= i < |Names(pairs)| && (i >= 0 ==> Names(pairs)[i] == n && n != [])
            && (i < 0 ==> n !in Names(pairs))
            && Names(Delete(pairs, n)) == if i < 0 then Names(pairs) else Names(pairs)[..i] + Names(pairs)[i + 1..]
  {
    IndexOfNone(pairs, n);
    NamesAt(pairs);
    NamesAt(Delete(pairs, n));
    var i, names := IndexOf(pairs, n), Names(pairs);
    if i >= 0 {
      DeletedNames(pairs, i);
    } else {
      assert n !in names;
    }
    hide Names, IndexOf;
  }

  lemma DeletedNames(pairs: seq<Pair>, i: nat)
    requires i < |pairs|
    ensures Names(pairs[..i] + pairs[i + 1..]) == Names(pairs)[..i] + Names(pairs)[i + 1..]
  {
  }

  lemma NamesAt(pairs: seq<Pair>)
    ensures |Names(pairs)| == |pairs| && forall k | 0 <= k < |pairs| :: Names(pairs)[k] == pairs[k].name
  {
  }

  lemma OrderAfterRemove(names: seq<seq<byte>>, init: seq<Op>, n: seq<byte>, at: int)
    requires InOrderOfSetting(names, init) && -1 <= at < |names|
    requires (at >= 0 ==> names[at] == n && n != []) && (at < 0 ==> n !in names)
    ensures InOrderOfSetting(if at < 0 then names else names[..at] + names[at + 1..], init + [Remove(n)])
  {
    hide FirstSet, Earlier;
    var after := if at < 0 then names else names[..at] + names[at + 1..];
    var ops := init + [Remove(n)];
    forall i, j | 0 <= i < j < |after|
      ensures Earlier(ops, after[i], after[j])
    {
      RemovedEarlier(names, init, n, at, i, j);
    }
    forall name
      ensures name in after <==> FirstSet(ops, name).Some?
    {
      RemovedNames(names, init, n, at, name);
    }
  }

  lemma FirstSetAfterRemove(init: seq<Op>, n: seq<byte>, name: seq<byte>)
    ensures FirstSet(init + [Remove(n)], name) == if name == n && n != [] then None else FirstSet(init, name)
  {
    FirstSetNext(init, Remove(n), name);
    hide FirstSet;
  }

  lemma RemovedEarlier(names: seq<seq<byte>>, init: seq<Op>, n: seq<byte>, at: int, i: nat, j: nat)
    requires InOrderOfSetting(names, init) && -1 <= at < |names|
    requires (at >= 0 ==> names[at] == n && n != []) && (at < 0 ==> n !in names)
    requires i < j < |if at < 0 then names else names[..at] + names[at + 1..]|
    ensures var after := if at < 0 then names else names[..at] + names[at + 1..];
            Earlier(init + [Remove(n)], after[i], after[j])
  {
    hide FirstSet;
    var k, l := (if at < 0 || i < at then i else i + 1), (if at < 0 || j < at then j else j + 1);
    assert Earlier(init, names[k], names[l]);
    NotTheRemoved(names, init, n, at, k);
    NotTheRemoved(names, init, n, at, l);
    hide InOrderOfSetting;
    FirstSetAfterRemove(init, n, names[k]);
    FirstSetAfterRemove(init, n, names[l]);
  }

  lemma RemovedNames(names: seq<seq<byte>>, init: seq<Op>, n: seq<byte>, at: int, name: seq<byte>)
    requires InOrderOfSetting(names, init) && -1 <= at < |names|
    requires (at >= 0 ==> names[at] == n && n != []) && (at < 0 ==> n !in names)
    ensures name in (if at < 0 then names else names[..at] + names[at + 1..]) <==>
            FirstSet(init + [Remove(n)], name).Some?
  {
    hide FirstSet, Earlier;
    assert name in names <==> FirstSet(init, name).Some?;
    FirstSetAfterRemove(init, n, name);
    if at >= 0 {
      forall k | 0 <= k < |names| && k != at
        ensures names[k] != names[at]
      {
        NotTheRemoved(names, init, n, at, k);
      }
      hide InOrderOfSetting;
      WithoutOne(names, at, name);
    }
  }

  lemma NotTheRemoved(names: seq<seq<byte>>, init: seq<Op>, n: seq<byte>, at: int, k: nat)
    requires InOrderOfSetting(names, init) && -1 <= at < |names| && k < |names| && k != at
    requires (at >= 0 ==> names[at] == n) && (at < 0 ==> n !in names)
    ensures names[k] != n
  {
    if 0 <= at {
      assert if k < at then Earlier(init, names[k], names[at]) else Earlier(init, names[at], names[k]);
    } else {
      assert names[k] in names;
    }
  }

  /** Leaving out position `at`, whose name stands nowhere else. */
  lemma WithoutOne(names: seq<seq<byte>>, at: nat, name: seq<byte>)
    requires at < |names| && forall k | 0 <= k < |names| && k != at :: names[k] != names[at]
    ensures name in names[..at] + names[at + 1..] <==> name in names && name != names[at]
  {
    var after := names[..at] + names[at + 1..];
    if name in names && name != names[at] {
      StillThere(names, at, name);
    }
    if name in after {
      var i :| 0 <= i < |after| && after[i] == name;
      assert names[if i < at then i else i + 1] == name;
    }
  }

  lemma StillThere(names: seq<seq<byte>>, at: nat, name: seq<byte>)
    requires at < |names| && name in names && name != names[at]
    ensures name in names[..at] + names[at + 1..]
  {
    var k :| 0 <= k < |names| && names[k] == name;
    var after := names[..at] + names[at + 1..];
    assert after[if k < at then k else k - 1] == name;
  }

  lemma NoEmptyName(pairs: seq<Pair>)
    requires WellNamed(pairs)
    ensures Get(pairs, []) == None
  {
    IndexOfNone(pairs, []);
  }

  /** Setting a well-named list entry by entry rebuilds it in order. */
  lemma PutNext(pairs: seq<Pair>, k: nat)
    requires WellNamed(pairs) && k < |pairs|
    ensures Put(pairs[..k], pairs[k].name, pairs[k].value) == pairs[..k + 1]
  {
    IndexOfNone(pairs[..k], pairs[k].name);
  }

  // ----- the ring -----

  class Attribute {
    var name: seq<byte>
    var value: seq<byte>
    var prev: Attribute?
    var next: Attribute?

    constructor (name: seq<byte>, value: seq<byte>)
      ensures this.name == name && this.value == value
    {
      this.name := name;
      this.value := value;
      prev, next := null, null;
    }
  }

  lemma WellNamedAppend(pairs: seq<Pair>, p: Pair)
    requires WellNamed(pairs) && p.name != [] && IndexOf(pairs, p.name) < 0
    ensures WellNamed(pairs + [p])
  {
    IndexOfNone(pairs, p.name);
  }

  lemma WellNamedWithout(pairs: seq<Pair>, k: nat)
    requires WellNamed(pairs) && k < |pairs|
    ensures WellNamed(pairs[..k] + pairs[k + 1..])
    ensures pairs[..k] + pairs[k + 1..] == Delete(pairs, pairs[k].name)
  {
    IndexOfAt(pairs, k);
    DeleteLaws(pairs, pairs[k].name, []);
  }

  class AttributeSet {
    const sentinel: Attribute
    ghost var items: seq<Attribute>
    ghost var pairs: seq<Pair>

    /** The ring, cut open at the sentinel. */
    ghost function Ring(): (r: seq<Attribute>)
      reads this`items
      ensures |r| == |items| + 2
    {
      [sentinel] + items + [sentinel]
    }

    ghost predicate Linked()
      reads this`items, Nodes()`next, Nodes()`prev
    {
      && sentinel !in items
      && (forall i, j | 0 <= i < j < |items| :: items[i] != items[j])
      && (forall i | 0 <= i <= |items| :: HopAt(i))
    }

    /** Two neighbours of `r` point to each other. */
    ghost predicate Hop(r: seq<Attribute>, i: nat)
      requires i + 1 < |r|
      reads (if i + 1 < |r| then {r[i], r[i + 1]} else {})`next, (if i + 1 < |r| then {r[i], r[i + 1]} else {})`prev
    {
      r[i].next == r[i + 1] && r[i + 1].prev == r[i]
    }

    ghost predicate HopAt(i: nat)
      requires i <= |items|
      reads this`items, Nodes()`next, Nodes()`prev
    {
      InNodes(i);
      Hop(Ring(), i)
    }

    lemma InNodes(i: nat)
      requires i <= |items|
      ensures Ring()[i] in Nodes() && Ring()[i + 1] in Nodes()
    {
    }

    ghost predicate Named()
      reads this`items, this`pairs, Nodes()`name, Nodes()`value
    {
      && |pairs| == |items|
      && (forall i | 0 <= i < |items| :: pairs[i] == Pair(items[i].name, items[i].value))
    }

    ghost predicate Valid()
      reads this, Nodes()
    {
      && Linked()
      && sentinel.name == [] && sentinel.value == []
      && Named()
      && WellNamed(pairs)
    }

    constructor ()
      ensures Valid() && pairs == [] && items == [] && fresh(sentinel)
    {
      sentinel := new Attribute([], []);
      items, pairs := [], [];
      new;
      sentinel.next := sentinel;
      sentinel.prev := sentinel;
    }

    /** The nodes of the ring, for the frames of the methods. */
    ghost function Nodes(): set<Attribute>
      reads this`items
    {
      {sentinel} + set a | a in items
    }

    /** The first attribute, null when there is none. */
    function First(): Attribute?
      reads this, sentinel
    {
      if sentinel.next == sentinel then null else sentinel.next
    }

    /** Following `next` from ring position `k`. */
    lemma NextInRing(k: nat)
      requires Linked() && k <= |items|
      ensures Ring()[k].next == (if k < |items| then items[k] else sentinel)
      ensures k < |items| ==> Ring()[k + 1] == items[k] != sentinel
      ensures Ring()[0] == sentinel
      ensures k < |items| ==> items[k].next == if k + 1 < |items| then items[k + 1] else sentinel
    {
      assert HopAt(k);
      if k < |items| {
        assert HopAt(k + 1);
      }
    }

    /** First and Next, as the loops over the attributes use them: the sentinel is known by its empty
        name and value. */
    method Next(attribute: Attribute, ghost k: nat) returns (r: Attribute?)
      requires Valid() && k < |items| && attribute == items[k]
      ensures r == if k + 1 < |items| then items[k + 1] else null
    {
      NextInRing(k);
      var n := attribute.next;
      assert k + 1 < |items| ==> pairs[k + 1].name != [];
      if n.value == [] && n.name == [] {
        return null;
      }
      return n;
    }

    lemma FirstInRing()
      requires Linked()
      ensures First() == if items == [] then null else items[0]
    {
      NextInRing(0);
    }

    /** What a walk along the ring starts from. */
    lemma FirstIs()
      requires Valid()
      ensures First() == (if items == [] then null else items[0]) && |pairs| == |items|
    {
      FirstInRing();
    }

    lemma PairAt(k: nat)
      requires Valid() && k < |items|
      ensures k < |pairs| && pairs[k] == Pair(items[k].name, items[k].value)
    {
    }

    method Find(name: seq<byte>) returns (node: Attribute?)
      requires Valid()
      ensures var i := IndexOf(pairs, name); if i < 0 then node == null else node == items[i]
    {
      hide Linked, WellNamed, IndexOf;
      NextInRing(0);
      var cur := sentinel.next;
      ghost var k := 0;
      while cur != sentinel
        invariant Valid()
        invariant 0 <= k <= |items| && cur == if k < |items| then items[k] else sentinel
        invariant k < |items| ==> cur != sentinel
        invariant forall j | 0 <= j < k :: pairs[j].name != name
        decreases |items| - k
      {
        if cur.name == name {
          IndexOfAt(pairs, k);
          return cur;
        }
        NextInRing(k);
        cur := cur.next;
        k := k + 1;
        if k < |items| { NextInRing(k); }
      }
      IndexOfNone(pairs, name);
      return null;
    }

    /** The pointer work of Add. */
    method LinkLast(addMe: Attribute)
      requires Linked() && addMe != sentinel && addMe !in items
      modifies this`items, (Nodes() + {addMe})`next, (Nodes() + {addMe})`prev
      ensures Linked() && items == old(items) + [addMe]
    {
      ghost var n, r := |items|, Ring();
      RingDistinct();
      assert HopAt(n);
      addMe.next := sentinel;
      addMe.prev := sentinel.prev;
      sentinel.prev.next := addMe;
      sentinel.prev := addMe;
      items := items + [addMe];
      forall i | 0 <= i <= |items|
        ensures HopAt(i)
      {
        assert i <= n ==> Ring()[i] == r[i];
        assert i < n ==> Ring()[i + 1] == r[i + 1] && old(HopAt(i));
      }
    }

    /** Links a new attribute in front of the sentinel. */
    method Add(addMe: Attribute)
      requires Valid() && addMe != sentinel && addMe !in items
      requires addMe.name != [] && IndexOf(pairs, addMe.name) < 0
      modifies this, (Nodes() + {addMe})`next, (Nodes() + {addMe})`prev
      ensures Valid() && items == old(items) + [addMe]
      ensures pairs == old(pairs) + [Pair(addMe.name, addMe.value)]
    {
      hide Linked, IndexOf, WellNamed;
      WellNamedAppend(pairs, Pair(addMe.name, addMe.value));
      LinkLast(addMe);
      pairs := pairs + [Pair(addMe.name, addMe.value)];
    }

    /** No node stands twice in the ring, the sentinel's two ends apart. */
    lemma RingDistinct()
      requires Linked()
      ensures forall i, j | 0 <= i < j <= |items| :: Ring()[i] != Ring()[j]
      ensures forall i, j | 1 <= i < j <= |items| + 1 :: Ring()[i] != Ring()[j]
    {
    }

    /** The two assignments that take ring position `k + 1` out leave every other link as it was. */
    method Bypass(node: Attribute, ghost k: nat)
      requires Linked() && k < |items| && items[k] == node
      modifies Nodes()`next, Nodes()`prev
      ensures Ring()[k].next == Ring()[k + 2] && Ring()[k + 2].prev == Ring()[k]
      ensures forall j | 0 <= j <= |items| && j != k && j != k + 1 :: HopAt(j)
    {
      RingDistinct();
      ghost var r := Ring();
      assert HopAt(k) && HopAt(k + 1);
      node.prev.next := node.next;
      node.next.prev := node.prev;
      node.next := null;
      node.prev := null;
      forall j | 0 <= j <= |items| && j != k && j != k + 1
        ensures HopAt(j)
      {
        assert old(HopAt(j));
      }
    }

    lemma StillDistinct(before: seq<Attribute>, k: nat)
      requires k < |before| && sentinel !in before
      requires forall i, j | 0 <= i < j < |before| :: before[i] != before[j]
      ensures var rest := before[..k] + before[k + 1..];
              && sentinel !in rest
              && (forall i, j | 0 <= i < j < |rest| :: rest[i] != rest[j])
    {
    }

    /** The ring without position `k + 1`, each hop of it a hop of the old one or the one over the gap. */
    lemma ShorterRing(before: seq<Attribute>, r: seq<Attribute>, k: nat, i: nat)
      requires k < |before| && items == before[..k] + before[k + 1..] && r == [sentinel] + before + [sentinel]
      requires i <= |items|
      ensures Ring()[i] == if i <= k then r[i] else r[i + 1]
      ensures Ring()[i + 1] == if i < k then r[i + 1] else r[i + 2]
    {
    }

    /** The pointer work of Remove. */
    method Unlink(node: Attribute, ghost k: nat)
      requires Linked() && k < |items| && items[k] == node
      modifies this`items, Nodes()`next, Nodes()`prev
      ensures Linked() && items == old(items)[..k] + old(items)[k + 1..]
    {
      ghost var r, before := Ring(), items;
      Bypass(node, k);
      assert forall j | 0 <= j <= |before| && j != k && j != k + 1 :: HopAt(j) && Hop(r, j);
      assert r[k].next == r[k + 2] && r[k + 2].prev == r[k];
      StillDistinct(before, k);
      items := items[..k] + items[k + 1..];
      forall i | 0 <= i <= |items|
        ensures HopAt(i)
      {
        ShorterRing(before, r, k, i);
        assert i != k ==> Hop(r, if i < k then i else i + 1);
      }
    }

    /** Remove, once the attribute is found at position `k`. */
    method TakeOut(node: Attribute, ghost k: nat)
      requires Valid() && k < |items| && items[k] == node
      modifies this, Nodes()`next, Nodes()`prev
      ensures Valid()
      ensures pairs == Delete(old(pairs), node.name)
      ensures |items| == |old(items)| - 1 && Nodes() <= old(Nodes())
    {
      hide Linked, WellNamed, IndexOf, Delete;
      WellNamedWithout(pairs, k);
      Unlink(node, k);
      pairs := pairs[..k] + pairs[k + 1..];
    }

    /** Unlinks an attribute of the set, found by walking the ring. */
    method Remove(removeMe: Attribute)
      requires Valid() && removeMe in items
      modifies this, Nodes()`next, Nodes()`prev
      ensures Valid()
      ensures pairs == Delete(old(pairs), removeMe.name)
      ensures |items| == |old(items)| - 1 && Nodes() <= old(Nodes())
    {
      hide Linked, WellNamed, IndexOf, Delete;
      NextInRing(0);
      var cur := sentinel.next;
      ghost var k := 0;
      while cur != sentinel
        invariant Valid() && items == old(items) && pairs == old(pairs)
        invariant 0 <= k <= |items| && cur == if k < |items| then items[k] else sentinel
        invariant k < |items| ==> cur != sentinel
        invariant forall j | 0 <= j < k :: items[j] != removeMe
        decreases |items| - k
      {
        if cur == removeMe {
          TakeOut(cur, k);
          return;
        }
        NextInRing(k);
        cur := cur.next;
        k := k + 1;
        if k < |items| { NextInRing(k); }
      }
      assert false;
    }

    /** SetAttribute: an empty name is refused, a known one gets its value replaced in place. */
    method SetAttribute(name: seq<byte>, value: seq<byte>)
      requires Valid()
      modifies this, Nodes()
      ensures Valid()
      ensures pairs == Put(old(pairs), name, value)
      ensures forall a | a in items :: a in old(items) || fresh(a)
    {
      hide Linked, WellNamed, IndexOf;
      if |name| == 0 {
        return;
      }
      PutLaws(pairs, name, value, name);
      var node := Find(name);
      if node != null {
        ghost var i := IndexOf(pairs, name);
        SetValue(node, value, i);
        return;
      }
      var attrib := new Attribute(name, value);
      Add(attrib);
    }

    method SetValue(node: Attribute, value: seq<byte>, ghost i: nat)
      requires Linked() && Named() && i < |items| && node == items[i]
      modifies node`value, this`pairs
      ensures Named() && pairs == old(pairs)[i := Pair(node.name, value)]
    {
      node.value := value;
      pairs := pairs[i := Pair(node.name, value)];
    }

    method RemoveAttribute(name: seq<byte>)
      requires Valid()
      modifies this, Nodes()
      ensures Valid() && pairs == Delete(old(pairs), name)
    {
      hide Linked, WellNamed, IndexOf;
      var node := Find(name);
      if node != null {
        Remove(node);
      }
    }

    /** The loop of ClearThis ends, with the sentinel pointing to itself as the destructor asserts. */
    method ClearThis()
      requires Valid()
      modifies this, Nodes()
      ensures Valid() && pairs == []
      ensures sentinel.next == sentinel && sentinel.prev == sentinel
    {
      FirstInRing();
      while First() != null
        invariant Valid() && Nodes() <= old(Nodes())
        invariant First() == if items == [] then null else items[0]
        decreases |items|
      {
        hide Linked, WellNamed, Delete;
        Remove(First());
        FirstInRing();
      }
      assert HopAt(0);
    }
  }
}
