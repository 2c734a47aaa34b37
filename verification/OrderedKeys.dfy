/** The order in which a std::map with pointer or integer keys is walked: ascending keys. */
module OrderedKeys {

  lemma {:induction false} LeastOf(s: set<nat>) returns (k: nat)
    requires s != {}
    ensures k in s && forall j | j in s :: k <= j
    decreases |s|
  {
    var x :| x in s;
    var rest := s - {x};
    assert s == rest + {x};
    if rest == {} {
      k := x;
    } else {
      var y := LeastOf(rest);
      k := if y <= x then y else x;
    }
  }

  lemma LeastExists(s: set<nat>)
    requires s != {}
    ensures exists k :: k in s && forall j | j in s :: k <= j
  {
    var k := LeastOf(s);
  }

  ghost function Least(s: set<nat>): (k: nat)
    requires s != {}
    ensures k in s && forall j | j in s :: k <= j
  {
    LeastExists(s);
    var k :| k in s && forall j | j in s :: k <= j;
    k
  }

  /** The keys in the order of the walk. */
  ghost function Ascending(s: set<nat>): seq<nat>
    decreases |s|
  {
    if s == {} then [] else [Least(s)] + Ascending(s - {Least(s)})
  }

  /** A walk visits exactly the keys. */
  lemma {:induction false} AscendingKeys(s: set<nat>)
    ensures forall k :: k in Ascending(s) <==> k in s
    decreases |s|
  {
    if s != {} {
      AscendingKeys(s - {Least(s)});
    }
  }

  lemma AscendingEmpty()
    ensures Ascending({}) == []
  {
  }

  lemma {:induction false} AscendingOrder(s: set<nat>, i: nat, j: nat)
    requires i < j < |Ascending(s)|
    ensures Ascending(s)[i] < Ascending(s)[j]
    decreases |s|
  {
    var rest := s - {Least(s)};
    if i == 0 {
      assert Ascending(s)[j] == Ascending(rest)[j - 1];
      AscendingKeys(rest);
      assert Ascending(rest)[j - 1] in rest;
    } else {
      AscendingOrder(rest, i - 1, j - 1);
    }
  }

  /** What a walk has picked out so far, `picked`, completed by what it has still to pick out. */
  ghost predicate Walking(picked: seq<nat>, e: set<nat>, rest: set<nat>) {
    picked + Ascending(e * rest) == Ascending(e)
  }

  lemma WalkStart(e: set<nat>, all: set<nat>)
    requires e <= all
    ensures Walking([], e, all)
  {
    assert e * all == e;
    assert [] + Ascending(e) == Ascending(e);
  }

  lemma WalkNext(picked: seq<nat>, e: set<nat>, rest: set<nat>)
    requires rest != {} && Walking(picked, e, rest)
    ensures var k := Least(rest); Walking(if k in e then picked + [k] else picked, e, rest - {k})
  {
    WalkStep(e, rest);
    var k := Least(rest);
    assert k in e ==> picked + ([k] + Ascending(e * (rest - {k}))) == picked + [k] + Ascending(e * (rest - {k}));
  }

  lemma WalkEnd(picked: seq<nat>, e: set<nat>)
    requires Walking(picked, e, {})
    ensures picked == Ascending(e)
  {
    assert e * {} == {};
    assert picked + [] == picked;
  }

  /** One step of a walk over `rest` that picks out the members of `e`. */
  lemma WalkStep(e: set<nat>, rest: set<nat>)
    requires rest != {}
    ensures var k := Least(rest);
            if k in e then Ascending(e * rest) == [k] + Ascending(e * (rest - {k}))
            else e * rest == e * (rest - {k})
  {
    var k := Least(rest);
    if k in e {
      assert k in e * rest;
      assert Least(e * rest) == k;
      assert e * rest - {k} == e * (rest - {k});
    }
  }

  /** The next key of a walk. */
  method NextKey(rest: set<nat>) returns (k: nat)
    requires rest != {}
    ensures k == Least(rest)
  {
    LeastExists(rest);
    k :| k in rest && forall j | j in rest :: k <= j;
  }
}
