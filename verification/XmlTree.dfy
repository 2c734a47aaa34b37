/** The trees that nodes stand for, and the deep copy of a node. */
module XmlTree {
  import opened Bytes
  import opened XmlAttributes
  import opened XmlNodes

  // ----- what a node stands for -----

  /** What a node stands for. */
  datatype Tree = Tree(kind: Kind, value: seq<byte>, attrs: seq<Pair>, kids: seq<Tree>)

  datatype Info = Info(kind: Kind, value: seq<byte>, attrs: seq<Pair>, kids: seq<Node>)

  type Content = map<Node, Info>

  ghost function View(S: set<Node>): (c: Content)
    reads S, set n | n in S :: n.attrs
    ensures c.Keys == S
  {
    map n | n in S :: Info(n.kind, n.value, n.attrs.pairs, n.kids)
  }

  lemma ViewAt(S: set<Node>, n: Node)
    requires n in S
    ensures View(S)[n] == Info(n.kind, n.value, n.attrs.pairs, n.kids)
  {
  }

  lemma ViewsAt(S: set<Node>)
    ensures forall n | n in S :: View(S)[n] == Info(n.kind, n.value, n.attrs.pairs, n.kids)
  {
  }

  /** The nodes below `n` stand for the tree `t`; in particular they are finitely many. */
  ghost predicate Represents(c: Content, n: Node, t: Tree)
    decreases t
  {
    && n in c
    && c[n].kind == t.kind && c[n].value == t.value && c[n].attrs == t.attrs
    && |c[n].kids| == |t.kids|
    && forall i | 0 <= i < |t.kids| :: Represents(c, c[n].kids[i], t.kids[i])
  }

  /** What stands under `n` does not depend on a node nobody has as a child, nor on nodes added. */
  lemma {:induction false} RepresentsKept(c: Content, d: Content, x: Node, n: Node, t: Tree)
    requires Represents(c, n, t) && n != x
    requires forall m | m in c && m != x :: m in d && d[m] == c[m]
    requires forall m | m in c :: x !in c[m].kids
    ensures Represents(d, n, t)
    decreases t
  {
    forall i | 0 <= i < |t.kids|
      ensures Represents(d, d[n].kids[i], t.kids[i])
    {
      assert c[n].kids[i] in c[n].kids;
      RepresentsKept(c, d, x, c[n].kids[i], t.kids[i]);
    }
  }

  /** A node stands for one tree. */
  lemma {:induction false} RepresentsOne(c: Content, n: Node, t: Tree, u: Tree)
    requires Represents(c, n, t) && Represents(c, n, u)
    ensures t == u
    decreases t
  {
    forall i | 0 <= i < |t.kids|
      ensures t.kids[i] == u.kids[i]
    {
      RepresentsOne(c, c[n].kids[i], t.kids[i], u.kids[i]);
    }
    assert t.kids == u.kids;
  }

  /** The attribute sets of the nodes are in order, with all their attributes in `B`. */
  ghost predicate AttrsIn(S: set<Node>, B: set<Attribute>)
    reads set n | n in S :: n.attrs
    reads B
  {
    forall n | n in S :: n.attrs.Nodes() <= B && n.attrs.Valid()
  }

  /** What Clone is given: a node of a forest, standing for `t`; `A` holds the forest's attributes. */
  ghost predicate Original(S: set<Node>, A: set<Attribute>, n: Node, t: Tree)
    reads S, set m | m in S :: m.attrs
    reads A
  {
    && n in S && Represents(View(S), n, t) && Forest(Snap(S), null)
    && AttrsIn(S, A)
  }

  lemma OriginalFacts(S: set<Node>, A: set<Attribute>, n: Node, t: Tree)
    requires Original(S, A, n, t)
    ensures n in S && n.attrs.Valid() && n.kind == t.kind && n.value == t.value && n.attrs.pairs == t.attrs
  {
    ViewAt(S, n);
  }

  /** Walking the children of the original. */
  lemma OriginalChild(S: set<Node>, A: set<Attribute>, n: Node, t: Tree, i: nat)
    requires Original(S, A, n, t)
    ensures |n.kids| == |t.kids| && n.firstChild == if |n.kids| > 0 then n.kids[0] else null
    ensures i < |n.kids| ==>
              && n.kids[i].next == (if i + 1 < |n.kids| then n.kids[i + 1] else null)
              && Original(S, A, n.kids[i], t.kids[i])
  {
    ViewAt(S, n);
    SnapAt(S, n);
    assert KidsLinked(Snap(S), n);
    if i < |n.kids| {
      ChildAt(Snap(S), n, i);
      SnapAt(S, n.kids[i]);
    }
  }

  /** The content as the pointers have it. */
  ghost predicate SameKids(g: Graph, c: Content) {
    g.Keys == c.Keys && forall n | n in g :: c[n].kids == g[n].kids
  }

  lemma SnapViewAgree(S: set<Node>)
    ensures SameKids(Snap(S), View(S)) && SameFields(S, Snap(S), View(S))
  {
  }

  lemma ListAt(S: set<Node>, n: Node)
    requires n in S
    ensures Snap(S)[n].kids == n.kids && View(S)[n].kids == n.kids
  {
  }

  /** The fields other than the links, as `c` has them. */
  ghost predicate SameFields(S: set<Node>, g: Graph, c: Content)
    reads S`kind, S`value, (set n | n in S :: n.attrs)`pairs
  {
    g.Keys == S == c.Keys && forall n | n in S :: c[n] == Info(n.kind, n.value, n.attrs.pairs, g[n].kids)
  }

  lemma ContentAfter(W: set<Node>, g: Graph, c: Content, x: Node, k: nat, m: nat, mid: Node?)
    requires CanRelink(g, x, k, m, mid) && Snap(W) == Relink(g, x, k, m, mid)
    requires c.Keys == W && forall n | n in W :: c[n] == Info(n.kind, n.value, n.attrs.pairs, g[n].kids)
    ensures x in c && View(W) == c[x := c[x].(kids := Spliced(g[x].kids, k, m, mid))]
  {
    hide Snap, View, Relink, Spliced, CanRelink, KidsLinked;
    SpliceFacts(g, x, k, m, mid);
    assert W == g.Keys;
    LinksAfter(g, x, k, m, mid);
    SnapsAt(W);
    ViewsAt(W);
  }

  // ----- deep copy, on trees -----

  /** A C string ends at its first zero byte. */
  function CStr(s: seq<byte>): seq<byte> {
    if s == [] || s[0] == 0 then [] else [s[0]] + CStr(s[1..])
  }

  lemma {:induction false} CStrIdentity(s: seq<byte>)
    ensures CStr(s) == s <==> 0 !in s
    ensures 0 !in CStr(s)
  {
    if s != [] && s[0] != 0 {
      CStrIdentity(s[1..]);
      assert s == [s[0]] + s[1..];
    }
  }

  /** What is left of a value read as a C string: everything before the first zero byte. */
  lemma {:induction false} CStrExactly(s: seq<byte>)
    ensures CStr(s) <= s && 0 !in CStr(s) && (CStr(s) == s || s[|CStr(s)|] == 0)
  {
    if s != [] && s[0] != 0 {
      CStrExactly(s[1..]);
    }
  }

  /** The attributes set one after the other on the copy, their values as C strings. */
  function CopyPairs(pairs: seq<Pair>): seq<Pair> {
    if pairs == [] then []
    else
      var p := pairs[|pairs| - 1];
      Put(CopyPairs(pairs[..|pairs| - 1]), p.name, CStr(p.value))
  }

  predicate IsContainer(k: Kind) {
    k.Element? || k.Document?
  }

  /** What Clone makes of a tree: only elements and documents copy their children, a document is never
      linked as a child, and attribute values are cut at a zero byte. */
  function CloneTree(t: Tree): Tree
    decreases t, 1
  {
    Tree(t.kind, t.value, if t.kind.Element? then CopyPairs(t.attrs) else [],
         if IsContainer(t.kind) then CloneKids(t.kids) else [])
  }

  function CloneKids(ts: seq<Tree>): seq<Tree>
    decreases ts, 0
  {
    if ts == [] then []
    else CloneKids(ts[..|ts| - 1]) + if ts[|ts| - 1].kind.Document? then [] else [CloneTree(ts[|ts| - 1])]
  }

  /** The trees a copy is faithful to. */
  predicate Copyable(t: Tree)
    decreases t, 1
  {
    && (if t.kind.Element? then WellNamed(t.attrs) && forall i | 0 <= i < |t.attrs| :: 0 !in t.attrs[i].value
      else t.attrs == [])
    && (!IsContainer(t.kind) ==> t.kids == [])
    && CopyableKids(t.kids)
  }

  predicate CopyableKids(ts: seq<Tree>)
    decreases ts, 0
  {
    forall i | 0 <= i < |ts| :: !ts[i].kind.Document? && Copyable(ts[i])
  }

  /** Every value in a copied attribute list is a C string, and the list is well named. */
  lemma {:induction false} CopyPairsClean(pairs: seq<Pair>)
    ensures WellNamed(CopyPairs(pairs)) && |CopyPairs(pairs)| <= |pairs|
    ensures forall i | 0 <= i < |CopyPairs(pairs)| :: 0 !in CopyPairs(pairs)[i].value
    decreases |pairs|
  {
    if pairs != [] {
      var init, p := pairs[..|pairs| - 1], pairs[|pairs| - 1];
      CopyPairsClean(init);
      PutLaws(CopyPairs(init), p.name, CStr(p.value), p.name);
      CStrIdentity(p.value);
    }
  }

  lemma {:induction false} CopyPairsPrefix(pairs: seq<Pair>, k: nat)
    requires WellNamed(pairs) && k <= |pairs| && forall i | 0 <= i < |pairs| :: 0 !in pairs[i].value
    ensures CopyPairs(pairs[..k]) == pairs[..k]
  {
    if k > 0 {
      CopyPairsPrefix(pairs, k - 1);
      assert pairs[..k][..k - 1] == pairs[..k - 1];
      PutNext(pairs, k - 1);
      CStrIdentity(pairs[k - 1].value);
    }
  }

  /** The attribute list is copied unchanged exactly when it is well named and free of zero bytes. */
  lemma CopyPairsExactly(pairs: seq<Pair>)
    ensures CopyPairs(pairs) == pairs <==>
            WellNamed(pairs) && forall i | 0 <= i < |pairs| :: 0 !in pairs[i].value
  {
    CopyPairsClean(pairs);
    if WellNamed(pairs) && forall i | 0 <= i < |pairs| :: 0 !in pairs[i].value {
      CopyPairsPrefix(pairs, |pairs|);
      assert pairs[..|pairs|] == pairs;
    }
  }

  lemma CloneKidsUnfold(ts: seq<Tree>, init: seq<Tree>, last: Tree)
    requires |ts| > 0 && init == ts[..|ts| - 1] && last == ts[|ts| - 1]
    ensures CloneKids(ts) == if last.kind.Document? then CloneKids(init) else CloneKids(init) + [CloneTree(last)]
  {
    hide CloneTree;
  }

  lemma CloneKidsNext(ts: seq<Tree>, i: nat)
    requires i <= |ts|
    ensures i == |ts| ==> CloneKids(ts[..i]) == CloneKids(ts)
    ensures i < |ts| ==> CloneKids(ts[..i + 1]) == if ts[i].kind.Document? then CloneKids(ts[..i])
            else CloneKids(ts[..i]) + [CloneTree(ts[i])]
  {
    hide *;
    if i == |ts| {
      assert ts[..i] == ts;
    } else {
      assert ts[..i + 1][..i] == ts[..i] && ts[..i + 1][i] == ts[i];
      CloneKidsUnfold(ts[..i + 1], ts[..i], ts[i]);
    }
  }

  lemma CloneTreeKind(t: Tree)
    ensures CloneTree(t).kind == t.kind
  {
    hide CloneKids, CopyPairs;
  }

  lemma CopyableKidsUnfold(ts: seq<Tree>, init: seq<Tree>, last: Tree)
    requires |ts| > 0 && init == ts[..|ts| - 1] && last == ts[|ts| - 1]
    ensures CopyableKids(ts) <==> CopyableKids(init) && !last.kind.Document? && Copyable(last)
  {
    hide Copyable;
    if CopyableKids(init) && !last.kind.Document? && Copyable(last) {
      forall i | 0 <= i < |ts|
        ensures !ts[i].kind.Document? && Copyable(ts[i])
      {
        if i < |init| { assert init[i] == ts[i]; }
      }
    }
    if CopyableKids(ts) {
      forall i | 0 <= i < |init|
        ensures !init[i].kind.Document? && Copyable(init[i])
      {
        assert init[i] == ts[i];
      }
    }
  }

  lemma LastApart<T>(s: seq<T>, x: T, ts: seq<T>)
    requires |ts| > 0
    ensures s + [x] == ts <==> s == ts[..|ts| - 1] && x == ts[|ts| - 1]
  {
    assert s + [x] == ts ==> s == (s + [x])[..|s|];
  }

  lemma NoKidsCloned()
    ensures CloneKids([]) == [] && CopyableKids([])
  {
  }

  lemma {:induction false} CloneKidsExactly(ts: seq<Tree>)
    ensures |CloneKids(ts)| <= |ts|
    ensures CloneKids(ts) == ts <==> CopyableKids(ts)
    decreases ts, 0
  {
    hide CloneKids, CloneTree, Copyable, CopyableKids;
    if ts == [] {
      NoKidsCloned();
    } else {
      var init, last := ts[..|ts| - 1], ts[|ts| - 1];
      CloneKidsExactly(init);
      CloneExactly(last);
      CloneKidsUnfold(ts, init, last);
      CopyableKidsUnfold(ts, init, last);
      LastApart(CloneKids(init), CloneTree(last), ts);
    }
  }

  /** Deep copy gives an equal tree for exactly the copyable trees. */
  lemma {:induction false} CloneExactly(t: Tree)
    ensures CloneTree(t) == t <==> Copyable(t)
    decreases t, 1
  {
    hide CopyPairs, CloneKids, CopyableKids, WellNamed;
    CopyPairsExactly(t.attrs);
    CloneKidsExactly(t.kids);
    NoKidsCloned();
  }

  /** What becomes of each part of a tree: kind and value stay, an element keeps its attributes, values cut at
      the first zero byte, nothing else has any; elements and documents keep their children, each copied by
      itself, but for documents. */
  lemma CloneParts(t: Tree, front: seq<Tree>, kid: Tree)
    ensures CloneTree(t).kind == t.kind && CloneTree(t).value == t.value
    ensures CloneTree(t).attrs == if t.kind.Element? then CopyPairs(t.attrs) else []
    ensures CloneTree(t).kids == if t.kind.Element? || t.kind.Document? then CloneKids(t.kids) else []
    ensures CloneKids([]) == []
    ensures CloneKids(front + [kid]) == CloneKids(front) + if kid.kind.Document? then [] else [CloneTree(kid)]
  {
    NoKidsCloned();
    CloneKidsUnfold(front + [kid], front, kid);
    hide CopyPairs, CloneKids;
  }

  /** What a copied attribute list holds: for each name the value last given under it, as a C string. */
  lemma {:induction false} CopiedValue(pairs: seq<Pair>, name: seq<byte>)
    ensures Get(CopyPairs(pairs), name) == LastValue(pairs, name)
    decreases |pairs|
  {
    hide Get, Put;
    if pairs == [] {
      NothingFound(name);
    } else {
      var init, p := pairs[..|pairs| - 1], pairs[|pairs| - 1];
      CopiedValue(init, name);
      CopyPairsClean(init);
      PutLaws(CopyPairs(init), p.name, CStr(p.value), name);
    }
  }

  lemma NothingFound(name: seq<byte>)
    ensures Get([], name) == None
  {
  }

  function LastValue(pairs: seq<Pair>, name: seq<byte>): Option<seq<byte>> {
    if pairs == [] then None
    else if pairs[|pairs| - 1].name == name && name != [] then Some(CStr(pairs[|pairs| - 1].value))
    else LastValue(pairs[..|pairs| - 1], name)
  }

  /** Every copy is copyable, so copying a copy changes nothing. */
  lemma CloneIdempotent(t: Tree)
    ensures Copyable(CloneTree(t)) && CloneTree(CloneTree(t)) == CloneTree(t)
  {
    hide CloneTree, Copyable;
    CloneCopyable(t);
    CloneExactly(CloneTree(t));
  }

  lemma {:induction false} CloneCopyable(t: Tree)
    ensures Copyable(CloneTree(t))
    decreases t, 1
  {
    hide CopyPairs, CloneKids, CopyableKids, WellNamed;
    CopyPairsClean(t.attrs);
    CloneKidsCopyable(t.kids);
    NoKidsCloned();
  }

  lemma {:induction false} CloneKidsCopyable(ts: seq<Tree>)
    ensures CopyableKids(CloneKids(ts))
    decreases ts, 0
  {
    hide CloneKids, CloneTree, Copyable, CopyableKids;
    if ts == [] {
      NoKidsCloned();
    } else {
      var init, last := ts[..|ts| - 1], ts[|ts| - 1];
      CloneKidsCopyable(init);
      CloneKidsUnfold(ts, init, last);
      if !last.kind.Document? {
        CloneCopyable(last);
        CloneTreeKind(last);
        var all := CloneKids(init) + [CloneTree(last)];
        assert all[..|all| - 1] == CloneKids(init);
        CopyableKidsUnfold(all, CloneKids(init), CloneTree(last));
      }
    }
  }

  // ----- a copy in progress -----

  /** The shape of a copy: a separate forest with the root `x`. */
  ghost predicate CopyGraph(g: Graph, x: Node) {
    x in g && g[x].parent == null && Forest(g, null) && Closed(g) && Unlinked(g, x)
  }

  /** What a copy in progress is: a separate forest `G` of new nodes with the root `x`; `B` holds its
      attributes. */
  ghost predicate Copy(G: set<Node>, B: set<Attribute>, x: Node)
    reads G, set m | m in G :: m.attrs
    reads B
  {
    CopyGraph(Snap(G), x) && AttrsIn(G, B)
  }

  lemma IsCopy(G: set<Node>, B: set<Attribute>, x: Node)
    requires CopyGraph(Snap(G), x) && AttrsIn(G, B)
    ensures Copy(G, B, x)
  {
  }

  lemma CopyOfOne(r: Node)
    requires r.kids == [] && r.parent == null && r.firstChild == null && r.lastChild == null && r.attrs.Valid()
    ensures Copy({r}, r.attrs.Nodes(), r)
  {
  }

  /** The children copied so far stand for the first trees of the copied list. */
  ghost predicate KidsCopied(c: Content, x: Node, ts: seq<Tree>) {
    x in c && |c[x].kids| == |ts| && forall j | 0 <= j < |ts| :: Represents(c, c[x].kids[j], ts[j])
  }

  lemma NoKidsCopied(x: Node)
    requires x.kids == []
    ensures KidsCopied(View({x}), x, CloneKids([]))
  {
    ViewAt({x}, x);
  }

  /** A copy's root stands for the copied tree once its fields and children do. */
  lemma RootRepresents(c: Content, r: Node, t: Tree)
    requires r in c && c[r].kind == t.kind && c[r].value == t.value
    requires c[r].attrs == if t.kind.Element? then CopyPairs(t.attrs) else []
    requires if IsContainer(t.kind) then KidsCopied(c, r, CloneKids(t.kids)) else c[r].kids == []
    ensures Represents(c, r, CloneTree(t))
  {
  }

  ghost predicate Uppermost(c: Content, x: Node) {
    x in c && forall m | m in c :: x !in c[m].kids
  }

  /** Linking one more child under `x`: the earlier ones still stand for their trees. */
  lemma LinkRepresents(c: Content, x: Node, child: Node, ts: seq<Tree>, t: Tree)
    requires KidsCopied(c, x, ts) && Represents(c, child, t) && child != x
    requires Uppermost(c, x)
    ensures KidsCopied(c[x := c[x].(kids := c[x].kids + [child])], x, ts + [t])
  {
    var d := c[x := c[x].(kids := c[x].kids + [child])];
    forall j | 0 <= j < |ts| + 1
      ensures Represents(d, d[x].kids[j], (ts + [t])[j])
    {
      if j < |ts| {
        assert c[x].kids[j] in c[x].kids;
        RepresentsKept(c, d, x, c[x].kids[j], ts[j]);
      } else {
        RepresentsKept(c, d, x, child, t);
      }
    }
  }

  /** After the root of the second was hung there, the whole is one separate forest with the root `x`. */
  lemma HungUnder(g: Graph, x: Node, child: Node)
    requires x in g && CanRelink(g, x, |g[x].kids|, 0, child) && Closed(g) && Unlinked(g, x) && g[x].parent == null
    ensures var h := Relink(g, x, |g[x].kids|, 0, child);
            h[x].kids == g[x].kids + [child] && (Forest(h, null) ==> CopyGraph(h, x))
  {
    hide Forest, KidsLinked, Relink, NewLinks, Spliced;
    var h, k := Relink(g, x, |g[x].kids|, 0, child), |g[x].kids|;
    forall n | n in g
      ensures h[n].parent == (if n == child then x else g[n].parent)
      ensures h[n].kids == if n == x then g[n].kids + [child] else g[n].kids
    {
      SpliceAt(g, x, k, 0, child, n);
      AppendLinks(g, x, child, n);
    }
  }

  /** Two separate copies side by side are what LinkEndChild needs. */
  lemma CopiesSideBySide(G: set<Node>, B: set<Attribute>, x: Node, F: set<Node>, C: set<Attribute>, c: Node)
    requires Copy(G, B, x) && Copy(F, C, c) && G !! F
    ensures Snap(G + F).Keys == G + F && Snap(G + F)[x].kids == x.kids && Snap(G + F)[x].parent == null
    ensures CanRelink(Snap(G + F), x, |x.kids|, 0, c) && Closed(Snap(G + F)) && Unlinked(Snap(G + F), x)
    ensures AttrsIn(G + F, B + C)
    ensures x in G && c in F && x.parent == null && c.parent == null
  {
    SnapAt(G, x);
    SnapAt(F, c);
    var g, f := Snap(G), Snap(F);
    assert Snap(G + F) == g + f;
    assert Closed(g + f);
    SideBySide(g, f, x, c);
  }

  /** Two copies side by side stand for what each stood for. */
  lemma ContentSideBySide(G: set<Node>, B: set<Attribute>, x: Node, F: set<Node>, C: set<Attribute>, c: Node,
      ts: seq<Tree>, t: Tree)
    requires Copy(G, B, x) && Copy(F, C, c) && G !! F
    requires KidsCopied(View(G), x, ts) && Represents(View(F), c, t)
    ensures x in View(G + F) && View(G + F)[x].kids == x.kids && c.kind == t.kind && c != x
    ensures KidsCopied(View(G + F), x, ts) && Represents(View(G + F), c, t)
    ensures Uppermost(View(G + F), x)
  {
    hide CanRelink, Forest, Closed, AttrsIn, Represents;
    CopiesSideBySide(G, B, x, F, C, c);
    var d := View(G + F);
    forall m | m in G + F
      ensures x !in d[m].kids
    {
      SnapAt(G + F, m);
    }
    assert forall m | m in G :: d[m] == View(G)[m];
    assert forall m | m in F :: d[m] == View(F)[m];
    RepresentsKept(View(F), d, x, c, t);
    assert d[x].kids == View(G)[x].kids;
    forall j | 0 <= j < |ts|
      ensures Represents(d, d[x].kids[j], ts[j])
    {
      assert x.kids[j] in x.kids;
      SnapAt(G, x);
      RepresentsKept(View(G), d, x, x.kids[j], ts[j]);
    }
  }

  // ----- deep copy, on nodes -----

  /** The attributes of an element, set one after the other on its copy. */
  method CopyAttributes(source: AttributeSet, target: AttributeSet)
    requires source.Valid() && target.Valid() && target.pairs == [] && source != target
    requires source.Nodes() !! target.Nodes()
    modifies target, target.Nodes()
    ensures source.Valid() && source.pairs == old(source.pairs)
    ensures target.Valid() && target.pairs == CopyPairs(source.pairs)
    ensures forall a | a in target.Nodes() :: a in old(target.Nodes()) || fresh(a)
  {
    hide AttributeSet.Valid, AttributeSet.Linked, Put;
    source.FirstIs();
    var attribute := source.First();
    ghost var i := 0;
    while attribute != null
      invariant source.Valid() && source.pairs == old(source.pairs) && source.items == old(source.items)
      invariant target.Valid() && 0 <= i <= |source.items|
      invariant target.pairs == CopyPairs(source.pairs[..i])
      invariant attribute == if i < |source.items| then source.items[i] else null
      invariant forall a | a in target.Nodes() :: a in old(target.Nodes()) || fresh(a)
      decreases |source.items| - i
    {
      assert source.pairs[..i + 1][..i] == source.pairs[..i];
      source.PairAt(i);
      var name, value := attribute.name, CStr(attribute.value);
      attribute := source.Next(attribute, i);
      target.SetAttribute(name, value);
      i := i + 1;
    }
    assert source.pairs[..i] == source.pairs;
  }

  /** The copy of the node itself: its kind, its value and, for an element, its attributes. */
  method CloneRoot(n: Node) returns (r: Node)
    requires n.attrs.Valid()
    ensures fresh(r) && fresh(r.attrs) && fresh(r.attrs.Nodes()) && r.attrs.Valid()
    ensures r.kids == [] && r.parent == null && r.firstChild == null && r.lastChild == null
    ensures r.kind == n.kind && r.value == n.value
    ensures r.attrs.pairs == if n.kind.Element? then CopyPairs(n.attrs.pairs) else []
  {
    hide CopyPairs, AttributeSet.Linked, AttributeSet.Named, WellNamed;
    ghost var before := n.attrs.Nodes();
    r := new Node(n.kind, CStr(n.value));
    assert n.attrs.Nodes() == before && fresh(r.attrs.Nodes());
    r.value := n.value;
    if n.kind.Element? {
      CopyAttributes(n.attrs, r.attrs);
    }
  }

  /** Clone: a new node standing for the copied tree, with nothing shared and nothing else touched. */
  method Clone(n: Node, ghost t: Tree, ghost S: set<Node>, ghost A: set<Attribute>) returns (r: Node,
      ghost F: set<Node>, ghost B: set<Attribute>)
    requires Original(S, A, n, t)
    ensures fresh(F) && fresh(B) && (forall m | m in F :: fresh(m.attrs)) && r in F
    ensures Copy(F, B, r) && Represents(View(F), r, CloneTree(t))
    decreases t, 1
  {
    hide Original, Copy, View, CopyPairs, CloneKids, CloneTree, AttributeSet.Valid;
    OriginalFacts(S, A, n, t);
    r := CloneRoot(n);
    F, B := {r}, r.attrs.Nodes();
    CopyOfOne(r);
    ViewAt(F, r);
    if IsContainer(n.kind) {
      F, B := CopyChildren(n, r, t, S, A);
    }
    ViewAt(F, r);
    RootRepresents(View(F), r, t);
  }

  /** The loop of CopyTo over the children. */
  method CopyChildren(n: Node, x: Node, ghost t: Tree, ghost S: set<Node>, ghost A: set<Attribute>)
    returns (ghost G: set<Node>, ghost B: set<Attribute>)
    requires Original(S, A, n, t) && x !in S
    requires Copy({x}, x.attrs.Nodes(), x) && x.kids == []
    modifies x`parent, x`firstChild, x`lastChild, x`prev, x`next, x`kids
    ensures x in G && fresh(G - {x}) && fresh(B - old(x.attrs.Nodes()))
    ensures forall m | m in G - {x} :: fresh(m.attrs)
    ensures Copy(G, B, x) && KidsCopied(View(G), x, CloneKids(t.kids))
    decreases t, 0
  {
    hide *;
    G, B := {x}, x.attrs.Nodes();
    ghost var B0 := B;
    OriginalChild(S, A, n, t, 0);
    CloneKidsNext(t.kids, 0);
    NoKidsCopied(x);
    var child := n.firstChild;
    ghost var i := 0;
    assert t.kids[..0] == [];
    while child != null
      invariant 0 <= i <= |n.kids| == |t.kids| && child == if i < |n.kids| then n.kids[i] else null
      invariant Original(S, A, n, t)
      invariant x in G && fresh(G - {x}) && fresh(B - B0) && forall m | m in G - {x} :: fresh(m.attrs)
      invariant Copy(G, B, x) && KidsCopied(View(G), x, CloneKids(t.kids[..i]))
      decreases |n.kids| - i
    {
      OriginalChild(S, A, n, t, i);
      CloneKidsNext(t.kids, i);
      G, B := CopyChild(child, x, t.kids[i], CloneKids(t.kids[..i]), S, A, G, B);
      child := child.next;
      i := i + 1;
    }
    CloneKidsNext(t.kids, i);
  }

  /** One turn of the loop of CopyTo over the children. */
  method CopyChild(child: Node, x: Node, ghost u: Tree, ghost ts: seq<Tree>, ghost S: set<Node>,
      ghost A: set<Attribute>,
                   ghost G0: set<Node>, ghost B0: set<Attribute>)
    returns (ghost G: set<Node>, ghost B: set<Attribute>)
    requires Original(S, A, child, u) && Copy(G0, B0, x) && KidsCopied(View(G0), x, ts)
    modifies G0`parent, G0`firstChild, G0`lastChild, G0`prev, G0`next, G0`kids
    ensures G0 <= G && fresh(G - G0) && fresh(B - B0) && forall m | m in G - G0 :: fresh(m.attrs)
    ensures Copy(G, B, x) && KidsCopied(View(G), x, if u.kind.Document? then ts else ts + [CloneTree(u)])
    decreases u, 2
  {
    hide *;
    ghost var F, C;
    var c;
    c, F, C := Clone(child, u, S, A);
    LinkCopy(x, c, G0, B0, F, C, ts, CloneTree(u));
    CloneTreeKind(u);
    G, B := G0, B0;
    if !u.kind.Document? {
      G, B := G0 + F, B0 + C;
    }
  }

  /** The finished copy `c` is hung under the copy in progress; a document is not. */
  method LinkCopy(x: Node, c: Node, ghost G: set<Node>, ghost B: set<Attribute>, ghost F: set<Node>,
      ghost C: set<Attribute>,
                  ghost ts: seq<Tree>, ghost t: Tree)
    requires Copy(G, B, x) && Copy(F, C, c) && G !! F
    requires KidsCopied(View(G), x, ts) && Represents(View(F), c, t)
    modifies (G + F)`parent, (G + F)`firstChild, (G + F)`lastChild, (G + F)`prev, (G + F)`next, (G + F)`kids
    ensures t.kind.Document? ==> Copy(G, B, x) && KidsCopied(View(G), x, ts)
    ensures !t.kind.Document? ==> Copy(G + F, B + C, x) && KidsCopied(View(G + F), x, ts + [t])
  {
    hide *;
    ghost var S, g := G + F, Snap(G + F);
    CopiesSideBySide(G, B, x, F, C, c);
    ContentSideBySide(G, B, x, F, C, c, ts, t);
    var r := LinkContent(x, c, S, B + C);
    if !t.kind.Document? {
      HungUnder(g, x, c);
      LinkRepresents(old(View(S)), x, c, ts, t);
      IsCopy(S, B + C, x);
    }
  }

  /** LinkEndChild, with what it means for the content. */
  method LinkContent(x: Node, c: Node, ghost S: set<Node>, ghost A: set<Attribute>) returns (r: Node?)
    requires x in S && c in S && CanRelink(Snap(S), x, |x.kids|, 0, c) && c.parent == null && AttrsIn(S, A)
    modifies S`parent, S`firstChild, S`lastChild, S`prev, S`next, S`kids
    ensures c.kind.Document? ==> unchanged(S)
    ensures !c.kind.Document? ==>
              && Snap(S) == Relink(old(Snap(S)), x, |old(x.kids)|, 0, c) && Forest(Snap(S), null)
              && View(S) == old(View(S))[x := old(View(S))[x].(kids := old(x.kids) + [c])]
              && AttrsIn(S, A)
  {
    hide *;
    ghost var d, g, k := View(S), Snap(S), x.kids;
    SnapViewAgree(S);
    ListAt(S, x);
    r := x.LinkEndChild(c, S);
    if !c.kind.Document? {
      ContentAfter(S, g, d, x, |k|, 0, c);
      SplicedEnd(k, c);
    }
  }
}
