/** Inserting, replacing and removing children, on the trees that the nodes stand for. */
module XmlEdits {
  import opened XmlAttributes
  import opened XmlNodes
  import opened XmlTree

  // ----- closed forests -----

  /** A node of a closed forest, standing for `t`. */
  ghost predicate World(S: set<Node>, A: set<Attribute>, n: Node, t: Tree)
    reads S, set m | m in S :: m.attrs
    reads A
  {
    Original(S, A, n, t) && Closed(Snap(S))
  }

  /** A new node is a forest of its own: what the operations ask for can always be had. */
  lemma NewNodeAlone(n: Node)
    requires n.attrs.Valid() && n.kids == [] && n.firstChild == null && n.lastChild == null && n.parent == null
    ensures World({n}, n.attrs.Nodes(), n, Tree(n.kind, n.value, n.attrs.pairs, []))
  {
    SnapAt({n}, n);
    ViewAt({n}, n);
  }

  lemma ViewUnion(S: set<Node>, F: set<Node>)
    ensures forall n | n in S :: View(S + F)[n] == View(S)[n]
    ensures forall n | n in F :: View(S + F)[n] == View(F)[n]
  {
  }

  lemma UnionShape(S: set<Node>, A: set<Attribute>, x: Node, u: Tree, F: set<Node>, B: set<Attribute>, r: Node)
    requires World(S, A, x, u) && Copy(F, B, r) && S !! F
    ensures x in S && r in F && CanRelink(Snap(S + F), x, |x.kids|, 0, r)
    ensures Forest(Snap(S + F), null) && Closed(Snap(S + F))
  {
    NotOwnChild(S, A, x, u);
    hide Represents, Snap, View, AttrsIn, CanRelink, Forest;
    SnapsAt(S);
    SnapsAt(F);
    SnapUnion(S, F);
    SideBySide(Snap(S), Snap(F), x, r);
    UnionForest(Snap(S), Snap(F));
  }

  lemma {:induction false} RepresentsGrown(c: Content, d: Content, n: Node, t: Tree)
    requires Represents(c, n, t) && forall m | m in c :: m in d && d[m] == c[m]
    ensures Represents(d, n, t)
    decreases t
  {
    forall i | 0 <= i < |t.kids|
      ensures Represents(d, d[n].kids[i], t.kids[i])
    {
      RepresentsGrown(c, d, c[n].kids[i], t.kids[i]);
    }
  }

  /** Two separate forests are one, so a node of either can be inserted into the other. */
  lemma ForestsUnite(S: set<Node>, A: set<Attribute>, x: Node, u: Tree, F: set<Node>, B: set<Attribute>, y: Node,
      t: Tree)
    requires World(S, A, x, u) && World(F, B, y, t) && S !! F
    ensures World(S + F, A + B, x, u) && World(S + F, A + B, y, t)
  {
    hide Represents, Snap, View, Forest, Closed, AttributeSet.Valid;
    SnapUnion(S, F);
    UnionForest(Snap(S), Snap(F));
    ViewUnion(S, F);
    RepresentsGrown(View(S), View(S + F), x, u);
    RepresentsGrown(View(F), View(S + F), y, t);
  }

  lemma WorldFacts(S: set<Node>, A: set<Attribute>, x: Node, u: Tree)
    requires World(S, A, x, u)
    ensures x in S && Represents(View(S), x, u) && Forest(Snap(S), null) && Closed(Snap(S)) && AttrsIn(S, A)
    ensures |View(S)[x].kids| == |u.kids| && View(S)[x].kids == x.kids && Snap(S)[x].kids == x.kids
    ensures forall n | n in Snap(S) :: KidsLinked(Snap(S), n)
  {
    SnapAt(S, x);
    ViewAt(S, x);
  }

  lemma OriginalIs(S: set<Node>, A: set<Attribute>, x: Node, u: Tree)
    requires World(S, A, x, u)
    ensures Original(S, A, x, u) && x in S && x !in x.kids && |x.kids| == |u.kids|
  {
    NotOwnChild(S, A, x, u);
  }

  lemma NotOwnChild(S: set<Node>, A: set<Attribute>, x: Node, u: Tree)
    requires Original(S, A, x, u)
    ensures x in S && x !in x.kids && |x.kids| == |u.kids|
  {
    hide Below;
    var c := View(S);
    if x in x.kids {
      var i :| 0 <= i < |x.kids| && x.kids[i] == x;
      RepresentsOne(c, x, u, u.kids[i]);
      assert false;
    }
  }

  lemma ParentHas(S: set<Node>, A: set<Attribute>, x: Node, u: Tree, n: Node)
    requires World(S, A, x, u) && n in S && n.parent == x
    ensures n in x.kids && x in S && |x.kids| == |u.kids|
  {
    NotOwnChild(S, A, x, u);
    SnapAt(S, n);
    SnapAt(S, x);
  }

  // ----- the nodes below a node -----

  function Size(t: Tree): nat
    decreases t, 1
  {
    1 + SizeOfAll(t.kids)
  }

  function SizeOfAll(ts: seq<Tree>): nat
    decreases ts, 0
  {
    if ts == [] then 0 else Size(ts[0]) + SizeOfAll(ts[1..])
  }

  lemma {:induction false} KidSmaller(ts: seq<Tree>, i: nat)
    requires i < |ts|
    ensures Size(ts[i]) <= SizeOfAll(ts)
  {
    if i > 0 { KidSmaller(ts[1..], i - 1); }
  }

  /** The nodes below `n`, which stands for `t`, with `n` itself. */
  ghost function Below(c: Content, n: Node, t: Tree): set<Node>
    decreases t
  {
    {n} + if n !in c || |c[n].kids| != |t.kids| then {} else
      set i, m | 0 <= i < |t.kids| && m in Below(c, c[n].kids[i], t.kids[i]) :: m
  }

  /** A set closed under children, each of whose nodes but `x` is a child of another one. */
  ghost predicate Hanging(c: Content, Z: set<Node>, x: Node) {
    && x in Z && Z <= c.Keys
    && (forall p, m | p in Z && m in c[p].kids :: m in Z)
    && (forall m | m in Z && m != x :: exists p :: p in Z && m in c[p].kids)
  }

  lemma HangingInside(c: Content, Z: set<Node>, x: Node)
    requires Hanging(c, Z, x)
    ensures Z <= c.Keys && x in Z && forall p, m | p in Z && m in c[p].kids :: m in Z
  {
  }

  lemma {:induction false} BelowHangs(c: Content, n: Node, t: Tree)
    requires Represents(c, n, t)
    ensures Hanging(c, Below(c, n, t), n)
    decreases t
  {
    var Z := Below(c, n, t);
    forall i | 0 <= i < |t.kids|
      ensures Hanging(c, Below(c, c[n].kids[i], t.kids[i]), c[n].kids[i])
    {
      BelowHangs(c, c[n].kids[i], t.kids[i]);
    }
    forall p, m | p in Z && m in c[p].kids
      ensures m in Z
    {
      if p == n {
        var i :| 0 <= i < |c[n].kids| && c[n].kids[i] == m;
        assert m in Below(c, c[n].kids[i], t.kids[i]);
      } else {
        var i :| 0 <= i < |t.kids| && p in Below(c, c[n].kids[i], t.kids[i]);
        assert m in Below(c, c[n].kids[i], t.kids[i]);
      }
    }
    forall m | m in Z && m != n
      ensures exists p :: p in Z && m in c[p].kids
    {
      var i :| 0 <= i < |t.kids| && m in Below(c, c[n].kids[i], t.kids[i]);
      if m == c[n].kids[i] {
        assert m in c[n].kids;
      } else {
        var p :| p in Below(c, c[n].kids[i], t.kids[i]) && m in c[p].kids;
        assert p in Z;
      }
    }
  }

  /** Every node below stands for a tree that is no larger. */
  lemma {:induction false} BelowSmaller(c: Content, n: Node, t: Tree, m: Node) returns (u: Tree)
    requires Represents(c, n, t) && m in Below(c, n, t)
    ensures Represents(c, m, u) && Size(u) <= Size(t)
    decreases t
  {
    if m == n {
      u := t;
    } else {
      var i :| 0 <= i < |t.kids| && m in Below(c, c[n].kids[i], t.kids[i]);
      u := BelowSmaller(c, c[n].kids[i], t.kids[i], m);
      KidSmaller(t.kids, i);
    }
  }

  /** No node is below one of its children. */
  lemma NotBelowChild(c: Content, n: Node, t: Tree, i: nat)
    requires Represents(c, n, t) && i < |t.kids|
    ensures n !in Below(c, c[n].kids[i], t.kids[i])
  {
    if n in Below(c, c[n].kids[i], t.kids[i]) {
      var u := BelowSmaller(c, c[n].kids[i], t.kids[i], n);
      RepresentsOne(c, n, t, u);
      KidSmaller(t.kids, i);
      assert false;
    }
  }

  lemma {:induction false} BelowSame(c: Content, d: Content, n: Node, t: Tree)
    requires Represents(c, n, t) && forall m | m in c :: m in d && d[m] == c[m]
    ensures Below(d, n, t) == Below(c, n, t)
    decreases t
  {
    forall i | 0 <= i < |t.kids|
      ensures Below(d, d[n].kids[i], t.kids[i]) == Below(c, c[n].kids[i], t.kids[i])
    {
      BelowSame(c, d, c[n].kids[i], t.kids[i]);
    }
  }

  // ----- what an edit leaves standing -----

  function SplicedTrees(ts: seq<Tree>, k: nat, m: nat, mid: seq<Tree>): seq<Tree>
    requires k + m <= |ts|
  {
    ts[..k] + mid + ts[k + m..]
  }

  lemma SplicedTreeAt(ts: seq<Tree>, kids: seq<Node>, k: nat, m: nat, mid: Node?, tm: seq<Tree>, j: nat)
    requires |ts| == |kids| && k + m <= |ts| && |tm| == |Mid(mid)| && j < |SplicedTrees(ts, k, m, tm)|
    ensures |SplicedTrees(ts, k, m, tm)| == |Spliced(kids, k, m, mid)|
    ensures var i := if j < k then j else j + m - |tm|;
            if k <= j < k + |tm| then
              |tm| == 1 && SplicedTrees(ts, k, m, tm)[j] == tm[0] && Spliced(kids, k, m, mid)[j] == mid
            else
              && (i < k || k + m <= i) && 0 <= i < |ts|
              && SplicedTrees(ts, k, m, tm)[j] == ts[i] && Spliced(kids, k, m, mid)[j] == kids[i]
  {
  }

  lemma SplicedLength(ts: seq<Tree>, kids: seq<Node>, k: nat, m: nat, mid: Node?, tm: seq<Tree>)
    requires |ts| == |kids| && k + m <= |ts| && |tm| == |Mid(mid)|
    ensures |SplicedTrees(ts, k, m, tm)| == |Spliced(kids, k, m, mid)|
  {
  }

  lemma SplicedTreesEnd(ts: seq<Tree>, t: Tree)
    ensures SplicedTrees(ts, |ts|, 0, [t]) == ts + [t]
  {
  }

  /** What stands under a node smaller than `x` does not depend on `x`, nor on a part nothing else leads to. */
  lemma {:induction false} RepresentsApart(c: Content, d: Content, Z: set<Node>, x: Node, u: Tree, n: Node, t: Tree)
    requires Represents(c, x, u) && Represents(c, n, t) && Size(t) < Size(u) && n !in Z
    requires forall m | m in c && m !in Z && m != x :: m in d && d[m] == c[m]
    requires forall m, k | m in c && m !in Z && m != x && k in c[m].kids :: k !in Z
    ensures Represents(d, n, t)
    decreases t
  {
    if n == x {
      RepresentsOne(c, x, u, t);
      assert false;
    }
    forall i | 0 <= i < |t.kids|
      ensures Represents(d, d[n].kids[i], t.kids[i])
    {
      assert c[n].kids[i] in c[n].kids;
      KidSmaller(t.kids, i);
      RepresentsApart(c, d, Z, x, u, c[n].kids[i], t.kids[i]);
    }
  }

  /** Only the children of `x` taken out lead into `Z`. */
  ghost predicate Separate(c: Content, Z: set<Node>, x: Node, k: nat, m: nat) {
    && x in c && x !in Z && Z <= c.Keys
    && (forall n, j | n in c && n !in Z && n != x && j in c[n].kids :: j !in Z)
    && (forall i | 0 <= i < |c[x].kids| && (i < k || k + m <= i) :: c[x].kids[i] !in Z)
  }

  /** A node stands for the spliced tree once its child list is spliced. */
  lemma TreeAfter(c: Content, d: Content, Z: set<Node>, x: Node, u: Tree, k: nat, m: nat, mid: Node?, tm: seq<Tree>)
    requires Represents(c, x, u) && k + m <= |u.kids| && |tm| == |Mid(mid)|
    requires Separate(c, Z, x, k, m)
    requires forall n | n in c && n !in Z && n != x :: n in d && d[n] == c[n]
    requires x in d && d[x] == c[x].(kids := Spliced(c[x].kids, k, m, mid))
    requires mid != null ==> Represents(d, mid, tm[0])
    ensures Represents(d, x, u.(kids := SplicedTrees(u.kids, k, m, tm)))
  {
    hide Spliced, SplicedTrees;
    var ts := SplicedTrees(u.kids, k, m, tm);
    SplicedLength(u.kids, c[x].kids, k, m, mid, tm);
    forall j | 0 <= j < |ts|
      ensures Represents(d, d[x].kids[j], ts[j])
    {
      SplicedTreeAt(u.kids, c[x].kids, k, m, mid, tm, j);
      if !(k <= j < k + |tm|) {
        var i := if j < k then j else j + m - |tm|;
        KidSmaller(u.kids, i);
        RepresentsApart(c, d, Z, x, u, c[x].kids[i], u.kids[i]);
      }
    }
  }

  /** In a forest only `x` leads into a part hanging from one of its children. */
  lemma OnlyWayIn(g: Graph, c: Content, Z: set<Node>, x: Node, k: nat)
    requires SameKids(g, c) && x in g && k < |g[x].kids| && Hanging(c, Z, g[x].kids[k]) && x !in Z
    requires forall n | n in g :: KidsLinked(g, n)
    ensures forall m, j | m in c && m !in Z && m != x && j in c[m].kids :: j !in Z
    ensures forall i | 0 <= i < |g[x].kids| && i != k :: g[x].kids[i] !in Z
    ensures forall m | m in Z && m != g[x].kids[k] :: g[m].parent in Z
  {
    forall m, j | m in c && m !in Z && j in c[m].kids && j in Z
      ensures m == x && j == g[x].kids[k]
    {
      ParentIs(g, m, j);
      if j == g[x].kids[k] {
        ParentIs(g, x, j);
      } else {
        var p :| p in Z && j in c[p].kids;
        ParentIs(g, p, j);
        assert false;
      }
    }
    forall m | m in Z && m != g[x].kids[k]
      ensures g[m].parent in Z
    {
      var p :| p in Z && m in c[p].kids;
      ParentIs(g, p, m);
    }
    assert KidsLinked(g, x);
    forall i | 0 <= i < |g[x].kids| && i != k
      ensures g[x].kids[i] !in Z
    {
      assert g[x].kids[i] in c[x].kids && g[x].kids[i] != g[x].kids[k];
    }
  }

  /** The nodes that go with the children taken out. */
  ghost function Gone(c: Content, x: Node, u: Tree, k: nat, m: nat): set<Node>
    requires x in c && |c[x].kids| == |u.kids| && k + m <= |u.kids|
  {
    if m == 0 then {} else Below(c, c[x].kids[k], u.kids[k])
  }

  lemma GoneFacts(g: Graph, c: Content, x: Node, u: Tree, k: nat, m: nat)
    requires SameKids(g, c) && Represents(c, x, u) && k + m <= |u.kids| && m <= 1
    requires forall n | n in g :: KidsLinked(g, n)
    ensures var Z := Gone(c, x, u, k, m);
            && Separate(c, Z, x, k, m)
            && (m == 1 ==> Hanging(c, Z, c[x].kids[k]) && forall n | n in Z && n != c[x].kids[k] :: g[n].parent in Z)
  {
    hide KidsLinked, Hanging, Below;
    if m == 1 {
      NotBelowChild(c, x, u, k);
      BelowHangs(c, c[x].kids[k], u.kids[k]);
      OnlyWayIn(g, c, Gone(c, x, u, k, m), x, k);
      HangingInside(c, Gone(c, x, u, k, m), c[x].kids[k]);
    }
  }

  lemma KeysAgree(g: Graph, c: Content)
    requires SameKids(g, c)
    ensures g.Keys == c.Keys && forall n | n in g :: c[n].kids == g[n].kids
  {
  }

  lemma NothingGone(c: Content, x: Node, u: Tree, k: nat)
    requires x in c && |c[x].kids| == |u.kids| && k <= |u.kids|
    ensures Gone(c, x, u, k, 0) == {}
  {
  }

  lemma GoneSame(c: Content, d: Content, x: Node, u: Tree, k: nat, m: nat)
    requires Represents(c, x, u) && m <= 1 && k + m <= |u.kids| && forall n | n in c :: n in d && d[n] == c[n]
    ensures Gone(d, x, u, k, m) == Gone(c, x, u, k, m)
  {
    if m == 1 { BelowSame(c, d, c[x].kids[k], u.kids[k]); }
  }

  lemma GoneInside(S: set<Node>, A: set<Attribute>, x: Node, u: Tree, k: nat, m: nat)
    requires World(S, A, x, u) && m <= 1 && k + m <= |u.kids|
    ensures x in S && |View(S)[x].kids| == |u.kids| && Gone(View(S), x, u, k, m) <= S
    ensures m == 0 ==> Gone(View(S), x, u, k, m) == {}
  {
    hide World, Represents, Forest, Closed, AttrsIn, KidsLinked, Snap, View, Below;
    WorldFacts(S, A, x, u);
    SnapViewAgree(S);
    GoneFacts(Snap(S), View(S), x, u, k, m);
  }

  /** What goes with a child is what is below it, and the parent is not. */
  lemma GoneBelow(S: set<Node>, A: set<Attribute>, x: Node, u: Tree, k: nat)
    requires World(S, A, x, u) && k < |x.kids| == |u.kids|
    ensures x in S && |View(S)[x].kids| == |u.kids| && Gone(View(S), x, u, k, 1) == Below(View(S), x.kids[k], u.kids[k])
    ensures Gone(View(S), x, u, k, 1) <= S && x !in Gone(View(S), x, u, k, 1)
  {
    hide World, Represents, Forest, Closed, AttrsIn, KidsLinked, Snap, View, Below;
    WorldFacts(S, A, x, u);
    SnapViewAgree(S);
    GoneFacts(Snap(S), View(S), x, u, k, 1);
  }

  /** The splice cuts off what is gone. */
  lemma SpliceCuts(g: Graph, c: Content, x: Node, u: Tree, k: nat, m: nat, mid: Node?)
    requires CanRelink(g, x, k, m, mid) && SameKids(g, c) && Represents(c, x, u)
    requires k + m <= |u.kids| && mid !in Gone(c, x, u, k, m)
    ensures CutOff(Relink(g, x, k, m, mid), Gone(c, x, u, k, m), if m == 1 then g[x].kids[k] else null)
  {
    hide KidsLinked, Gone, Relink, Hanging, Spliced, Below, Represents, CanRelink, Forest, SameKids;
    InContent(c, x, u);
    AllLinked(g, x, k, m, mid);
    SpliceFacts(g, x, k, m, mid);
    KeysAgree(g, c);
    var h, Z := Relink(g, x, k, m, mid), Gone(c, x, u, k, m);
    GoneFacts(g, c, x, u, k, m);
    LinksAfter(g, x, k, m, mid);
    if m == 1 {
      var free := g[x].kids[k];
      HangingInside(c, Z, free);
      forall n | n in g
        ensures free !in h[n].kids
      {
        FreeNowhere(g, x, k, mid, n);
      }
    } else {
      NothingGone(c, x, u, k);
    }
  }

  /** After a splice, what is left without the nodes gone is a forest. */
  lemma ShapeAfter(g: Graph, c: Content, x: Node, u: Tree, k: nat, m: nat, mid: Node?)
    requires CanRelink(g, x, k, m, mid) && Closed(g) && SameKids(g, c) && Represents(c, x, u)
    requires k + m <= |u.kids| && mid !in Gone(c, x, u, k, m)
    ensures var h := Relink(g, x, k, m, mid) - Gone(c, x, u, k, m); Forest(h, null) && Closed(h)
  {
    hide CanRelink, KidsLinked, Gone, Relink, Forest, CutOff, Represents, Closed, Spliced;
    InContent(c, x, u);
    SpliceCuts(g, c, x, u, k, m, mid);
    SpliceKeepsForest(g, x, k, m, mid);
    SpliceFacts(g, x, k, m, mid);
    var h := Relink(g, x, k, m, mid);
    SpliceClosed(g, x, k, m, mid);
    ForestOutside(h, Gone(c, x, u, k, m), if m == 1 then g[x].kids[k] else null);
  }

  // ----- one edit -----

  /** A state in which the children of `x` may be spliced. */
  ghost predicate Spliceable(W: set<Node>, A: set<Attribute>, x: Node, u: Tree, mid: Node?)
    reads W, set m | m in W :: m.attrs
    reads A
  {
    && World(W, A, x, u) && (mid != null ==> mid in W)
    && CanRelink(Snap(W), x, |x.kids|, 0, mid)
  }

  /** A forest and a fresh copy side by side. */
  lemma ReadyWithCopy(S: set<Node>, A: set<Attribute>, x: Node, u: Tree, F: set<Node>, B: set<Attribute>, r: Node)
    requires World(S, A, x, u) && Copy(F, B, r) && S !! F
    ensures Spliceable(S + F, A + B, x, u, r)
  {
    hide Represents, Snap, View, Forest, CanRelink, Closed;
    UnionShape(S, A, x, u, F, B, r);
    ViewUnion(S, F);
    RepresentsGrown(View(S), View(S + F), x, u);
  }

  lemma ReadyAlone(S: set<Node>, A: set<Attribute>, x: Node, u: Tree)
    requires World(S, A, x, u)
    ensures Spliceable(S, A, x, u, null)
  {
    NotOwnChild(S, A, x, u);
    SnapAt(S, x);
  }

  lemma SnapPart(W: set<Node>, Z: set<Node>)
    ensures Snap(W - Z) == Snap(W) - Z
    ensures View(W - Z) == View(W) - Z
  {
  }

  /** The copy's own content `v` lies apart from `x` and from what goes. */
  ghost predicate CopyContent(c: Content, v: Content, x: Node, Z: set<Node>, mid: Node, t: Tree) {
    && Represents(v, mid, t) && v.Keys !! Z && x !in v
    && (forall n | n in v :: n in c && c[n] == v[n] && x !in v[n].kids)
  }

  lemma InContent(v: Content, mid: Node, t: Tree)
    requires Represents(v, mid, t)
    ensures mid in v && |v[mid].kids| == |t.kids|
  {
  }

  lemma CopyStays(c: Content, d: Content, v: Content, x: Node, Z: set<Node>, mid: Node, t: Tree, kids: seq<Node>)
    requires CopyContent(c, v, x, Z, mid, t) && x in c && d == c[x := c[x].(kids := kids)] - Z
    ensures Represents(d, mid, t)
  {
    hide Represents;
    assert mid in v by { InContent(v, mid, t); }
    RepresentsKept(v, d, x, mid, t);
  }

  /** What the pointer work achieves, for all four operations. */
  lemma Outcome(W: set<Node>, A: set<Attribute>, Z: set<Node>, g: Graph, c: Content, x: Node, u: Tree, k: nat, m: nat,
                mid: Node?, tm: seq<Tree>, v: Content)
    requires CanRelink(g, x, k, m, mid) && Closed(g) && SameKids(g, c) && Represents(c, x, u) && k + m <= |u.kids|
    requires Z == Gone(c, x, u, k, m) && mid !in Z && |tm| == |Mid(mid)|
    requires Snap(W) == Relink(g, x, k, m, mid) && AttrsIn(W, A)
    requires View(W) == c[x := c[x].(kids := Spliced(c[x].kids, k, m, mid))]
    requires mid != null ==> CopyContent(c, v, x, Z, mid, tm[0])
    ensures World(W - Z, A, x, u.(kids := SplicedTrees(u.kids, k, m, tm)))
    ensures mid != null ==> World(W - Z, A, mid, tm[0])
  {
    hide CanRelink, Closed, Forest, Relink, Gone, KidsLinked, Snap, View, Spliced, SplicedTrees, Represents,
        AttributeSet.Valid;
    SpliceFacts(g, x, k, m, mid);
    AllLinked(g, x, k, m, mid);
    GoneFacts(g, c, x, u, k, m);
    ShapeAfter(g, c, x, u, k, m, mid);
    SnapPart(W, Z);
    var d := View(W - Z);
    if mid != null { CopyStays(c, d, v, x, Z, mid, tm[0], Spliced(c[x].kids, k, m, mid)); }
    TreeAfter(c, d, Z, x, u, k, m, mid, tm);
  }

  /** What the four operations know when they have cloned and not yet linked. */
  ghost predicate Prepared(g: Graph, c: Content, v: Content, x: Node, u: Tree, k: nat, m: nat, mid: Node?,
      tm: seq<Tree>, Z: set<Node>) {
    && CanRelink(g, x, k, m, mid) && Closed(g) && SameKids(g, c) && Represents(c, x, u) && k + m <= |u.kids|
    && Z == Gone(c, x, u, k, m) && mid !in Z && |tm| == |Mid(mid)|
    && (mid != null ==> CopyContent(c, v, x, Z, mid, tm[0]))
  }

  lemma CopyUppermost(F: set<Node>, B: set<Attribute>, r: Node)
    requires Copy(F, B, r)
    ensures r in F && forall n | n in F :: forall j | j in View(F)[n].kids :: j in F
  {
    forall n | n in F
      ensures forall j | j in View(F)[n].kids :: j in F
    {
      SnapAt(F, n);
      ViewAt(F, n);
      KidsInside(Snap(F), n);
    }
  }

  lemma PrepareCopy(S: set<Node>, A: set<Attribute>, x: Node, u: Tree, F: set<Node>, B: set<Attribute>, r: Node,
      t: Tree, k: nat, m: nat)
    requires World(S, A, x, u) && Copy(F, B, r) && Represents(View(F), r, t) && S !! F && m <= 1
             && k + m <= |x.kids| == |u.kids|
    ensures x in S && r in F && |View(S)[x].kids| == |u.kids|
    ensures Gone(View(S), x, u, k, m) <= S && (m == 0 ==> Gone(View(S), x, u, k, m) == {})
    ensures Prepared(Snap(S + F), View(S + F), View(F), x, u, k, m, r, [t], Gone(View(S), x, u, k, m))
    ensures CanSplice(Snap(S + F), x, r) && AttrsIn(S + F, A + B) && SameFields(S + F, Snap(S + F), View(S + F))
    ensures Snap(S + F)[x].kids == x.kids
  {
    hide World, Copy, Represents, Snap, View, AttrsIn, CanRelink, CanSplice, Closed, Forest, KidsLinked, Gone,
        SameFields, SameKids, Original;
    UnionShape(S, A, x, u, F, B, r);
    ReadyWithCopy(S, A, x, u, F, B, r);
    WorldFacts(S + F, A + B, x, u);
    WorldFacts(S, A, x, u);
    CanRelinkAnywhere(Snap(S + F), x, r, k, m);
    SnapViewAgree(S + F);
    GoneInside(S, A, x, u, k, m);
    ViewUnion(S, F);
    GoneSame(View(S), View(S + F), x, u, k, m);
    CopyUppermost(F, B, r);
    assert CopyContent(View(S + F), View(F), x, Gone(View(S), x, u, k, m), r, t);
  }

  lemma PrepareAlone(S: set<Node>, A: set<Attribute>, x: Node, u: Tree, k: nat)
    requires World(S, A, x, u) && k < |x.kids| == |u.kids|
    ensures x in S && |View(S)[x].kids| == |u.kids|
    ensures Prepared(Snap(S), View(S), View(S), x, u, k, 1, null, [], Gone(View(S), x, u, k, 1))
    ensures CanSplice(Snap(S), x, null) && AttrsIn(S, A) && SameFields(S, Snap(S), View(S)) && Snap(S)[x].kids == x.kids
  {
    hide World, Represents, Snap, View, AttrsIn, CanRelink, CanSplice, Closed, Forest, KidsLinked, Gone, SameFields,
        SameKids, Original;
    ReadyAlone(S, A, x, u);
    WorldFacts(S, A, x, u);
    CanRelinkAnywhere(Snap(S), x, null, k, 1);
    SnapViewAgree(S);
    GoneInside(S, A, x, u, k, 1);
  }

  lemma RootOfCopy(F: set<Node>, C: set<Attribute>, r: Node, t: Tree)
    requires Copy(F, C, r) && Represents(View(F), r, CloneTree(t))
    ensures r.parent == null && r.kind == t.kind
  {
    SnapAt(F, r);
    ViewAt(F, r);
  }

  lemma Done(W: set<Node>, A: set<Attribute>, Z: set<Node>, g: Graph, c: Content, v: Content, x: Node, u: Tree,
             k: nat, m: nat, mid: Node?, tm: seq<Tree>)
    requires Prepared(g, c, v, x, u, k, m, mid, tm, Z)
    requires Snap(W) == Relink(g, x, k, m, mid) && AttrsIn(W, A) && SameFields(W, g, c)
    ensures World(W - Z, A, x, u.(kids := SplicedTrees(u.kids, k, m, tm)))
    ensures mid != null ==> World(W - Z, A, mid, tm[0])
    ensures forall n | n in W :: n.kids == if n == x then Spliced(g[x].kids, k, m, mid) else g[n].kids
    ensures Kept(c, View(W - Z), x)
  {
    SnapPart(W, Z);
    hide CanRelink, Closed, Represents, Gone, Relink, Snap, View, AttrsIn, World, CopyContent, Spliced, SplicedTrees;
    ContentAfter(W, g, c, x, k, m, mid);
    ViewsAt(W);
    Outcome(W, A, Z, g, c, x, u, k, m, mid, tm, v);
  }

  // ----- the trees of the other nodes -----

  /** The node reached from `n` by child positions, null when there is none. */
  ghost function Descend(c: Content, n: Node, path: seq<nat>): Node?
    decreases |path|
  {
    if path == [] then n
    else if n in c && path[0] < |c[n].kids| then Descend(c, c[n].kids[path[0]], path[1..])
    else null
  }

  /** The tree with the subtree at `path` replaced. */
  function ReplacedAt(t: Tree, path: seq<nat>, v: Tree): Tree
    decreases |path|
  {
    if path == [] then v
    else if path[0] < |t.kids| then
      t.(kids := t.kids[path[0] := ReplacedAt(t.kids[path[0]], path[1..], v)])
    else t
  }

  /** A node that remains and is not above `x` keeps its tree; one above it stands for its tree with the
      subtree of `x` replaced by `v`. */
  ghost predicate TreesFollow(c: Content, d: Content, x: Node, v: Tree) {
    && (forall n, t | n in d && Represents(c, n, t) && x !in Below(c, n, t) :: Represents(d, n, t))
    && (forall n, t, path | n in d && Represents(c, n, t) && Descend(c, n, path) == x ::
          Represents(d, n, ReplacedAt(t, path, v)))
  }

  /** Nodes of both contents but `x` are the same in both. */
  ghost predicate Kept(c: Content, d: Content, x: Node) {
    forall n | n in c && n in d && n != x :: d[n] == c[n]
  }

  ghost predicate KidsIn(d: Content) {
    forall m, j | m in d && j in d[m].kids :: j in d
  }

  lemma {:induction false} FollowApart(c: Content, d: Content, x: Node, n: Node, t: Tree)
    requires Represents(c, n, t) && n in d && x !in Below(c, n, t) && Kept(c, d, x) && KidsIn(d)
    ensures Represents(d, n, t)
    decreases t
  {
    forall i | 0 <= i < |t.kids|
      ensures Represents(d, d[n].kids[i], t.kids[i])
    {
      assert d[n].kids[i] in d[n].kids;
      assert forall m | m in Below(c, c[n].kids[i], t.kids[i]) :: m in Below(c, n, t);
      FollowApart(c, d, x, c[n].kids[i], t.kids[i]);
    }
  }

  lemma {:induction false} BelowDisjoint(g: Graph, c: Content, m: Node, s: Tree, Z: set<Node>, r: Node)
    requires SameKids(g, c) && (forall n | n in g :: KidsLinked(g, n))
    requires Represents(c, m, s) && Hanging(c, Z, r) && m !in Z && r !in Below(c, m, s)
    ensures Below(c, m, s) !! Z
    decreases s
  {
    hide Hanging;
    forall i | 0 <= i < |s.kids|
      ensures Below(c, c[m].kids[i], s.kids[i]) !! Z
    {
      var j := c[m].kids[i];
      assert forall n | n in Below(c, j, s.kids[i]) :: n in Below(c, m, s);
      assert j in Below(c, j, s.kids[i]);
      HangingParent(g, c, Z, r, m, j);
      BelowDisjoint(g, c, j, s.kids[i], Z, r);
    }
  }

  /** A child of a node outside is outside, the root apart. */
  lemma HangingParent(g: Graph, c: Content, Z: set<Node>, r: Node, m: Node, j: Node)
    requires SameKids(g, c) && (forall n | n in g :: KidsLinked(g, n))
    requires Hanging(c, Z, r) && m in c && j in c[m].kids && m !in Z && j != r
    ensures j !in Z
  {
    if j in Z {
      var p :| p in Z && j in c[p].kids;
      ParentIs(g, p, j);
      ParentIs(g, m, j);
      assert false;
    }
  }

  lemma SiblingsApart(g: Graph, c: Content, n: Node, t: Tree, i: nat, j: nat)
    requires SameKids(g, c) && (forall m | m in g :: KidsLinked(g, m))
    requires Represents(c, n, t) && i < |t.kids| && j < |t.kids| && i != j
    ensures Below(c, c[n].kids[i], t.kids[i]) !! Below(c, c[n].kids[j], t.kids[j])
  {
    var a, b := c[n].kids[i], c[n].kids[j];
    hide Below, Hanging;
    NotBelowChild(c, n, t, i);
    NotBelowChild(c, n, t, j);
    BelowHangs(c, a, t.kids[i]);
    BelowHangs(c, b, t.kids[j]);
    assert a != b by { assert KidsLinked(g, n); }
    assert a in c[n].kids && b in c[n].kids;
    HangingParent(g, c, Below(c, b, t.kids[j]), b, n, a);
    HangingParent(g, c, Below(c, a, t.kids[i]), a, n, b);
    BelowDisjoint(g, c, a, t.kids[i], Below(c, b, t.kids[j]), b);
  }

  lemma {:induction false} DescendBelow(c: Content, n: Node, t: Tree, path: seq<nat>)
    requires Represents(c, n, t) && Descend(c, n, path) != null
    ensures Descend(c, n, path) in Below(c, n, t)
    decreases |path|
  {
    if path != [] {
      DescendBelow(c, c[n].kids[path[0]], t.kids[path[0]], path[1..]);
    }
  }

  lemma {:induction false} FollowAt(g: Graph, c: Content, d: Content, x: Node, v: Tree, n: Node, t: Tree,
      path: seq<nat>)
    requires SameKids(g, c) && (forall m | m in g :: KidsLinked(g, m))
    requires Represents(c, n, t) && n in d && Descend(c, n, path) == x && Represents(d, x, v)
    requires Kept(c, d, x) && KidsIn(d)
    ensures Represents(d, n, ReplacedAt(t, path, v))
    decreases |path|
  {
    if path != [] {
      hide Below, SameKids, KidsLinked;
      var i := path[0];
      DescendBelow(c, c[n].kids[i], t.kids[i], path[1..]);
      NotBelowChild(c, n, t, i);
      assert n != x;
      forall j | 0 <= j < |t.kids|
        ensures Represents(d, d[n].kids[j], ReplacedAt(t, path, v).kids[j])
      {
        assert d[n].kids[j] in d[n].kids;
        if j == i {
          FollowAt(g, c, d, x, v, c[n].kids[i], t.kids[i], path[1..]);
        } else {
          SiblingsApart(g, c, n, t, i, j);
          FollowApart(c, d, x, c[n].kids[j], t.kids[j]);
        }
      }
    }
  }

  ghost predicate Extends(c: Content, d: Content) {
    forall n | n in c :: n in d && d[n] == c[n]
  }

  /** What an edit does to the trees of all nodes. */
  lemma Follow(g: Graph, c0: Content, c: Content, T: set<Node>, B: set<Attribute>, x: Node, v: Tree)
    requires SameKids(g, c0) && (forall m | m in g :: KidsLinked(g, m))
    requires Extends(c0, c) && Kept(c, View(T), x) && World(T, B, x, v)
    ensures TreesFollow(c0, View(T), x, v)
  {
    hide World, SameKids, KidsLinked, View, Represents, Below;
    WorldFacts(T, B, x, v);
    WorldKids(T, B, x, v);
    var d := View(T);
    forall n, t | n in d && Represents(c0, n, t) && x !in Below(c0, n, t)
      ensures Represents(d, n, t)
    {
      FollowApart(c0, d, x, n, t);
    }
    forall n, t, path | n in d && Represents(c0, n, t) && Descend(c0, n, path) == x
      ensures Represents(d, n, ReplacedAt(t, path, v))
    {
      FollowAt(g, c0, d, x, v, n, t, path);
    }
  }

  lemma WorldKids(T: set<Node>, B: set<Attribute>, x: Node, v: Tree)
    requires World(T, B, x, v)
    ensures KidsIn(View(T))
  {
    forall m | m in T
      ensures forall j | j in View(T)[m].kids :: j in T
    {
      SnapAt(T, m);
      KidsInside(Snap(T), m);
    }
  }

  lemma WorldLinked(S: set<Node>, A: set<Attribute>, x: Node, u: Tree)
    requires World(S, A, x, u)
    ensures forall n | n in Snap(S) :: KidsLinked(Snap(S), n)
  {
  }

  lemma ExtendsItself(c: Content)
    ensures Extends(c, c)
  {
  }

  lemma ViewExtends(S: set<Node>, F: set<Node>)
    ensures Extends(View(S), View(S + F))
  {
    ViewUnion(S, F);
  }

  /** An edit when all is cloned and nothing linked: the graph `g` and the content `c` of all nodes, the
      content `c0` of those the edit found, the content `v` of the copy, and the nodes `gone` with the edit. */
  datatype Stage = Stage(g: Graph, c: Content, g0: Graph, c0: Content, v: Content, gone: set<Node>)

  ghost predicate Staged(st: Stage, x: Node, u: Tree, k: nat, m: nat, mid: Node?, tm: seq<Tree>) {
    && Prepared(st.g, st.c, st.v, x, u, k, m, mid, tm, st.gone) && CanSplice(st.g, x, mid)
    && Extends(st.c0, st.c) && SameKids(st.g0, st.c0) && (forall n | n in st.g0 :: KidsLinked(st.g0, n))
  }

  lemma StagedCan(st: Stage, x: Node, u: Tree, k: nat, m: nat, mid: Node?, tm: seq<Tree>)
    requires Staged(st, x, u, k, m, mid, tm)
    ensures CanSplice(st.g, x, mid) && CanRelink(st.g, x, k, m, mid)
    ensures x in st.g && (mid != null ==> mid in st.g) && k + m <= |st.g[x].kids|
  {
  }

  /** Once the links are those of the spliced list, everything an edit promises holds. */
  lemma Settled(W: set<Node>, A: set<Attribute>, st: Stage, x: Node, u: Tree, k: nat, m: nat, mid: Node?, tm: seq<Tree>)
    requires Staged(st, x, u, k, m, mid, tm) && k + m <= |u.kids|
    requires x in st.g && k + m <= |st.g[x].kids| && Snap(W) == Relink(st.g, x, k, m, mid)
    requires AttrsIn(W, A) && SameFields(W, st.g, st.c)
    ensures var v := u.(kids := SplicedTrees(u.kids, k, m, tm));
            && World(W - st.gone, A, x, v) && TreesFollow(st.c0, View(W - st.gone), x, v)
    ensures mid != null ==> |tm| == 1 && World(W - st.gone, A, mid, tm[0])
    ensures x in W && x.kids == Spliced(st.g[x].kids, k, m, mid)
  {
    hide World, TreesFollow, Prepared, Relink, AttrsIn, SameFields, Kept, Spliced, SplicedTrees, Snap, View,
        CanSplice, Extends;
    PreparedOne(st.g, st.c, st.v, x, u, k, m, mid, tm, st.gone);
    Done(W, A, st.gone, st.g, st.c, st.v, x, u, k, m, mid, tm);
    Follow(st.g0, st.c0, st.c, W - st.gone, A, x, u.(kids := SplicedTrees(u.kids, k, m, tm)));
  }

  lemma PreparedOne(g: Graph, c: Content, v: Content, x: Node, u: Tree, k: nat, m: nat, mid: Node?, tm: seq<Tree>,
      Z: set<Node>)
    requires Prepared(g, c, v, x, u, k, m, mid, tm, Z)
    ensures mid != null ==> |tm| == 1
  {
  }

  // ----- a whole tree -----

  /** Every node that remains keeps its tree. */
  ghost predicate TreesKept(c: Content, d: Content) {
    forall n, s | n in d && Represents(c, n, s) :: Represents(d, n, s)
  }

  lemma RootUnlinked(S: set<Node>, A: set<Attribute>, n: Node, t: Tree)
    requires World(S, A, n, t) && n.parent == null
    ensures Unlinked(Snap(S), n)
  {
    WorldLinked(S, A, n, t);
    SnapAt(S, n);
    forall m | m in S && n in Snap(S)[m].kids
      ensures false
    {
      ParentIs(Snap(S), m, n);
    }
  }

  lemma {:induction false} RepresentsWithin(c: Content, d: Content, n: Node, t: Tree)
    requires Represents(c, n, t) && forall m | m in Below(c, n, t) :: m in d && m in c && d[m] == c[m]
    ensures Represents(d, n, t)
    decreases t
  {
    assert n in Below(c, n, t);
    forall i | 0 <= i < |t.kids|
      ensures Represents(d, d[n].kids[i], t.kids[i])
    {
      assert forall m | m in Below(c, c[n].kids[i], t.kids[i]) :: m in Below(c, n, t);
      RepresentsWithin(c, d, c[n].kids[i], t.kids[i]);
    }
  }

  /** A root is below no other node. */
  lemma RootNotBelow(g: Graph, c: Content, root: Node, n: Node, s: Tree)
    requires SameKids(g, c) && Unlinked(g, root) && Represents(c, n, s) && n != root
    ensures root !in Below(c, n, s)
  {
    BelowHangs(c, n, s);
    hide Below;
  }

  /** Deleting a root with all below it leaves a forest in which every node keeps its tree. */
  lemma TreeDeleted(S: set<Node>, A: set<Attribute>, x: Node, u: Tree, root: Node, t: Tree)
    requires World(S, A, x, u) && World(S, A, root, t) && root.parent == null && x !in Below(View(S), root, t)
    ensures var T := S - Below(View(S), root, t); World(T, A, x, u) && TreesKept(View(S), View(T))
  {
    var g, c, Z := Snap(S), View(S), Below(View(S), root, t);
    WorldFacts(S, A, root, t);
    WorldFacts(S, A, x, u);
    RootUnlinked(S, A, root, t);
    SnapViewAgree(S);
    BelowHangs(c, root, t);
    RootCutOff(g, c, Z, root);
    hide World, Represents, Snap, View, Forest, Closed, KidsLinked, Below, Hanging, CutOff, SameKids, AttrsIn;
    SnapPart(S, Z);
    ForestKeepsFree(g, root);
    ForestOutside(g, Z, root);
    forall n, s | n in View(S - Z) && Represents(c, n, s)
      ensures Represents(View(S - Z), n, s)
    {
      HangingInside(c, Z, root);
      RootNotBelow(g, c, root, n, s);
      BelowDisjoint(g, c, n, s, Z, root);
      BelowIn(c, n, s);
      RepresentsWithin(c, View(S - Z), n, s);
    }
    PartWorld(S, Z, A, x, u);
  }

  lemma BelowIn(c: Content, n: Node, s: Tree)
    requires Represents(c, n, s)
    ensures Below(c, n, s) <= c.Keys
  {
    BelowHangs(c, n, s);
    hide Below;
  }

  lemma ForestKeepsFree(g: Graph, x: Node)
    requires Forest(g, null)
    ensures Forest(g, x)
  {
  }

  lemma RootCutOff(g: Graph, c: Content, Z: set<Node>, root: Node)
    requires SameKids(g, c) && Hanging(c, Z, root) && Unlinked(g, root) && (forall n | n in g :: KidsLinked(g, n))
    ensures CutOff(g, Z, root)
  {
    forall m | m in Z && m != root
      ensures g[m].parent in Z
    {
      var p :| p in Z && m in c[p].kids;
      ParentIs(g, p, m);
    }
    hide KidsLinked;
  }

  lemma PartWorld(S: set<Node>, Z: set<Node>, A: set<Attribute>, x: Node, u: Tree)
    requires AttrsIn(S, A) && x in S - Z && Represents(View(S - Z), x, u)
    requires Forest(Snap(S - Z), null) && Closed(Snap(S - Z))
    ensures World(S - Z, A, x, u)
  {
    hide Represents, Forest, Closed, Snap, View;
  }

  /** A separate tree, ready to be linked under `x`. */
  lemma StageTree(S: set<Node>, A: set<Attribute>, x: Node, u: Tree, root: Node, t: Tree) returns (st: Stage)
    requires World(S, A, x, u) && World(S, A, root, t) && root.parent == null && x !in Below(View(S), root, t)
    ensures x in S && root in S && |x.kids| == |u.kids| && Staged(st, x, u, |u.kids|, 0, root, [t])
    ensures st.g == Snap(S) && st.c0 == View(S) && st.g[x].kids == x.kids && st.gone == {}
    ensures AttrsIn(S, A) && SameFields(S, st.g, st.c)
  {
    hide World, Represents, Snap, View, KidsLinked, AttrsIn, SameFields, SameKids, Closed, Forest, Below, Unlinked,
      Prepared, CanSplice;
    var g, c := Snap(S), View(S);
    WorldFacts(S, A, root, t);
    WorldFacts(S, A, x, u);
    NotOwnChild(S, A, x, u);
    RootUnlinked(S, A, root, t);
    SnapViewAgree(S);
    st := StageOf(g, c, x, u, root, t);
  }

  lemma StageOf(g: Graph, c: Content, x: Node, u: Tree, root: Node, t: Tree) returns (st: Stage)
    requires x in g && root in g && x !in g[x].kids && |g[x].kids| == |u.kids| && SameKids(g, c)
    requires Unlinked(g, root) && Forest(g, null) && Closed(g) && (forall n | n in g :: KidsLinked(g, n))
    requires Represents(c, x, u) && Represents(c, root, t) && x !in Below(c, root, t)
    ensures Staged(st, x, u, |u.kids|, 0, root, [t]) && st.g == g && st.c == st.c0 == c && st.gone == {}
  {
    hide Represents, KidsLinked, SameKids, Closed, Forest, Below, CopyContent, CanRelink, CanSplice, Unlinked, Extends,
      Prepared, Gone;
    var v := RootContent(c, x, root, t);
    InContent(c, x, u);
    CanLinkTree(g, x, root);
    NothingGone(c, x, u, |u.kids|);
    TreePrepared(g, c, v, x, u, root, t);
    ExtendsItself(c);
    st := Stage(g, c, g, c, v, {});
  }

  lemma TreePrepared(g: Graph, c: Content, v: Content, x: Node, u: Tree, root: Node, t: Tree)
    requires x in g && |g[x].kids| == |u.kids| && CanRelink(g, x, |u.kids|, 0, root)
    requires Closed(g) && SameKids(g, c) && Represents(c, x, u)
    requires x in c && |c[x].kids| == |u.kids| && Gone(c, x, u, |u.kids|, 0) == {}
    requires CopyContent(c, v, x, {}, root, t)
    ensures Prepared(g, c, v, x, u, |u.kids|, 0, root, [t], {})
  {
    hide Represents, KidsLinked, SameKids, Closed, Forest, Below, CopyContent, CanRelink, CanSplice, Unlinked, Gone;
  }

  lemma CanLinkTree(g: Graph, x: Node, root: Node)
    requires x in g && root in g && x !in g[x].kids && root != x && Unlinked(g, root) && Forest(g, null)
    ensures CanRelink(g, x, |g[x].kids|, 0, root) && CanSplice(g, x, root)
  {
    hide KidsLinked;
  }

  lemma RootContent(c: Content, x: Node, root: Node, t: Tree) returns (v: Content)
    requires Represents(c, root, t) && x !in Below(c, root, t)
    ensures CopyContent(c, v, x, {}, root, t) && root != x
  {
    v := map n | n in Below(c, root, t) && n in c :: c[n];
    BelowHangs(c, root, t);
    RepresentsWithin(c, v, root, t);
    assert root in Below(c, root, t);
  }

  // ----- a document as a child -----

  lemma {:induction false} CloneKidsAppend(a: seq<Tree>, b: seq<Tree>)
    ensures CloneKids(a + b) == CloneKids(a) + CloneKids(b)
    decreases |b|
  {
    hide CloneKids, CloneTree;
    if b == [] {
      assert a + b == a;
      NoKidsCloned();
    } else {
      var init, last := b[..|b| - 1], b[|b| - 1];
      assert (a + b)[..|a + b| - 1] == a + init && (a + b)[|a + b| - 1] == last;
      CloneKidsUnfold(a + b, a + init, last);
      CloneKidsUnfold(b, init, last);
      CloneKidsAppend(a, init);
    }
  }

  /** ReplaceChild accepts a document, and a copy made later drops it: it has the children of a copy made of
      the tree with that child removed, while the tree itself has the document. */
  lemma DocumentDroppedByCopy(u: Tree, k: nat, t: Tree)
    requires k < |u.kids| && IsContainer(u.kind) && t.kind.Document?
    ensures var replaced := u.(kids := SplicedTrees(u.kids, k, 1, [CloneTree(t)]));
            && replaced.kids[k].kind.Document?
            && CloneTree(replaced) == CloneTree(u.(kids := SplicedTrees(u.kids, k, 1, [])))
            && CloneTree(replaced) != replaced
  {
    hide CloneKids, CopyPairs, Copyable, SplicedTrees, CloneTree;
    var copy := CloneTree(t);
    var with, without := SplicedTrees(u.kids, k, 1, [copy]), SplicedTrees(u.kids, k, 1, []);
    CloneTreeKind(t);
    SplicedTreeHere(u.kids, k, copy);
    DocumentSkipped(u.kids[..k], copy, u.kids[k + 1..]);
    SameCopy(u, with, without);
    CloneExactly(u.(kids := with));
    NotCopyable(u.(kids := with), k);
  }

  lemma SplicedTreeHere(ts: seq<Tree>, k: nat, t: Tree)
    requires k < |ts|
    ensures SplicedTrees(ts, k, 1, [t]) == ts[..k] + [t] + ts[k + 1..] && SplicedTrees(ts, k, 1, [t])[k] == t
    ensures SplicedTrees(ts, k, 1, []) == ts[..k] + ts[k + 1..]
  {
  }

  lemma DocumentSkipped(front: seq<Tree>, d: Tree, back: seq<Tree>)
    requires d.kind.Document?
    ensures CloneKids(front + [d] + back) == CloneKids(front + back)
  {
    hide CloneKids;
    OneDocument(d);
    CloneKidsAppend(front, [d]);
    CloneKidsAppend(front + [d], back);
    CloneKidsAppend(front, back);
  }

  lemma SameCopy(u: Tree, a: seq<Tree>, b: seq<Tree>)
    requires IsContainer(u.kind) && CloneKids(a) == CloneKids(b)
    ensures CloneTree(u.(kids := a)) == CloneTree(u.(kids := b))
  {
    hide CloneKids, CopyPairs;
  }

  lemma OneDocument(d: Tree)
    requires d.kind.Document?
    ensures CloneKids([d]) == []
  {
    assert [d][..0] == [];
  }

  lemma NotCopyable(t: Tree, k: nat)
    requires k < |t.kids| && t.kids[k].kind.Document?
    ensures !Copyable(t)
  {
  }

  // ----- the operations -----

  ghost function Position(kids: seq<Node>, n: Node): (k: nat)
    requires n in kids
    ensures k < |kids| && kids[k] == n
  {
    if kids[0] == n then 0 else 1 + Position(kids[1..], n)
  }

  /** A copy of `source`, ready to be linked under `x` in the place of `m` children from `k` on. */
  method CloneFor(x: Node, source: Node, ghost u: Tree, ghost t: Tree, ghost k: nat, ghost m: nat,
                  ghost S: set<Node>, ghost A: set<Attribute>)
    returns (node: Node, ghost W: set<Node>, ghost B: set<Attribute>, ghost st: Stage)
    requires World(S, A, x, u) && World(S, A, source, t) && m <= 1 && k + m <= |x.kids| == |u.kids|
    ensures S <= W && fresh(W - S) && node in W - S && x in S && node.parent == null && node.kind == source.kind
    ensures Staged(st, x, u, k, m, node, [CloneTree(t)])
    ensures st.g == Snap(W) && st.c0 == View(S) && x in st.g && st.g[x].kids == x.kids
    ensures AttrsIn(W, B) && SameFields(W, st.g, st.c)
    ensures st.gone <= S && x !in st.gone
    ensures st.gone == if m == 0 then {} else Below(View(S), x.kids[k], u.kids[k])
  {
    hide *;
    OriginalIs(S, A, source, t);
    OriginalFacts(S, A, source, t);
    ghost var F, C;
    node, F, C := Clone(source, t, S, A);
    W, B := S + F, A + C;
    RootOfCopy(F, C, node, t);
    st := StageWithCopy(S, A, x, u, F, C, node, CloneTree(t), k, m);
  }

  lemma StageWithCopy(S: set<Node>, A: set<Attribute>, x: Node, u: Tree, F: set<Node>, B: set<Attribute>, r: Node,
                      t: Tree, k: nat, m: nat) returns (st: Stage)
    requires World(S, A, x, u) && Copy(F, B, r) && Represents(View(F), r, t) && S !! F
    requires m <= 1 && k + m <= |x.kids| == |u.kids|
    ensures r in F && x in S && Staged(st, x, u, k, m, r, [t])
    ensures st.g == Snap(S + F) && st.c0 == View(S) && st.g[x].kids == x.kids
    ensures AttrsIn(S + F, A + B) && SameFields(S + F, st.g, st.c)
    ensures st.gone <= S && x !in st.gone
    ensures st.gone == if m == 0 then {} else Below(View(S), x.kids[k], u.kids[k])
  {
    hide World, Copy, Represents, Snap, View, AttrsIn, CanSplice, SameFields, SameKids, KidsLinked, Prepared, Gone,
        Extends;
    PrepareCopy(S, A, x, u, F, B, r, t, k, m);
    SnapViewAgree(S);
    WorldLinked(S, A, x, u);
    ViewExtends(S, F);
    if m == 1 { GoneBelow(S, A, x, u, k); }
    st := Stage(Snap(S + F), View(S + F), Snap(S), View(S), View(F), Gone(View(S), x, u, k, m));
  }

  lemma StageAlone(S: set<Node>, A: set<Attribute>, x: Node, u: Tree, k: nat) returns (st: Stage)
    requires World(S, A, x, u) && k < |x.kids| == |u.kids|
    ensures x in S && Staged(st, x, u, k, 1, null, [])
    ensures st.g == Snap(S) && st.c0 == View(S) && st.g[x].kids == x.kids
    ensures AttrsIn(S, A) && SameFields(S, st.g, st.c)
    ensures st.gone == Below(View(S), x.kids[k], u.kids[k])
  {
    hide World, Represents, Snap, View, AttrsIn, CanSplice, SameFields, SameKids, KidsLinked, Prepared, Gone;
    PrepareAlone(S, A, x, u, k);
    SnapViewAgree(S);
    WorldLinked(S, A, x, u);
    GoneBelow(S, A, x, u, k);
    st := Stage(Snap(S), View(S), Snap(S), View(S), View(S), Gone(View(S), x, u, k, 1));
  }

  /** The linking of InsertEndChild. */
  method PlaceLast(self: Node, node: Node, ghost u: Tree, ghost t: Tree, ghost st: Stage, ghost W: set<Node>,
      ghost B: set<Attribute>)
    requires self in W && node in W
    requires self in st.g && self.kids == st.g[self].kids && |self.kids| == |u.kids| && node.parent == null
             && !node.kind.Document?
    requires Staged(st, self, u, |u.kids|, 0, node, [t]) && st.g == Snap(W) && AttrsIn(W, B)
             && SameFields(W, st.g, st.c)
    modifies W`parent, W`firstChild, W`lastChild, W`prev, W`next, W`kids
    ensures self.kids == Spliced(old(self.kids), |u.kids|, 0, node)
    ensures World(W - st.gone, B, self, u.(kids := SplicedTrees(u.kids, |u.kids|, 0, [t])))
    ensures World(W - st.gone, B, node, t)
    ensures TreesFollow(st.c0, View(W - st.gone), self, u.(kids := SplicedTrees(u.kids, |u.kids|, 0, [t])))
  {
    hide *;
    StagedCan(st, self, u, |u.kids|, 0, node, [t]);
    var r := self.LinkEndChild(node, W);
    Settled(W, B, st, self, u, |u.kids|, 0, node, [t]);
  }

  /** The linking of InsertBeforeChild. */
  method PlaceBefore(self: Node, beforeThis: Node, node: Node, ghost u: Tree, ghost t: Tree, ghost k: nat,
      ghost st: Stage, ghost W: set<Node>, ghost B: set<Attribute>)
    requires self in W && node in W
    requires k < |self.kids| && self.kids[k] == beforeThis
    requires self in st.g && self.kids == st.g[self].kids && |self.kids| == |u.kids|
    requires Staged(st, self, u, k, 0, node, [t]) && st.g == Snap(W) && AttrsIn(W, B) && SameFields(W, st.g, st.c)
    modifies W`parent, W`firstChild, W`lastChild, W`prev, W`next, W`kids
    ensures self.kids == Spliced(old(self.kids), k, 0, node)
    ensures World(W - st.gone, B, self, u.(kids := SplicedTrees(u.kids, k, 0, [t])))
    ensures World(W - st.gone, B, node, t)
    ensures TreesFollow(st.c0, View(W - st.gone), self, u.(kids := SplicedTrees(u.kids, k, 0, [t])))
  {
    hide *;
    StagedCan(st, self, u, k, 0, node, [t]);
    self.LinkBefore(beforeThis, node, k, W);
    Settled(W, B, st, self, u, k, 0, node, [t]);
  }

  /** The linking of InsertAfterChild. */
  method PlaceAfter(self: Node, afterThis: Node, node: Node, ghost u: Tree, ghost t: Tree, ghost k: nat,
      ghost st: Stage, ghost W: set<Node>, ghost B: set<Attribute>)
    requires self in W && node in W
    requires k < |self.kids| && self.kids[k] == afterThis
    requires self in st.g && self.kids == st.g[self].kids && |self.kids| == |u.kids|
    requires Staged(st, self, u, k + 1, 0, node, [t]) && st.g == Snap(W) && AttrsIn(W, B) && SameFields(W, st.g, st.c)
    modifies W`parent, W`firstChild, W`lastChild, W`prev, W`next, W`kids
    ensures self.kids == Spliced(old(self.kids), k + 1, 0, node)
    ensures World(W - st.gone, B, self, u.(kids := SplicedTrees(u.kids, k + 1, 0, [t])))
    ensures World(W - st.gone, B, node, t)
    ensures TreesFollow(st.c0, View(W - st.gone), self, u.(kids := SplicedTrees(u.kids, k + 1, 0, [t])))
  {
    hide *;
    StagedCan(st, self, u, k + 1, 0, node, [t]);
    self.LinkAfter(afterThis, node, k, W);
    Settled(W, B, st, self, u, k + 1, 0, node, [t]);
  }

  /** The linking of ReplaceChild. */
  method PlaceInstead(self: Node, replaceThis: Node, node: Node, ghost u: Tree, ghost t: Tree, ghost k: nat,
      ghost st: Stage, ghost W: set<Node>, ghost B: set<Attribute>)
    requires self in W && node in W
    requires k < |self.kids| && self.kids[k] == replaceThis
    requires self in st.g && self.kids == st.g[self].kids && |self.kids| == |u.kids|
    requires Staged(st, self, u, k, 1, node, [t]) && st.g == Snap(W) && AttrsIn(W, B) && SameFields(W, st.g, st.c)
    modifies W`parent, W`firstChild, W`lastChild, W`prev, W`next, W`kids
    ensures self.kids == Spliced(old(self.kids), k, 1, node)
    ensures World(W - st.gone, B, self, u.(kids := SplicedTrees(u.kids, k, 1, [t])))
    ensures World(W - st.gone, B, node, t)
    ensures TreesFollow(st.c0, View(W - st.gone), self, u.(kids := SplicedTrees(u.kids, k, 1, [t])))
  {
    hide *;
    StagedCan(st, self, u, k, 1, node, [t]);
    self.LinkInstead(replaceThis, node, k, W);
    Settled(W, B, st, self, u, k, 1, node, [t]);
  }

  /** The linking of RemoveChild. */
  method Cut(self: Node, removeThis: Node, ghost u: Tree, ghost k: nat, ghost st: Stage, ghost W: set<Node>,
      ghost B: set<Attribute>)
    requires self in W
    requires k < |self.kids| && self.kids[k] == removeThis
    requires self in st.g && self.kids == st.g[self].kids && |self.kids| == |u.kids|
    requires Staged(st, self, u, k, 1, null, []) && st.g == Snap(W) && AttrsIn(W, B) && SameFields(W, st.g, st.c)
    modifies W`parent, W`firstChild, W`lastChild, W`prev, W`next, W`kids
    ensures self.kids == Spliced(old(self.kids), k, 1, null)
    ensures World(W - st.gone, B, self, u.(kids := SplicedTrees(u.kids, k, 1, [])))
    ensures TreesFollow(st.c0, View(W - st.gone), self, u.(kids := SplicedTrees(u.kids, k, 1, [])))
  {
    hide *;
    StagedCan(st, self, u, k, 1, null, []);
    self.Unlink(removeThis, k, W);
    Settled(W, B, st, self, u, k, 1, null, []);
  }

  /** Links a whole tree as the last child; a document is refused, and deleted with all below it. */
  method LinkEndTree(self: Node, node: Node, ghost u: Tree, ghost t: Tree, ghost S: set<Node>, ghost A: set<Attribute>)
    returns (r: Node?, ghost T: set<Node>)
    requires World(S, A, self, u) && World(S, A, node, t)
    requires node.parent == null && self !in Below(View(S), node, t)
    modifies S`parent, S`firstChild, S`lastChild, S`prev, S`next, S`kids
    ensures node.kind.Document? ==>
              && r == null && unchanged(S) && T == S - Below(View(S), node, t)
              && World(T, A, self, u) && TreesKept(View(S), View(T))
    ensures !node.kind.Document? ==>
              && r == node && T == S && self.kids == old(self.kids) + [node]
              && World(T, A, self, u.(kids := u.kids + [t])) && World(T, A, node, t)
              && TreesFollow(old(View(S)), View(T), self, u.(kids := u.kids + [t]))
  {
    hide *;
    OriginalIs(S, A, self, u);
    if node.kind.Document? {
      TreeDeleted(S, A, self, u, node, t);
      return null, S - Below(View(S), node, t);
    }
    ghost var st := StageTree(S, A, self, u, node, t);
    OriginalIs(S, A, node, t);
    PlaceLast(self, node, u, t, st, S, A);
    SplicedEnd(old(self.kids), node);
    SplicedTreesEnd(u.kids, t);
    assert S - {} == S;
    return node, S;
  }

  /** Appends a copy; a document is refused. */
  method InsertEndChild(self: Node, addThis: Node, ghost u: Tree, ghost t: Tree, ghost S: set<Node>,
      ghost A: set<Attribute>)
    returns (r: Node?, ghost T: set<Node>, ghost B: set<Attribute>)
    requires World(S, A, self, u) && World(S, A, addThis, t)
    modifies S`parent, S`firstChild, S`lastChild, S`prev, S`next, S`kids
    ensures addThis.kind.Document? ==> r == null && T == S && unchanged(S)
    ensures !addThis.kind.Document? ==>
              && S <= T && fresh(T - S) && r in T - S && self.kids == old(self.kids) + [r]
              && World(T, B, self, u.(kids := u.kids + [CloneTree(t)])) && World(T, B, r, CloneTree(t))
              && TreesFollow(old(View(S)), View(T), self, u.(kids := u.kids + [CloneTree(t)]))
  {
    hide *;
    if addThis.kind.Document? {
      return null, S, A;
    }
    OriginalIs(S, A, self, u);
    ghost var st;
    r, T, B, st := CloneFor(self, addThis, u, t, |self.kids|, 0, S, A);
    PlaceLast(self, r, u, CloneTree(t), st, T, B);
    SplicedEnd(old(self.kids), r);
    SplicedTreesEnd(u.kids, CloneTree(t));
    assert T - {} == T;
  }

  /** Inserts a copy in front of a child; a null or foreign child or a document is refused. */
  method InsertBeforeChild(self: Node, beforeThis: Node?, addThis: Node, ghost u: Tree, ghost t: Tree,
                ghost S: set<Node>, ghost A: set<Attribute>)
    returns (r: Node?, ghost T: set<Node>, ghost B: set<Attribute>)
    requires World(S, A, self, u) && World(S, A, addThis, t) && (beforeThis != null ==> beforeThis in S)
    modifies S`parent, S`firstChild, S`lastChild, S`prev, S`next, S`kids
    ensures beforeThis == null || old(beforeThis.parent) != self || addThis.kind.Document? ==>
              r == null && T == S && unchanged(S)
    ensures !(beforeThis == null || old(beforeThis.parent) != self || addThis.kind.Document?) ==>
              && beforeThis in old(self.kids) && |u.kids| == |old(self.kids)|
              && var k := Position(old(self.kids), beforeThis);
              && S <= T && fresh(T - S) && r in T - S
              && self.kids == Spliced(old(self.kids), k, 0, r)
              && World(T, B, self, u.(kids := SplicedTrees(u.kids, k, 0, [CloneTree(t)])))
              && World(T, B, r, CloneTree(t))
              && TreesFollow(old(View(S)), View(T), self, u.(kids := SplicedTrees(u.kids, k, 0, [CloneTree(t)])))
  {
    hide *;
    if beforeThis == null || beforeThis.parent != self {
      return null, S, A;
    }
    if addThis.kind.Document? {
      return null, S, A;
    }
    ParentHas(S, A, self, u, beforeThis);
    ghost var k := Position(self.kids, beforeThis);
    ghost var st;
    r, T, B, st := CloneFor(self, addThis, u, t, k, 0, S, A);
    PlaceBefore(self, beforeThis, r, u, CloneTree(t), k, st, T, B);
    assert T - {} == T;
  }

  /** Inserts a copy behind a child; a null or foreign child or a document is refused. */
  method InsertAfterChild(self: Node, afterThis: Node?, addThis: Node, ghost u: Tree, ghost t: Tree,
                ghost S: set<Node>, ghost A: set<Attribute>)
    returns (r: Node?, ghost T: set<Node>, ghost B: set<Attribute>)
    requires World(S, A, self, u) && World(S, A, addThis, t) && (afterThis != null ==> afterThis in S)
    modifies S`parent, S`firstChild, S`lastChild, S`prev, S`next, S`kids
    ensures afterThis == null || old(afterThis.parent) != self || addThis.kind.Document? ==>
              r == null && T == S && unchanged(S)
    ensures !(afterThis == null || old(afterThis.parent) != self || addThis.kind.Document?) ==>
              && afterThis in old(self.kids) && |u.kids| == |old(self.kids)|
              && var k := Position(old(self.kids), afterThis);
              && S <= T && fresh(T - S) && r in T - S
              && self.kids == Spliced(old(self.kids), k + 1, 0, r)
              && World(T, B, self, u.(kids := SplicedTrees(u.kids, k + 1, 0, [CloneTree(t)])))
              && World(T, B, r, CloneTree(t))
              && TreesFollow(old(View(S)), View(T), self, u.(kids := SplicedTrees(u.kids, k + 1, 0, [CloneTree(t)])))
  {
    hide *;
    if afterThis == null || afterThis.parent != self {
      return null, S, A;
    }
    if addThis.kind.Document? {
      return null, S, A;
    }
    ParentHas(S, A, self, u, afterThis);
    ghost var k := Position(self.kids, afterThis);
    ghost var st;
    r, T, B, st := CloneFor(self, addThis, u, t, k + 1, 0, S, A);
    PlaceAfter(self, afterThis, r, u, CloneTree(t), k, st, T, B);
    assert T - {} == T;
  }

  /** Puts a copy, even of a document, in the place of a child, which is deleted with all below it. */
  method ReplaceChild(self: Node, replaceThis: Node, withThis: Node, ghost u: Tree, ghost t: Tree,
                ghost S: set<Node>, ghost A: set<Attribute>)
    returns (r: Node?, ghost T: set<Node>, ghost B: set<Attribute>)
    requires World(S, A, self, u) && World(S, A, withThis, t) && replaceThis in S
    modifies S`parent, S`firstChild, S`lastChild, S`prev, S`next, S`kids
    ensures old(replaceThis.parent) != self ==>
              r == null && T == S && unchanged(S)
    ensures old(replaceThis.parent) == self ==>
              && replaceThis in old(self.kids) && |u.kids| == |old(self.kids)|
              && var k := Position(old(self.kids), replaceThis);
              && S - T == Below(old(View(S)), replaceThis, u.kids[k]) && self in T && fresh(T - S) && r in T - S
              && self.kids == Spliced(old(self.kids), k, 1, r)
              && World(T, B, self, u.(kids := SplicedTrees(u.kids, k, 1, [CloneTree(t)])))
              && World(T, B, r, CloneTree(t))
              && TreesFollow(old(View(S)), View(T), self, u.(kids := SplicedTrees(u.kids, k, 1, [CloneTree(t)])))
  {
    hide *;
    if replaceThis.parent != self {
      return null, S, A;
    }
    ParentHas(S, A, self, u, replaceThis);
    ghost var k, W := Position(self.kids, replaceThis), {};
    ghost var st;
    r, W, B, st := CloneFor(self, withThis, u, t, k, 1, S, A);
    PlaceInstead(self, replaceThis, r, u, CloneTree(t), k, st, W, B);
    T := W - st.gone;
  }

  /** Deletes a child with all below it. */
  method RemoveChild(self: Node, removeThis: Node, ghost u: Tree, ghost S: set<Node>, ghost A: set<Attribute>)
    returns (r: bool, ghost T: set<Node>)
    requires World(S, A, self, u) && removeThis in S
    modifies S`parent, S`firstChild, S`lastChild, S`prev, S`next, S`kids
    ensures r <==> old(removeThis.parent) == self
    ensures !r ==> T == S && unchanged(S)
    ensures r ==>
              && removeThis in old(self.kids) && |u.kids| == |old(self.kids)|
              && var k := Position(old(self.kids), removeThis);
              && T == S - Below(old(View(S)), removeThis, u.kids[k])
              && self.kids == Spliced(old(self.kids), k, 1, null)
              && World(T, A, self, u.(kids := SplicedTrees(u.kids, k, 1, [])))
              && TreesFollow(old(View(S)), View(T), self, u.(kids := SplicedTrees(u.kids, k, 1, [])))
  {
    hide *;
    if removeThis.parent != self {
      return false, S;
    }
    ParentHas(S, A, self, u, removeThis);
    ghost var k := Position(self.kids, removeThis);
    ghost var st := StageAlone(S, A, self, u, k);
    Cut(self, removeThis, u, k, st, S, A);
    return true, S - st.gone;
  }
}
