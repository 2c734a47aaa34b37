/** TiXmlNode: the pointers of doubly linked child lists, seen as sequences. */
module XmlNodes {
  import opened Bytes
  import opened XmlAttributes

  datatype Kind =
    | Document
    | Element
    | Comment
    | Unknown
    | Text(cdata: bool)
    | Declaration(version: seq<byte>, encoding: seq<byte>, standalone: seq<byte>)

  class Node {
    var kind: Kind
    var value: seq<byte>
    const attrs: AttributeSet
    var parent: Node?
    var firstChild: Node?
    var lastChild: Node?
    var prev: Node?
    var next: Node?
    ghost var kids: seq<Node>   // the child list

    constructor (kind: Kind, value: seq<byte>)
      ensures this.kind == kind && this.value == value && kids == []
      ensures parent == null && firstChild == null && lastChild == null && prev == null && next == null
      ensures fresh(attrs) && fresh(attrs.sentinel) && attrs.Valid() && attrs.pairs == [] && attrs.items == []
    {
      this.kind := kind;
      this.value := value;
      attrs := new AttributeSet();
      parent, firstChild, lastChild, prev, next := null, null, null, null, null;
      kids := [];
    }

    /** Links an unlinked node as the last child. A document is refused. */
    method LinkEndChild(node: Node, ghost S: set<Node>) returns (r: Node?)
      requires this in S && node in S && CanRelink(Snap(S), this, |kids|, 0, node)
      requires node.parent == null || node.parent == this
      modifies S`parent, S`firstChild, S`lastChild, S`prev, S`next, S`kids
      ensures node.kind.Document? ==> r == null && unchanged(S)
      ensures !node.kind.Document? ==>
                && r == node && kids == old(kids) + [node]
                && Snap(S) == Relink(old(Snap(S)), this, |old(kids)|, 0, node)
                && Forest(Snap(S), null)
    {
      hide CanRelink, CanSplice, Relink, Forest, Snap;
      if node.kind.Document? {
        return null;
      }
      SnapAt(S, this);
      EndFacts(Snap(S), this, node);
      LinkLast(node, S);
      return node;
    }

    /** The pointer work of LinkEndChild. */
    method LinkLast(node: Node, ghost S: set<Node>)
      requires this in S && node in S && CanSplice(Snap(S), this, node)
      modifies S`parent, S`firstChild, S`lastChild, S`prev, S`next, S`kids
      ensures kids == old(kids) + [node]
      ensures Snap(S) == Relink(old(Snap(S)), this, |old(kids)|, 0, node)
    {
      hide KidsLinked, KidLinked, Relink, Spliced, Snap, CanSplice, NewLinks, Kid;
      ghost var g, p, k := Snap(S), lastChild, |kids|;
      SnapsAt(S);
      LastChildIs(g, this, node);
      SplicedEnd(kids, node);
      node.parent := this;
      node.prev := lastChild;
      node.next := null;
      if lastChild != null {
        lastChild.next := node;
      } else {
        firstChild := node;
      }
      lastChild := node;
      kids := kids + [node];
      LinksRelinked(S, g, this, k, 0, node, p, null);
    }

    /** The pointer work of InsertBeforeChild. */
    method LinkBefore(beforeThis: Node, node: Node, ghost k: nat, ghost S: set<Node>)
      requires this in S && node in S && CanSplice(Snap(S), this, node) && k < |kids| && beforeThis == kids[k]
      modifies S`parent, S`firstChild, S`lastChild, S`prev, S`next, S`kids
      ensures Snap(S) == Relink(old(Snap(S)), this, k, 0, node)
    {
      hide KidsLinked, KidLinked, Relink, Spliced, Snap, CanSplice, NewLinks, Kid;
      ghost var g, p := Snap(S), Kid(kids, k - 1);
      SnapsAt(S);
      AroundChild(g, this, k, node);
      node.parent := this;
      node.next := beforeThis;
      node.prev := beforeThis.prev;
      if beforeThis.prev != null {
        beforeThis.prev.next := node;
      } else {
        firstChild := node;
      }
      beforeThis.prev := node;
      kids := Spliced(kids, k, 0, node);
      LinksRelinked(S, g, this, k, 0, node, p, beforeThis);
    }

    /** The pointer work of InsertAfterChild. */
    method LinkAfter(afterThis: Node, node: Node, ghost k: nat, ghost S: set<Node>)
      requires this in S && node in S && CanSplice(Snap(S), this, node) && k < |kids| && afterThis == kids[k]
      modifies S`parent, S`firstChild, S`lastChild, S`prev, S`next, S`kids
      ensures Snap(S) == Relink(old(Snap(S)), this, k + 1, 0, node)
    {
      hide KidsLinked, KidLinked, Relink, Spliced, Snap, CanSplice, NewLinks, Kid;
      ghost var g, q := Snap(S), Kid(kids, k + 1);
      SnapsAt(S);
      AroundChild(g, this, k, node);
      node.parent := this;
      node.prev := afterThis;
      node.next := afterThis.next;
      if afterThis.next != null {
        afterThis.next.prev := node;
      } else {
        lastChild := node;
      }
      afterThis.next := node;
      kids := Spliced(kids, k + 1, 0, node);
      LinksRelinked(S, g, this, k + 1, 0, node, afterThis, q);
    }

    /** The pointer work of ReplaceChild. */
    method LinkInstead(replaceThis: Node, node: Node, ghost k: nat, ghost S: set<Node>)
      requires this in S && node in S && CanSplice(Snap(S), this, node) && k < |kids| && replaceThis == kids[k]
      modifies S`parent, S`firstChild, S`lastChild, S`prev, S`next, S`kids
      ensures Snap(S) == Relink(old(Snap(S)), this, k, 1, node)
    {
      hide KidsLinked, KidLinked, Relink, Spliced, Snap, CanSplice, NewLinks, Kid;
      ghost var g, p, q := Snap(S), Kid(kids, k - 1), Kid(kids, k + 1);
      SnapsAt(S);
      AroundChild(g, this, k, node);
      node.next := replaceThis.next;
      node.prev := replaceThis.prev;
      if replaceThis.next != null {
        replaceThis.next.prev := node;
      } else {
        lastChild := node;
      }
      if replaceThis.prev != null {
        replaceThis.prev.next := node;
      } else {
        firstChild := node;
      }
      node.parent := this;
      kids := Spliced(kids, k, 1, node);
      LinksRelinked(S, g, this, k, 1, node, p, q);
    }

    /** The pointer work of RemoveChild. */
    method Unlink(removeThis: Node, ghost k: nat, ghost S: set<Node>)
      requires this in S && CanSplice(Snap(S), this, null) && k < |kids| && removeThis == kids[k]
      modifies S`parent, S`firstChild, S`lastChild, S`prev, S`next, S`kids
      ensures Snap(S) == Relink(old(Snap(S)), this, k, 1, null)
    {
      hide KidsLinked, KidLinked, Relink, Spliced, Snap, CanSplice, NewLinks, Kid;
      ghost var g, p, q := Snap(S), Kid(kids, k - 1), Kid(kids, k + 1);
      SnapsAt(S);
      AroundChild(g, this, k, null);
      if removeThis.next != null {
        removeThis.next.prev := removeThis.prev;
      } else {
        lastChild := removeThis.prev;
      }
      if removeThis.prev != null {
        removeThis.prev.next := removeThis.next;
      } else {
        firstChild := removeThis.next;
      }
      kids := Spliced(kids, k, 1, null);
      LinksRelinked(S, g, this, k, 1, null, p, q);
    }
  }

  // ----- the pointers as a value -----

  /** The pointers of one node, and the child list they are meant to spell. */
  datatype Links = Links(parent: Node?, firstChild: Node?, lastChild: Node?, prev: Node?, next: Node?, kids: seq<Node>)

  type Graph = map<Node, Links>

  ghost function Snap(S: set<Node>): (g: Graph)
    reads S
    ensures g.Keys == S
  {
    map n | n in S :: Links(n.parent, n.firstChild, n.lastChild, n.prev, n.next, n.kids)
  }

  ghost function Now(n: Node): Links
    reads n
  {
    Links(n.parent, n.firstChild, n.lastChild, n.prev, n.next, n.kids)
  }

  lemma SnapAt(S: set<Node>, n: Node)
    requires n in S
    ensures Snap(S)[n] == Now(n)
  {
  }

  lemma SnapsAt(S: set<Node>)
    ensures forall n | n in S :: Snap(S)[n] == Now(n)
  {
  }

  lemma SnapUnion(S: set<Node>, F: set<Node>)
    requires S !! F
    ensures Snap(S + F) == Snap(S) + Snap(F)
  {
  }

  function Kid(kids: seq<Node>, i: int): Node? {
    if 0 <= i < |kids| then kids[i] else null
  }

  /** The pointers of the children of `n` spell out its child list, forwards and backwards. */
  ghost predicate KidsLinked(g: Graph, n: Node)
    requires n in g
  {
    var kids := g[n].kids;
    && (forall i, j | 0 <= i < j < |kids| :: kids[i] != kids[j])
    && g[n].firstChild == Kid(kids, 0) && g[n].lastChild == Kid(kids, |kids| - 1)
    && (forall i | 0 <= i < |kids| :: kids[i] in g && KidLinked(g, n, i))
  }

  ghost predicate KidLinked(g: Graph, n: Node, i: nat)
    requires n in g && i < |g[n].kids| && g[n].kids[i] in g
  {
    var kids, c := g[n].kids, g[g[n].kids[i]];
    c.parent == n && c.next == Kid(kids, i + 1) && c.prev == Kid(kids, i - 1)
  }

  /** A forest: every child list is linked, and a node with a parent in the graph, `free` apart, is one of
      that parent's children. */
  ghost predicate Forest(g: Graph, free: Node?) {
    && (forall n | n in g :: KidsLinked(g, n))
    && (forall n | n in g && n != free :: g[n].parent != null && g[n].parent in g ==> n in g[g[n].parent].kids)
  }

  /** `x` is nobody's child. */
  ghost predicate Unlinked(g: Graph, x: Node?) {
    x != null ==> forall n | n in g :: x !in g[n].kids
  }

  /** Parents are in the graph too. */
  ghost predicate Closed(g: Graph) {
    forall n | n in g :: g[n].parent == null || g[n].parent in g
  }

  lemma ChildAt(g: Graph, n: Node, j: nat)
    requires n in g && KidsLinked(g, n) && j < |g[n].kids|
    ensures g[n].kids[j] in g && KidLinked(g, n, j)
  {
  }

  lemma ChildrenDiffer(g: Graph, n: Node, i: int, j: nat)
    requires n in g && KidsLinked(g, n) && j < |g[n].kids|
    ensures Kid(g[n].kids, i) == g[n].kids[j] <==> i == j
  {
  }

  lemma ParentIs(g: Graph, p: Node, m: Node)
    requires p in g && KidsLinked(g, p) && m in g[p].kids
    ensures m in g && g[m].parent == p
  {
    var i :| 0 <= i < |g[p].kids| && g[p].kids[i] == m;
    ChildAt(g, p, i);
  }

  lemma KidsInside(g: Graph, n: Node)
    requires n in g && KidsLinked(g, n)
    ensures forall c | c in g[n].kids :: c in g
  {
  }

  lemma LastChildIs(g: Graph, self: Node, mid: Node)
    requires CanSplice(g, self, mid)
    ensures var kids, p := g[self].kids, g[self].lastChild;
            && p == Kid(kids, |kids| - 1) && Kid(kids, |kids|) == null
            && mid != self && (p != null ==> p in g && p != self && p != mid)
  {
    var kids := g[self].kids;
    if kids != [] {
      ChildAt(g, self, |kids| - 1);
      assert kids[|kids| - 1] in kids;
    }
  }

  /** A child and its two neighbours. */
  lemma AroundChild(g: Graph, self: Node, k: nat, mid: Node?)
    requires CanSplice(g, self, mid) && k < |g[self].kids|
    ensures var kids := g[self].kids;
            var p, q, n := Kid(kids, k - 1), Kid(kids, k + 1), kids[k];
            && self in g && n in g && Kid(kids, k) == n && g[n].prev == p && g[n].next == q
            && n != mid && n != self && mid != self
            && (p == null <==> k == 0) && (q == null <==> k + 1 == |kids|)
            && (p != null ==> p in g && p != n && p != mid && p != self)
            && (q != null ==> q in g && q != n && q != mid && q != self && q != p)
  {
    var kids := g[self].kids;
    ChildAt(g, self, k);
    assert kids[k] in kids;
    if k > 0 {
      ChildAt(g, self, k - 1);
      assert kids[k - 1] in kids;
    }
    if k + 1 < |kids| {
      ChildAt(g, self, k + 1);
      assert kids[k + 1] in kids;
    }
  }

  /** A child has one parent. */
  lemma OneParent(g: Graph, n: Node, m: Node, c: Node)
    requires n in g && m in g && KidsLinked(g, n) && KidsLinked(g, m)
    requires c in g[n].kids && c in g[m].kids
    ensures n == m
  {
    var i :| 0 <= i < |g[n].kids| && g[n].kids[i] == c;
    var k :| 0 <= k < |g[m].kids| && g[m].kids[k] == c;
    assert KidLinked(g, n, i) && KidLinked(g, m, k);
  }

  // ----- one splice for every child-list operation -----

  function Mid(mid: Node?): seq<Node> {
    if mid == null then [] else [mid]
  }

  /** The child list with its `m` children from `k` on replaced by `mid`, a node or nothing. */
  function Spliced(kids: seq<Node>, k: nat, m: nat, mid: Node?): seq<Node>
    requires k + m <= |kids|
  {
    kids[..k] + Mid(mid) + kids[k + m..]
  }

  /** The pointers afterwards: the two neighbours of the gap, the new node, and the parent change. */
  function NewLinks(g: Graph, self: Node, k: nat, m: nat, mid: Node?, c: Node): Links
    requires self in g && c in g && k + m <= |g[self].kids|
  {
    var kids, l := g[self].kids, g[c];
    var p, q := Kid(kids, k - 1), Kid(kids, k + m);
    if c == self then
      l.(firstChild := if p != null then l.firstChild else if mid != null then mid else q,
         lastChild := if q != null then l.lastChild else if mid != null then mid else p,
         kids := Spliced(kids, k, m, mid))
    else if c == mid then l.(parent := self, prev := p, next := q)
    else if c == p then l.(next := if mid != null then mid else q)
    else if c == q then l.(prev := if mid != null then mid else p)
    else l
  }

  ghost function Relink(g: Graph, self: Node, k: nat, m: nat, mid: Node?): (h: Graph)
    requires self in g && k + m <= |g[self].kids|
    ensures h.Keys == g.Keys
  {
    map c | c in g :: NewLinks(g, self, k, m, mid, c)
  }

  /** What the pointer work needs of the parent and of the new node. */
  ghost predicate CanSplice(g: Graph, self: Node, mid: Node?) {
    && self in g && KidsLinked(g, self) && self !in g[self].kids
    && (mid != null ==> mid in g && mid != self && mid !in g[self].kids)
  }

  /** When a splice makes sense: at most one child goes, the new node is nobody's child. */
  ghost predicate CanRelink(g: Graph, self: Node, k: nat, m: nat, mid: Node?) {
    && self in g && self !in g[self].kids && m <= 1 && k + m <= |g[self].kids|
    && (mid != null ==> mid in g && mid != self)
    && Unlinked(g, mid) && Forest(g, mid)
  }

  lemma CanRelinkAnywhere(g: Graph, x: Node, mid: Node?, k: nat, m: nat)
    requires x in g && CanRelink(g, x, |g[x].kids|, 0, mid) && m <= 1 && k + m <= |g[x].kids|
    ensures CanRelink(g, x, k, m, mid) && CanSplice(g, x, mid)
  {
  }

  /** The links of the four nodes a splice touches, and of the others. */
  lemma LinksRelinked(S: set<Node>, g: Graph, self: Node, k: nat, m: nat, mid: Node?, p: Node?, q: Node?)
    requires g.Keys == S && CanSplice(g, self, mid) && k + m <= |g[self].kids|
    requires p == Kid(g[self].kids, k - 1) && q == Kid(g[self].kids, k + m)
    requires p != null ==> p in S && Now(p) == g[p].(next := if mid != null then mid else q)
    requires q != null ==> q in S && Now(q) == g[q].(prev := if mid != null then mid else p)
    requires mid != null ==> Now(mid) == g[mid].(parent := self, prev := p, next := q)
    requires var l := g[self];
             Now(self) == l.(firstChild := if p != null then l.firstChild else if mid != null then mid else q,
                             lastChild := if q != null then l.lastChild else if mid != null then mid else p,
                             kids := Spliced(l.kids, k, m, mid))
    requires forall c | c in S && c != self && c != mid && c != p && c != q :: Now(c) == g[c]
    ensures Snap(S) == Relink(g, self, k, m, mid)
  {
    hide Relink, Spliced, Snap, Now;
    NeighboursDiffer(g, self, k, m, mid);
    forall c | c in S
      ensures Snap(S)[c] == Relink(g, self, k, m, mid)[c]
    {
      SnapAt(S, c);
      SpliceAt(g, self, k, m, mid, c);
    }
  }

  lemma NeighboursDiffer(g: Graph, self: Node, k: nat, m: nat, mid: Node?)
    requires CanSplice(g, self, mid) && k + m <= |g[self].kids|
    ensures var p, q := Kid(g[self].kids, k - 1), Kid(g[self].kids, k + m);
            && p != self && q != self && mid != self && (p != null ==> p != q && p != mid) && (q != null ==> q != mid)
  {
    var kids := g[self].kids;
    assert k > 0 ==> kids[k - 1] in kids;
    assert k + m < |kids| ==> kids[k + m] in kids;
  }

  lemma SpliceAt(g: Graph, self: Node, k: nat, m: nat, mid: Node?, c: Node)
    requires self in g && c in g && k + m <= |g[self].kids|
    ensures Relink(g, self, k, m, mid)[c] == NewLinks(g, self, k, m, mid, c)
  {
  }

  lemma SpliceFacts(g: Graph, self: Node, k: nat, m: nat, mid: Node?)
    requires CanRelink(g, self, k, m, mid)
    ensures self in g && m <= 1 && k + m <= |g[self].kids|
    ensures KidsLinked(g, self) && self !in g[self].kids
    ensures mid != null ==> mid in g && mid != self && mid !in g[self].kids
  {
  }

  lemma SplicedAt(kids: seq<Node>, k: nat, m: nat, mid: Node?, i: nat)
    requires k + m <= |kids| && i < |Spliced(kids, k, m, mid)|
    ensures var r, d := Spliced(kids, k, m, mid), |Mid(mid)|;
            && |r| == |kids| - m + d
            && r[i] == (if i < k then kids[i] else if i < k + d then mid else kids[i + m - d])
            && Kid(r, i + 1) ==
               (if i + 1 < k then Kid(kids, i + 1) else if i + 1 < k + d then mid else Kid(kids, i + 1 + m - d))
            && Kid(r, i - 1) ==
               (if i - 1 < k then Kid(kids, i - 1) else if i - 1 < k + d then mid else Kid(kids, i - 1 + m - d))
  {
  }

  lemma SplicedDistinct(kids: seq<Node>, k: nat, m: nat, mid: Node?)
    requires k + m <= |kids| && (mid != null ==> mid !in kids)
    requires forall i, j | 0 <= i < j < |kids| :: kids[i] != kids[j]
    ensures var r := Spliced(kids, k, m, mid); forall i, j | 0 <= i < j < |r| :: r[i] != r[j]
  {
    var r := Spliced(kids, k, m, mid);
    forall i, j | 0 <= i < j < |r|
      ensures r[i] != r[j]
    {
      SplicedAt(kids, k, m, mid, i);
      SplicedAt(kids, k, m, mid, j);
    }
  }

  lemma SplicedEnds(kids: seq<Node>, k: nat, m: nat, mid: Node?)
    requires k + m <= |kids|
    ensures var r, p, q := Spliced(kids, k, m, mid), Kid(kids, k - 1), Kid(kids, k + m);
            && Kid(r, 0) == (if p != null then Kid(kids, 0) else if mid != null then mid else q)
            && Kid(r, |r| - 1) == (if q != null then Kid(kids, |kids| - 1) else if mid != null then mid else p)
  {
  }

  lemma SplicedEnd(kids: seq<Node>, node: Node)
    ensures Spliced(kids, |kids|, 0, node) == kids + [node]
  {
  }

  lemma SplicedHas(kids: seq<Node>, k: nat, m: nat, mid: Node?, j: nat)
    requires k + m <= |kids|
    ensures mid != null ==> mid in Spliced(kids, k, m, mid)
    ensures j < |kids| && (j < k || k + m <= j) ==> kids[j] in Spliced(kids, k, m, mid)
  {
    var r := Spliced(kids, k, m, mid);
    if mid != null { assert r[k] == mid; }
    if j < k { assert r[j] == kids[j]; }
    if k + m <= j < |kids| { assert r[j - m + |Mid(mid)|] == kids[j]; }
  }

  lemma SelfLinks(g: Graph, self: Node, k: nat, m: nat, mid: Node?)
    requires self in g && k + m <= |g[self].kids|
    ensures var l := NewLinks(g, self, k, m, mid, self);
            && l.parent == g[self].parent && l.prev == g[self].prev && l.next == g[self].next
            && l.kids == Spliced(g[self].kids, k, m, mid)
  {
  }

  lemma MidLinks(g: Graph, self: Node, k: nat, m: nat, mid: Node?)
    requires self in g && k + m <= |g[self].kids| && mid != null && mid in g && mid != self
    ensures var l := NewLinks(g, self, k, m, mid, mid);
            l.parent == self && l.prev == Kid(g[self].kids, k - 1) && l.next == Kid(g[self].kids, k + m)
  {
    hide Spliced;
  }

  /** Appending, spelled out. */
  lemma AppendLinks(g: Graph, self: Node, node: Node, c: Node)
    requires self in g && c in g && node != self
    ensures var l, kids, last := g[c], g[self].kids, Kid(g[self].kids, |g[self].kids| - 1);
            NewLinks(g, self, |kids|, 0, node, c) ==
            if c == self then
              l.(firstChild := if last != null then l.firstChild else node, lastChild := node, kids := kids + [node])
            else if c == node then l.(parent := self, prev := last, next := null)
            else if c == last then l.(next := node)
            else l
  {
    SplicedEnd(g[self].kids, node);
    hide Spliced;
  }

  /** The new links of a child that stays, by its old position. */
  lemma StayingChild(g: Graph, self: Node, k: nat, m: nat, mid: Node?, j: nat)
    requires CanRelink(g, self, k, m, mid) && j < |g[self].kids| && (j < k || k + m <= j)
    ensures var kids := g[self].kids;
            && kids[j] in g && kids[j] != self && kids[j] != mid
            && var l := NewLinks(g, self, k, m, mid, kids[j]);
            && l.parent == self
            && l.next == (if j == k - 1 then (if mid != null then mid else Kid(kids, k + m)) else Kid(kids, j + 1))
            && l.prev == (if j == k + m then (if mid != null then mid else Kid(kids, k - 1)) else Kid(kids, j - 1))
  {
    hide CanRelink, Spliced, KidsLinked;
    SpliceFacts(g, self, k, m, mid);
    ChildAt(g, self, j);
    ChildrenDiffer(g, self, k - 1, j);
    ChildrenDiffer(g, self, k + m, j);
    assert g[self].kids[j] in g[self].kids;
  }

  /** The links of a node that is neither the parent, nor a child, nor the new node. */
  lemma SpliceElsewhere(g: Graph, self: Node, k: nat, m: nat, mid: Node?, c: Node)
    requires self in g && k + m <= |g[self].kids| && c in g && c != self
    ensures var l := NewLinks(g, self, k, m, mid, c);
            && l.kids == g[c].kids && l.firstChild == g[c].firstChild && l.lastChild == g[c].lastChild
            && (c != mid && c !in g[self].kids ==> l == g[c])
            && (c != mid ==> l.parent == g[c].parent)
  {
    hide Spliced;
  }

  lemma OtherFacts(g: Graph, self: Node, k: nat, m: nat, mid: Node?, n: Node)
    requires CanRelink(g, self, k, m, mid) && n in g
    ensures KidsLinked(g, n)
    ensures mid != null ==> mid !in g[n].kids
    ensures n != mid && g[n].parent != null && g[n].parent in g ==> n in g[g[n].parent].kids
  {
  }

  lemma AllLinked(g: Graph, x: Node, k: nat, m: nat, mid: Node?)
    requires CanRelink(g, x, k, m, mid)
    ensures forall n | n in g :: KidsLinked(g, n)
  {
  }

  // ----- a splice keeps the forest -----

  /** Every child of the new list is linked to its new neighbours. */
  lemma SpliceKidLinked(g: Graph, self: Node, k: nat, m: nat, mid: Node?, i: nat)
    requires CanRelink(g, self, k, m, mid) && i < |Spliced(g[self].kids, k, m, mid)|
    ensures var h := Relink(g, self, k, m, mid);
            && h[self].kids == Spliced(g[self].kids, k, m, mid)
            && h[self].kids[i] in h && KidLinked(h, self, i)
  {
    hide CanRelink, Spliced, Relink, KidsLinked, Forest, Unlinked, NewLinks;
    SpliceFacts(g, self, k, m, mid);
    var kids := g[self].kids;
    SelfLinks(g, self, k, m, mid);
    SplicedAt(kids, k, m, mid, i);
    SpliceAt(g, self, k, m, mid, self);
    var c := Spliced(kids, k, m, mid)[i];
    if k <= i < k + |Mid(mid)| {
      assert c == mid;
      SpliceAt(g, self, k, m, mid, c);
      MidLinks(g, self, k, m, mid);
    } else {
      var j := if i < k then i else i + m - |Mid(mid)|;
      StayingChild(g, self, k, m, mid, j);
      SpliceAt(g, self, k, m, mid, c);
    }
  }

  lemma SpliceKids(g: Graph, self: Node, k: nat, m: nat, mid: Node?)
    requires CanRelink(g, self, k, m, mid)
    ensures KidsLinked(Relink(g, self, k, m, mid), self)
  {
    hide CanRelink, Spliced, Relink, KidLinked;
    SpliceFacts(g, self, k, m, mid);
    var kids, h := g[self].kids, Relink(g, self, k, m, mid);
    SplicedDistinct(kids, k, m, mid);
    var r := Spliced(kids, k, m, mid);
    SpliceAt(g, self, k, m, mid, self);
    forall i | 0 <= i < |r|
      ensures r[i] in h && KidLinked(h, self, i)
    {
      SpliceKidLinked(g, self, k, m, mid, i);
    }
    SplicedEnds(kids, k, m, mid);
  }

  ghost predicate SameSiblings(g: Graph, h: Graph, c: Node)
    requires c in g && c in h
  {
    h[c].parent == g[c].parent && h[c].prev == g[c].prev && h[c].next == g[c].next
  }

  /** A list whose ends and whose children's links did not change is still linked. */
  lemma ListKept(g: Graph, h: Graph, n: Node)
    requires n in g && n in h && KidsLinked(g, n)
    requires h[n].kids == g[n].kids && h[n].firstChild == g[n].firstChild && h[n].lastChild == g[n].lastChild
    requires forall i | 0 <= i < |g[n].kids| ::
               g[n].kids[i] in g && g[n].kids[i] in h && SameSiblings(g, h, g[n].kids[i])
    ensures KidsLinked(h, n)
  {
    forall i | 0 <= i < |h[n].kids|
      ensures h[n].kids[i] in h && KidLinked(h, n, i)
    {
      assert KidLinked(g, n, i);
    }
  }

  /** Another node's list is untouched. */
  lemma SpliceOthers(g: Graph, self: Node, k: nat, m: nat, mid: Node?, n: Node)
    requires CanRelink(g, self, k, m, mid) && n in g && n != self
    ensures KidsLinked(Relink(g, self, k, m, mid), n)
    ensures Relink(g, self, k, m, mid)[n].kids == g[n].kids
  {
    hide CanRelink, Relink, NewLinks, Forest, Unlinked, KidsLinked, KidLinked;
    SpliceFacts(g, self, k, m, mid);
    OtherFacts(g, self, k, m, mid, n);
    var h := Relink(g, self, k, m, mid);
    SpliceAt(g, self, k, m, mid, n);
    SpliceElsewhere(g, self, k, m, mid, n);
    forall i | 0 <= i < |g[n].kids|
      ensures g[n].kids[i] in h && SameSiblings(g, h, g[n].kids[i])
    {
      ChildAt(g, n, i);
      var c := g[n].kids[i];
      assert c in g[n].kids;
      if c in g[self].kids { OneParent(g, n, self, c); }
      SpliceAt(g, self, k, m, mid, c);
      if c != self {
        SpliceElsewhere(g, self, k, m, mid, c);
      } else {
        SelfLinks(g, self, k, m, mid);
      }
    }
    ListKept(g, h, n);
  }

  /** Every node still belongs to its parent, the child taken out apart. */
  lemma SpliceOwner(g: Graph, self: Node, k: nat, m: nat, mid: Node?, n: Node)
    requires CanRelink(g, self, k, m, mid)
    requires var h := Relink(g, self, k, m, mid);
             n in h && h[n].parent != null && h[n].parent in h && (m == 1 ==> n != g[self].kids[k])
    ensures var h := Relink(g, self, k, m, mid); n in h[h[n].parent].kids
  {
    hide Relink, Spliced, KidsLinked, NewLinks, CanRelink, Forest, Unlinked;
    SpliceFacts(g, self, k, m, mid);
    var h, kids := Relink(g, self, k, m, mid), g[self].kids;
    OtherFacts(g, self, k, m, mid, n);
    SpliceAt(g, self, k, m, mid, n);
    SpliceAt(g, self, k, m, mid, self);
    SelfLinks(g, self, k, m, mid);
    if n == mid {
      MidLinks(g, self, k, m, mid);
      SplicedHas(kids, k, m, mid, k);
    } else {
      var o := g[n].parent;
      if n != self { SpliceElsewhere(g, self, k, m, mid, n); }
      assert h[n].parent == o && n in g[o].kids;
      if o == self {
        var j :| 0 <= j < |kids| && kids[j] == n;
        SplicedHas(kids, k, m, mid, j);
      } else {
        SpliceOthers(g, self, k, m, mid, o);
      }
    }
  }

  /** Append, insert, update and delete on one child list keep the forest. */
  lemma SpliceKeepsForest(g: Graph, self: Node, k: nat, m: nat, mid: Node?)
    requires CanRelink(g, self, k, m, mid)
    ensures var h := Relink(g, self, k, m, mid);
            && h[self].kids == Spliced(g[self].kids, k, m, mid)
            && (forall n | n in g && n != self :: h[n].kids == g[n].kids)
            && Forest(h, if m == 1 then g[self].kids[k] else null)
  {
    hide CanRelink, KidsLinked, Relink, Spliced, NewLinks;
    SpliceFacts(g, self, k, m, mid);
    var h := Relink(g, self, k, m, mid);
    SpliceKids(g, self, k, m, mid);
    SpliceAt(g, self, k, m, mid, self);
    SelfLinks(g, self, k, m, mid);
    var free := if m == 1 then g[self].kids[k] else null;
    forall n | n in g && n != self
      ensures KidsLinked(h, n) && h[n].kids == g[n].kids
    {
      SpliceOthers(g, self, k, m, mid, n);
    }
    forall n | n in h && n != free
      ensures h[n].parent != null && h[n].parent in h ==> n in h[h[n].parent].kids
    {
      if h[n].parent != null && h[n].parent in h {
        SpliceOwner(g, self, k, m, mid, n);
      }
    }
  }

  /** What linking behind the last child needs and keeps. */
  lemma EndFacts(g: Graph, self: Node, node: Node)
    requires self in g && CanRelink(g, self, |g[self].kids|, 0, node)
    ensures CanSplice(g, self, node) && Forest(Relink(g, self, |g[self].kids|, 0, node), null)
  {
    hide KidsLinked, Relink, NewLinks, Spliced;
    SpliceKeepsForest(g, self, |g[self].kids|, 0, node);
  }

  /** Parents and lists after a splice, for all nodes at once. */
  lemma LinksAfter(g: Graph, x: Node, k: nat, m: nat, mid: Node?)
    requires CanRelink(g, x, k, m, mid)
    ensures forall n | n in g :: Relink(g, x, k, m, mid)[n].parent == if n == mid then x else g[n].parent
    ensures forall n | n in g ::
              Relink(g, x, k, m, mid)[n].kids == if n == x then Spliced(g[x].kids, k, m, mid) else g[n].kids
  {
    hide Spliced, Forest, KidsLinked, Unlinked, Relink;
    forall n | n in g
      ensures Relink(g, x, k, m, mid)[n].parent == if n == mid then x else g[n].parent
      ensures Relink(g, x, k, m, mid)[n].kids == if n == x then Spliced(g[x].kids, k, m, mid) else g[n].kids
    {
      SpliceAt(g, x, k, m, mid, n);
    }
  }

  lemma SpliceClosed(g: Graph, x: Node, k: nat, m: nat, mid: Node?)
    requires CanRelink(g, x, k, m, mid) && Closed(g)
    ensures Closed(Relink(g, x, k, m, mid))
  {
    hide CanRelink, Relink;
    SpliceFacts(g, x, k, m, mid);
    LinksAfter(g, x, k, m, mid);
  }

  lemma FreeNowhere(g: Graph, x: Node, k: nat, mid: Node?, n: Node)
    requires CanRelink(g, x, k, 1, mid) && n in g
    ensures g[x].kids[k] !in (if n == x then Spliced(g[x].kids, k, 1, mid) else g[n].kids)
  {
    var free, kids := g[x].kids[k], g[x].kids;
    assert KidsLinked(g, x) && KidsLinked(g, n);
    assert free in kids;
    if n == x {
      var r := Spliced(kids, k, 1, mid);
      forall j | 0 <= j < |r|
        ensures r[j] != free
      {
        SplicedAt(kids, k, 1, mid, j);
      }
    } else if free in g[n].kids {
      ParentIs(g, n, free);
      ParentIs(g, x, free);
      assert false;
    }
  }

  // ----- forests side by side, and parts cut off -----

  lemma InUnion(g: Graph, f: Graph, part: Graph, n: Node)
    requires g.Keys !! f.Keys && (part == g || part == f) && n in part && KidsLinked(part, n)
    ensures KidsLinked(g + f, n)
  {
    var h := g + f;
    assert h[n] == part[n];
    forall i | 0 <= i < |part[n].kids|
      ensures part[n].kids[i] in h && KidLinked(h, n, i)
    {
      hide KidsLinked;
      ChildAt(part, n, i);
      assert h[part[n].kids[i]] == part[part[n].kids[i]];
    }
  }

  lemma UnionForest(g: Graph, f: Graph)
    requires Forest(g, null) && Forest(f, null) && g.Keys !! f.Keys && Closed(g) && Closed(f)
    ensures Forest(g + f, null) && Closed(g + f)
  {
    hide KidsLinked;
    forall n | n in g + f
      ensures KidsLinked(g + f, n)
    {
      if n in g { InUnion(g, f, g, n); } else { InUnion(g, f, f, n); }
    }
  }

  /** Two separate forests side by side, ready to hang the root of the second under that of the first. */
  lemma SideBySide(g: Graph, f: Graph, x: Node, child: Node)
    requires Forest(g, null) && Forest(f, null) && g.Keys !! f.Keys && Closed(g) && Closed(f)
    requires x in g && x !in g[x].kids && child in f && Unlinked(f, child) && f[child].parent == null
    ensures CanRelink(g + f, x, |g[x].kids|, 0, child)
    ensures Unlinked(g, x) ==> Unlinked(g + f, x)
  {
    hide KidsLinked;
    var h := g + f;
    forall n | n in h
      ensures KidsLinked(h, n) && child !in h[n].kids && (Unlinked(g, x) ==> x !in h[n].kids)
    {
      if n in g {
        InUnion(g, f, g, n);
        KidsInside(g, n);
      } else {
        InUnion(g, f, f, n);
        KidsInside(f, n);
      }
    }
  }

  /** The part of a forest that goes when the child `x`, no longer anybody's, is deleted with all below it. */
  ghost predicate CutOff(g: Graph, Z: set<Node>, x: Node?) {
    && Unlinked(g, x) && (x == null ==> Z == {}) && (x != null ==> x in Z) && Z <= g.Keys
    && (forall p, m | p in Z && m in g[p].kids :: m in Z)
    && (forall m | m in Z && m != x :: g[m].parent in Z)
  }

  lemma ForestOutside(g: Graph, Z: set<Node>, x: Node?)
    requires Forest(g, x) && Closed(g) && CutOff(g, Z, x)
    ensures Forest(g - Z, null) && Closed(g - Z)
  {
    hide KidsLinked;
    var h := g - Z;
    forall n | n in h
      ensures KidsLinked(h, n)
    {
      OutsideLinked(g, Z, x, n);
    }
  }

  lemma OutsideLinked(g: Graph, Z: set<Node>, x: Node?, n: Node)
    requires n in g && n !in Z && KidsLinked(g, n) && CutOff(g, Z, x)
    ensures KidsLinked(g - Z, n)
  {
    var h := g - Z;
    assert h[n] == g[n];
    forall i | 0 <= i < |h[n].kids|
      ensures h[n].kids[i] in h && KidLinked(h, n, i)
    {
      hide KidsLinked;
      ChildAt(g, n, i);
      assert g[n].kids[i] in g[n].kids;
    }
  }

  // ----- walking -----

  /** The node `i` steps of `next` after the first child. */
  ghost function Forward(g: Graph, n: Node, i: nat): Node?
    requires n in g
  {
    if i == 0 then g[n].firstChild
    else
      var c := Forward(g, n, i - 1);
      if c == null || c !in g then null else g[c].next
  }

  /** The node `i` steps of `prev` before the last child. */
  ghost function Backward(g: Graph, n: Node, i: nat): Node?
    requires n in g
  {
    if i == 0 then g[n].lastChild
    else
      var c := Backward(g, n, i - 1);
      if c == null || c !in g then null else g[c].prev
  }

  /** The two walks visit the child list in opposite orders, and both end after its length. */
  lemma WalksMirror(g: Graph, n: Node, i: nat)
    requires n in g && Forest(g, null) && i <= |g[n].kids|
    ensures Forward(g, n, i) == Kid(g[n].kids, i) && Backward(g, n, i) == Kid(g[n].kids, |g[n].kids| - 1 - i)
    ensures i < |g[n].kids| ==> Backward(g, n, |g[n].kids| - 1 - i) == Forward(g, n, i)
  {
    hide Forest;
    WalkForward(g, n, i);
    WalkBackward(g, n, i);
    if i < |g[n].kids| {
      WalkBackward(g, n, |g[n].kids| - 1 - i);
    }
  }

  lemma ListLinked(g: Graph, n: Node)
    requires n in g && Forest(g, null)
    ensures KidsLinked(g, n)
    ensures g[n].firstChild == Kid(g[n].kids, 0) && g[n].lastChild == Kid(g[n].kids, |g[n].kids| - 1)
  {
  }

  lemma {:induction false} WalkForward(g: Graph, n: Node, i: nat)
    requires n in g && Forest(g, null) && i <= |g[n].kids|
    ensures Forward(g, n, i) == Kid(g[n].kids, i)
  {
    hide Forest, KidsLinked;
    ListLinked(g, n);
    if i > 0 {
      WalkForward(g, n, i - 1);
      ChildAt(g, n, i - 1);
    }
  }

  lemma {:induction false} WalkBackward(g: Graph, n: Node, i: nat)
    requires n in g && Forest(g, null) && i <= |g[n].kids|
    ensures Backward(g, n, i) == Kid(g[n].kids, |g[n].kids| - 1 - i)
  {
    hide Forest, KidsLinked;
    ListLinked(g, n);
    if i > 0 {
      WalkBackward(g, n, i - 1);
      var kids, j := g[n].kids, |g[n].kids| - i;
      ChildAt(g, n, j);
      assert Backward(g, n, i - 1) == kids[j] && g[kids[j]].prev == Kid(kids, j - 1);
    }
  }
}
