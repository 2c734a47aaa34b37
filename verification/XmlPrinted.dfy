/** What a printed document means: an XML reader gives back the tree, with exactly the white space of the layout
    between the nodes. */
module XmlPrinted {
  import opened Bytes
  import opened XmlAttributes
  import opened XmlNodes
  import opened XmlTree
  import opened XmlReader
  import opened XmlPrinter
  import XmlText

  // ----- which trees -----

  /** The trees that XML can express: names are names, values and texts hold no reference of their own, and
      comments, CDATA sections and declarations do not end early. */
  predicate Readable(t: Tree)
    decreases t, 1
  {
    match t.kind
    case Document => false
    case Element =>
      && IsName(t.value) && ReadableAll(t.kids)
      && forall i | 0 <= i < |t.attrs| :: IsName(t.attrs[i].name) && !XmlText.HasRef(t.attrs[i].value, 0)
    case Comment => IsLeaf(t) && 0 !in t.value && Before(t.value, Ascii("--"))
    case Unknown =>
      && IsLeaf(t) && 0 !in t.value && Before(t.value, Ascii(">"))
      && Ascii("!") <= t.value && !(Ascii("!--") <= t.value) && !(Ascii("![CDATA[") <= t.value)
    case Text(cdata) =>
      IsLeaf(t) && if cdata then 0 !in t.value && Before(t.value, Ascii("]]>")) else !XmlText.HasRef(t.value, 0)
    case Declaration(version, encoding, standalone) =>
      && IsLeaf(t) && t.value == []
      && Before(version, Ascii("\"")) && Before(encoding, Ascii("\"")) && Before(standalone, Ascii("\""))
  }

  predicate ReadableAll(ts: seq<Tree>)
    decreases ts, 0
  {
    forall i | 0 <= i < |ts| :: Readable(ts[i])
  }

  predicate IsLeaf(t: Tree) {
    t.attrs == [] && t.kids == []
  }

  /** In `v` followed by `mark`, the mark stands for the first time behind `v`. */
  predicate Before(v: seq<byte>, mark: seq<byte>) {
    forall i | 0 <= i < |v| :: !(mark <= (v + mark)[i..])
  }

  predicate IsWhite(s: seq<byte>) {
    forall i | 0 <= i < |s| :: White(s[i])
  }

  predicate WhiteFormat(f: Format) {
    IsWhite(f.indent) && IsWhite(f.lineBreak)
  }

  // ----- the white space of the layout -----

  function Repeat(s: seq<byte>, n: int): seq<byte> {
    if n <= 0 then [] else s + Repeat(s, n - 1)
  }

  function CharData(v: seq<byte>): seq<Tree> {
    if v == [] then [] else [Leaf(Text(false), v)]
  }

  /** Pieces of content, and the character data that is not yet closed behind them. */
  datatype Run = Run(done: seq<Tree>, open: seq<byte>)

  predicate IsText(t: Tree) {
    t.kind == Text(false)
  }

  /** Each node stands on a line of its own, indented by its depth; a text runs together with the white space
      around it. */
  function Laid(f: Format, ts: seq<Tree>, depth: int, lead: seq<byte>): Run
    decreases ts, 0
  {
    if ts == [] then Run([], lead)
    else
      var r, t := Laid(f, ts[..|ts| - 1], depth, lead), ts[|ts| - 1];
      var open := r.open + Repeat(f.indent, depth);
      if IsText(t) then Run(r.done, open + t.value + f.lineBreak)
      else Run(r.done + CharData(open) + [Spaced(f, t, depth)], f.lineBreak)
  }

  /** A tree with the white space that its printed form has inside: none for an element with one text, otherwise a
      line break and one indentation more than its own in front of each child, and its own in front of the end. */
  function Spaced(f: Format, t: Tree, depth: int): Tree
    decreases t, 1
  {
    if !t.kind.Element? || t.kids == [] then t
    else if |t.kids| == 1 && IsText(t.kids[0]) then t.(kids := CharData(t.kids[0].value))
    else
      var r := Laid(f, t.kids, depth + 1, f.lineBreak);
      t.(kids := r.done + CharData(r.open + Repeat(f.indent, depth)))
  }

  lemma {:induction false} IndentRepeats(f: Format, depth: int)
    ensures Indent(f, depth) == Repeat(f.indent, depth)
    decreases depth
  {
    if depth > 0 {
      IndentRepeats(f, depth - 1);
      RepeatEnd(f.indent, depth);
    }
  }

  lemma {:induction false} RepeatEnd(s: seq<byte>, n: int)
    requires n > 0
    ensures Repeat(s, n) == Repeat(s, n - 1) + s
    decreases n
  {
    if n > 1 {
      RepeatEnd(s, n - 1);
      assert s + (Repeat(s, n - 2) + s) == s + Repeat(s, n - 2) + s;
    }
  }

  lemma {:induction false} RepeatWhite(s: seq<byte>, n: int)
    requires IsWhite(s)
    ensures IsWhite(Repeat(s, n))
    decreases n
  {
    if n > 0 { RepeatWhite(s, n - 1); }
  }

  // ----- reading on -----

  /** What is read when `ts` comes first. */
  function Then(ts: seq<Tree>, r: Read<seq<Tree>>): Read<seq<Tree>> {
    match r
    case Failed => Failed
    case Got(more, rest) => Got(ts + more, rest)
  }

  lemma ThenThen(a: seq<Tree>, b: seq<Tree>, r: Read<seq<Tree>>)
    ensures Then(a, Then(b, r)) == Then(a + b, r) && Then([], r) == r
  {
    if r.Got? {
      assert a + (b + r.value) == a + b + r.value;
      assert [] + r.value == r.value;
    }
  }

  /** Raw character data: no '<', and it expands to `v` whatever follows. */
  ghost predicate ReadsAs(raw: seq<byte>, v: seq<byte>) {
    && 60 !in raw && (raw == [] <==> v == [])
    && forall rest :: Expands(raw, v, rest)
  }

  ghost predicate Expands(raw: seq<byte>, v: seq<byte>, rest: seq<byte>) {
    XmlText.ReadAll(raw + rest) == Prefixed(v, XmlText.ReadAll(rest))
  }

  function Prefixed(v: seq<byte>, r: Option<seq<byte>>): Option<seq<byte>> {
    match r
    case None => None
    case Some(more) => Some(v + more)
  }

  lemma ReadsTogether(a: seq<byte>, v: seq<byte>, b: seq<byte>, w: seq<byte>)
    requires ReadsAs(a, v) && ReadsAs(b, w)
    ensures ReadsAs(a + b, v + w)
  {
    hide Expands;
    forall rest
      ensures Expands(a + b, v + w, rest)
    {
      assert Expands(a, v, b + rest) && Expands(b, w, rest);
      ExpandsTogether(a, v, b, w, rest);
    }
  }

  lemma ExpandsTogether(a: seq<byte>, v: seq<byte>, b: seq<byte>, w: seq<byte>, rest: seq<byte>)
    requires Expands(a, v, b + rest) && Expands(b, w, rest)
    ensures Expands(a + b, v + w, rest)
  {
    hide XmlText.ReadAll;
    assert a + b + rest == a + (b + rest);
    var r := XmlText.ReadAll(rest);
    if r.Some? { assert v + (w + r.value) == v + w + r.value; }
  }

  lemma ReadsNothing()
    ensures ReadsAs([], [])
  {
    forall rest
      ensures Expands([], [], rest)
    {
      assert [] + rest == rest;
      hide XmlText.ReadAll;
      var r := XmlText.ReadAll(rest);
      if r.Some? { assert [] + r.value == r.value; }
    }
  }

  lemma ReadsOne(raw: seq<byte>, v: seq<byte>)
    requires ReadsAs(raw, v)
    ensures XmlText.ReadAll(raw) == Some(v)
  {
    assert Expands(raw, v, []);
    assert raw + [] == raw && v + [] == v;
  }

  /** A character that stands for itself. */
  lemma ReadsPlain(b: byte)
    requires b != 0 && b != 38 && b != 60
    ensures ReadsAs([b], [b])
  {
    forall rest
      ensures Expands([b], [b], rest)
    {
      var p := [b] + rest;
      assert p[0] == b && p[1..] == rest;
      assert XmlText.NextChar(p) == XmlText.Char([b], 1);
      hide XmlText.NextChar;
    }
  }

  lemma {:induction false} ReadsWhite(s: seq<byte>)
    requires IsWhite(s)
    ensures ReadsAs(s, s)
    decreases |s|
  {
    hide ReadsAs;
    if s == [] {
      ReadsNothing();
    } else {
      assert White(s[0]);
      ReadsPlain(s[0]);
      ReadsWhite(s[1..]);
      ReadsTogether([s[0]], [s[0]], s[1..], s[1..]);
      assert s == [s[0]] + s[1..];
    }
  }

  lemma ReadsEscape(c: byte)
    ensures ReadsAs(XmlText.Escape(c), [c])
  {
    XmlText.EscapeClean(c);
    forall rest
      ensures Expands(XmlText.Escape(c), [c], rest)
    {
      var e := XmlText.Escape(c);
      XmlText.ReadEscape(c, rest);
      var p := e + rest;
      hide XmlText.Escape, XmlText.NextChar;
      assert p[|e|..] == rest;
    }
    hide XmlText.Escape;
  }

  lemma {:induction false} ReadsEncoded(s: seq<byte>, i: nat)
    requires i <= |s| && !XmlText.HasRef(s, i)
    ensures ReadsAs(XmlText.EncodedFrom(s, i), s[i..])
    decreases |s| - i
  {
    hide ReadsAs, XmlText.Escape, XmlText.EncodedFrom;
    if i == |s| {
      XmlText.EncodedEnd(s);
      ReadsNothing();
    } else {
      XmlText.EncodedAt(s, i);
      assert !XmlText.RefAt(s, i);
      ReadsEscape(s[i]);
      ReadsEncoded(s, i + 1);
      ReadsTogether(XmlText.Escape(s[i]), [s[i]], XmlText.EncodedFrom(s, i + 1), s[i + 1..]);
      assert s[i..] == [s[i]] + s[i + 1..];
    }
  }

  lemma {:induction false} TextLengthIs(raw: seq<byte>, q: seq<byte>)
    requires 60 !in raw && (q == [] || q[0] == 60)
    ensures TextLength(raw + q) == |raw|
  {
    if raw == [] {
      assert raw + q == q;
    } else {
      assert (raw + q)[1..] == raw[1..] + q;
      TextLengthIs(raw[1..], q);
    }
  }

  /** Character data in front of markup, or of the end, is one piece. */
  lemma ReadCharData(raw: seq<byte>, v: seq<byte>, q: seq<byte>)
    requires ReadsAs(raw, v) && (q == [] || q[0] == 60)
    ensures ReadContent(raw + q) == Then(CharData(v), ReadContent(q))
  {
    if raw == [] {
      assert raw + q == q;
      ThenThen([], [], ReadContent(q));
    } else {
      TextLengthIs(raw, q);
      ReadsOne(raw, v);
      var p := raw + q;
      assert p[0] == raw[0] && p[0] != 60;
      assert p[..|raw|] == raw && p[|raw|..] == q;
      NotMarkup(p);
      hide XmlText.ReadAll, Ascii, ReadsAs;
      assert ReadPiece(p) == Got(Leaf(Text(false), v), q);
    }
  }

  lemma NotMarkup(p: seq<byte>)
    requires p != [] && p[0] != 60
    ensures !(Ascii("</") <= p) && p[0] as char != '<'
  {
    assert Ascii("</")[0] == 60;
  }

  // ----- names, values, and what ends them -----

  lemma {:induction false} UntilMark(v: seq<byte>, mark: seq<byte>, rest: seq<byte>)
    requires mark != [] && Before(v, mark)
    ensures Until(v + mark + rest, mark) == Got(v, rest)
  {
    var p := v + mark + rest;
    if v == [] {
      assert p == mark + rest;
      assert p[|mark|..] == rest;
    } else {
      var w := v[1..];
      assert (v + mark)[0..] == v + mark;
      NotHere(v + mark, mark, rest);
      forall i | 0 <= i < |w|
        ensures !(mark <= (w + mark)[i..])
      {
        assert (w + mark)[i..] == (v + mark)[i + 1..];
      }
      UntilMark(w, mark, rest);
      assert p[1..] == w + mark + rest;
      assert [p[0]] + w == v;
    }
  }

  lemma NotHere(a: seq<byte>, mark: seq<byte>, rest: seq<byte>)
    requires |mark| <= |a| && !(mark <= a)
    ensures !(mark <= a + rest)
  {
    assert (a + rest)[..|mark|] == a[..|mark|];
  }

  lemma {:induction false} NameLengthIs(n: seq<byte>, q: seq<byte>)
    requires (forall i | 0 <= i < |n| :: NameChar(n[i])) && (q == [] || !NameChar(q[0]))
    ensures NameLength(n + q) == |n|
  {
    if n == [] {
      assert n + q == q;
    } else {
      assert (n + q)[1..] == n[1..] + q;
      NameLengthIs(n[1..], q);
    }
  }

  lemma ReadNameIs(n: seq<byte>, q: seq<byte>)
    requires IsName(n) && (q == [] || !NameChar(q[0]))
    ensures ReadName(n + q) == Got(n, q)
  {
    NameLengthIs(n, q);
    assert (n + q)[..|n|] == n && (n + q)[|n|..] == q;
  }

  lemma {:induction false} NameEncoded(n: seq<byte>, i: nat)
    requires i <= |n| && forall k | 0 <= k < |n| :: NameChar(n[k])
    ensures XmlText.EncodedFrom(n, i) == n[i..]
    decreases |n| - i
  {
    hide XmlText.EncodedFrom, XmlText.Escape;
    if i == |n| {
      XmlText.EncodedEnd(n);
    } else {
      XmlText.EncodedAt(n, i);
      XmlText.PlainEscape(n[i]);
      assert !XmlText.RefAt(n, i);
      NameEncoded(n, i + 1);
      assert n[i..] == [n[i]] + n[i + 1..];
    }
  }

  lemma NameFacts(n: seq<byte>)
    requires IsName(n)
    ensures XmlText.Encoded(n) == n && CStr(n) == n
  {
    NameEncoded(n, 0);
    assert n[0..] == n;
    assert 0 !in n;
    CStrIdentity(n);
  }

  lemma EncodedClean(v: seq<byte>)
    requires !XmlText.HasRef(v, 0)
    ensures 34 !in XmlText.Encoded(v) && 39 !in XmlText.Encoded(v) && 60 !in XmlText.Encoded(v)
  {
    hide XmlText.HasRef, XmlText.EncodedFrom;
    XmlText.NothingRaw(v, 0);
  }

  lemma NotInside(e: seq<byte>, q: byte)
    requires q !in e
    ensures Before(e, [q])
  {
    forall i | 0 <= i < |e|
      ensures !([q] <= (e + [q])[i..])
    {
      assert (e + [q])[i..][0] == e[i] && e[i] in e;
    }
  }

  /** A value between quotes that it does not contain. */
  lemma ReadValueIs(v: seq<byte>, q: byte, rest: seq<byte>)
    requires !XmlText.HasRef(v, 0) && (q == 34 || q == 39)
    ensures ReadValue([q] + XmlText.Encoded(v) + [q] + rest) == Got(v, rest)
  {
    hide XmlText.ReadAll, XmlText.Encoded, XmlText.HasRef, Before, Until;
    var e := XmlText.Encoded(v);
    EncodedClean(v);
    XmlText.InvertibleExactly(v);
    NotInside(e, q);
    UntilMark(e, [q], rest);
    var p := [q] + e + [q] + rest;
    assert p[0] == q && p[1..] == e + [q] + rest;
    assert Ascii("<")[0] == 60;
  }

  predicate ReadableAttribute(a: Pair) {
    IsName(a.name) && !XmlText.HasRef(a.value, 0)
  }

  lemma NotWhite(p: seq<byte>)
    requires p != [] && !White(p[0])
    ensures SkipWhite(p) == p && SkipWhite([32] + p) == p
  {
    assert ([32] + p)[1..] == p;
  }

  lemma ReadAttributeIs(a: Pair, rest: seq<byte>)
    requires ReadableAttribute(a)
    ensures ReadAttribute(AttributeText(a) + rest) == Got(a, rest)
  {
    hide XmlText.Encoded, ReadValue, XmlText.HasRef, AttributeText, ReadName, SkipWhite, IsName;
    var q: byte := if 34 in a.value then 39 else 34;
    var e := XmlText.Encoded(a.value);
    AttributeTextIs(a);
    var value := [q] + e + [q] + rest;
    var eq := [61] + value;
    assert AttributeText(a) + rest == a.name + eq;
    ReadNameIs(a.name, eq);
    ReadValueIs(a.value, q, rest);
    NotWhite(eq);
    assert eq[1..] == value;
    NotWhite(value);
  }

  lemma AttributeTextIs(a: Pair)
    requires IsName(a.name)
    ensures var q: byte := if 34 in a.value then 39 else 34;
            AttributeText(a) == a.name + [61, q] + XmlText.Encoded(a.value) + [q]
  {
    NameFacts(a.name);
    hide XmlText.Encoded, CStr, IsName;
  }

  function ThenPairs(a: seq<Pair>, r: Read<seq<Pair>>): Read<seq<Pair>> {
    match r
    case Failed => Failed
    case Got(more, rest) => Got(a + more, rest)
  }

  lemma ReadOneAttribute(a: Pair, rest: seq<byte>)
    requires ReadableAttribute(a)
    ensures ReadAttributes([32] + AttributeText(a) + rest) == ThenPairs([a], ReadAttributes(rest))
  {
    var q := AttributeText(a) + rest;
    var p := [32] + AttributeText(a) + rest;
    assert p == [32] + q;
    NameFacts(a.name);
    assert AttributeText(a)[0] == a.name[0] by { hide CStr; }
    assert q[0] == a.name[0] && NameStart(q[0]);
    NotWhite(q);
    ReadAttributeIs(a, rest);
    assert q != p by { assert |p| == |q| + 1; }
    hide AttributeText, ReadAttribute, SkipWhite;
  }

  lemma {:induction false} ReadAttributesIs(pairs: seq<Pair>, rest: seq<byte>)
    requires forall i | 0 <= i < |pairs| :: ReadableAttribute(pairs[i])
    ensures ReadAttributes(AttributesText(pairs) + rest) == ThenPairs(pairs, ReadAttributes(rest))
    decreases |pairs|
  {
    hide AttributeText, ReadAttributes, ReadableAttribute;
    if pairs == [] {
      assert [] + rest == rest;
      var r := ReadAttributes(rest);
      if r.Got? { assert [] + r.value == r.value; }
    } else {
      var init, last := pairs[..|pairs| - 1], pairs[|pairs| - 1];
      var one := [32] + AttributeText(last);
      assert ReadableAttribute(pairs[|pairs| - 1]);
      assert AttributesText(pairs) + rest == AttributesText(init) + (one + rest);
      ReadAttributesIs(init, one + rest);
      ReadOneAttribute(last, rest);
      var r := ReadAttributes(rest);
      if r.Got? { assert init + ([last] + r.value) == pairs + r.value; }
    }
  }

  /** What ends a tag. */
  lemma TagEnds(rest: seq<byte>)
    ensures ReadAttributes([62] + rest) == Got([], [62] + rest)
    ensures ReadAttributes([32, 47, 62] + rest) == Got([], [47, 62] + rest)
  {
    NotWhite([62] + rest);
    NotWhite([47, 62] + rest);
    assert [32, 47, 62] + rest == [32] + ([47, 62] + rest);
    hide SkipWhite;
  }

  function EndTag(name: seq<byte>): seq<byte> {
    [60, 47] + name + [62]
  }

  lemma EndTagIs(name: seq<byte>, t: Tree, rest: seq<byte>)
    requires IsName(name)
    ensures ReadEndTag(EndTag(name) + rest, name, t) == Got(t, rest)
    ensures ReadContent(EndTag(name) + rest) == Got([], EndTag(name) + rest)
    ensures EndTag(name) + rest != [] && (EndTag(name) + rest)[0] == 60
  {
    var p := EndTag(name) + rest;
    assert Ascii("</") == [60, 47];
    assert p[0] == 60 && p[1] == 47 && p[..2] == [60, 47];
    assert p[2..] == name + ([62] + rest);
    ReadNameIs(name, [62] + rest);
    NotWhite([62] + rest);
    assert ([62] + rest)[1..] == rest;
    hide SkipWhite, ReadName;
  }

  /** A start tag is none of the other markup. */
  lemma StartTag(p: seq<byte>)
    requires |p| >= 2 && p[0] == 60 && NameStart(p[1])
    ensures !(Ascii("</") <= p) && p[0] as char == '<'
    ensures !(Ascii("<!--") <= p) && !(Ascii("<![CDATA[") <= p) && !(Ascii("<?xml ") <= p) && !(Ascii("<!") <= p)
  {
    assert Ascii("</")[1] == 47 && Ascii("<!--")[1] == 33 && Ascii("<![CDATA[")[1] == 33;
    assert Ascii("<?xml ")[1] == 63 && Ascii("<!")[1] == 33;
  }

  lemma ReadPieceElement(name: seq<byte>, more: seq<byte>)
    requires IsName(name)
    ensures var p := [60] + name + more; ReadPiece(p) == ReadElement(name + more) && !(Ascii("</") <= p)
  {
    var p := [60] + name + more;
    assert p[0] == 60 && p[1] == name[0] && p[1..] == name + more;
    StartTag(p);
    hide ReadElement, Ascii;
  }

  /** An element without content. */
  lemma ReadEmptyElement(name: seq<byte>, attrs: seq<Pair>, rest: seq<byte>)
    requires IsName(name) && forall i | 0 <= i < |attrs| :: ReadableAttribute(attrs[i])
    ensures ReadElement(name + AttributesText(attrs) + [32, 47, 62] + rest) == Got(Tree(Element, name, attrs, []), rest)
  {
    hide AttributesText, ReadAttributes, ReadName, ReadableAttribute;
    var end := [32, 47, 62] + rest;
    var tag := AttributesText(attrs) + end;
    assert name + AttributesText(attrs) + [32, 47, 62] + rest == name + tag;
    AttributesStart(attrs, end);
    ReadNameIs(name, tag);
    ReadAttributesIs(attrs, end);
    TagEnds(rest);
    assert attrs + [] == attrs;
    assert Ascii("/>") == [47, 62];
    assert ([47, 62] + rest)[2..] == rest;
  }

  lemma AttributesStart(attrs: seq<Pair>, end: seq<byte>)
    requires end != [] && !NameChar(end[0])
    ensures (AttributesText(attrs) + end)[0] == if attrs == [] then end[0] else 32
    decreases |attrs|
  {
    hide AttributeText;
    if attrs != [] {
      var init := attrs[..|attrs| - 1];
      assert AttributesText(attrs) + end == AttributesText(init) + ([32] + AttributeText(attrs[|attrs| - 1]) + end);
      AttributesStart(init, [32] + AttributeText(attrs[|attrs| - 1]) + end);
    }
  }

  /** An element whose content reads up to its end tag. */
  lemma ReadFullElement(name: seq<byte>, attrs: seq<Pair>, inner: seq<byte>, kids: seq<Tree>, rest: seq<byte>)
    requires IsName(name) && forall i | 0 <= i < |attrs| :: ReadableAttribute(attrs[i])
    requires ReadContent(inner + (EndTag(name) + rest)) == Got(kids, EndTag(name) + rest)
    ensures ReadElement(name + AttributesText(attrs) + [62] + inner + EndTag(name) + rest)
            == Got(Tree(Element, name, attrs, kids), rest)
  {
    hide AttributesText, ReadAttributes, ReadName, ReadContent, EndTag, ReadEndTag, ReadableAttribute;
    var content := inner + (EndTag(name) + rest);
    var end := [62] + content;
    var tag := AttributesText(attrs) + end;
    assert name + AttributesText(attrs) + [62] + inner + EndTag(name) + rest == name + tag;
    AttributesStart(attrs, end);
    ReadNameIs(name, tag);
    ReadAttributesIs(attrs, end);
    TagEnds(content);
    assert attrs + [] == attrs;
    NotEmptyTag(content);
    assert end[1..] == content;
    EndTagIs(name, Tree(Element, name, attrs, kids), rest);
  }

  lemma NotEmptyTag(content: seq<byte>)
    ensures !(Ascii("/>") <= [62] + content)
  {
    assert Ascii("/>")[0] == 47;
  }

  // ----- the other markup -----

  lemma ReadComment(v: seq<byte>, rest: seq<byte>)
    requires Before(v, Ascii("--"))
    ensures var p := COMMENT_START + v + COMMENT_END + rest;
            p[0] == 60 && !(Ascii("</") <= p) && ReadPiece(p) == Got(Leaf(Comment, v), rest)
  {
    assert Ascii("--") == [45, 45] && Ascii("<!--") == COMMENT_START && Ascii("</")[1] == 47;
    var p := COMMENT_START + v + COMMENT_END + rest;
    assert p[0] == 60 && p[1] == 33 && p[..4] == COMMENT_START;
    assert COMMENT_END == [45, 45] + [62];
    assert p[4..] == v + [45, 45] + ([62] + rest);
    UntilMark(v, [45, 45], [62] + rest);
    assert Ascii(">") == [62] && ([62] + rest)[1..] == rest && [62] <= [62] + rest;
    hide Until, Before;
  }

  lemma ReadCdata(v: seq<byte>, rest: seq<byte>)
    requires Before(v, Ascii("]]>"))
    ensures var p := CDATA_START + v + CDATA_END + rest;
            p[0] == 60 && !(Ascii("</") <= p) && ReadPiece(p) == Got(Leaf(Text(true), v), rest)
  {
    assert Ascii("]]>") == CDATA_END && Ascii("<![CDATA[") == CDATA_START && Ascii("</")[1] == 47;
    assert Ascii("<!--")[2] == 45;
    var p := CDATA_START + v + CDATA_END + rest;
    assert p[0] == 60 && p[1] == 33 && p[2] == 91 && p[..9] == CDATA_START;
    assert p[9..] == v + CDATA_END + rest;
    UntilMark(v, CDATA_END, rest);
    hide Until, Before;
  }

  lemma ReadUnknown(v: seq<byte>, rest: seq<byte>)
    requires Before(v, Ascii(">")) && Ascii("!") <= v && !(Ascii("!--") <= v) && !(Ascii("![CDATA[") <= v)
    ensures var p := LT + v + GT + rest;
            p[0] == 60 && !(Ascii("</") <= p) && ReadPiece(p) == Got(Leaf(Unknown, v), rest)
  {
    assert Ascii(">") == GT && Ascii("!") == [33] && Ascii("<!") == [60, 33];
    assert Ascii("</")[1] == 47 && Ascii("<?xml ")[1] == 63;
    var p := LT + v + GT + rest;
    assert p[0] == 60 && p[1] == v[0] == 33 && p[..2] == [60, 33];
    assert p[1..] == v + GT + rest;
    Behind(v, rest, Ascii("!--"), Ascii("<!--"));
    Behind(v, rest, Ascii("![CDATA["), Ascii("<![CDATA["));
    UntilMark(v, GT, rest);
    hide Until, Before;
  }

  /** A longer start of markup is not there when it is not in the value. */
  lemma Behind(v: seq<byte>, rest: seq<byte>, start: seq<byte>, markup: seq<byte>)
    requires (start == Ascii("!--") && markup == Ascii("<!--")) || (start == Ascii("![CDATA[")
             && markup == Ascii("<![CDATA["))
    requires !(start <= v)
    ensures !(markup <= LT + v + GT + rest)
  {
    assert Ascii("<!--") == [60] + Ascii("!--") && Ascii("<![CDATA[") == [60] + Ascii("![CDATA[");
    NoEnd(start);
    hide Ascii;
    var w := v + (GT + rest);
    assert LT + v + GT + rest == [60] + w;
    StartsBehind(start, w);
    StartsInside(v, GT + rest, start);
  }

  lemma StartsBehind(start: seq<byte>, w: seq<byte>)
    ensures [60] + start <= [60] + w <==> start <= w
  {
    if [60] + start <= [60] + w {
      assert ([60] + w)[1..][..|start|] == ([60] + w)[..|start| + 1][1..];
      assert ([60] + w)[1..] == w && ([60] + start)[1..] == start;
    }
    if start <= w {
      assert [60] + w == [60] + start + w[|start|..];
    }
  }

  lemma StartsInside(v: seq<byte>, w: seq<byte>, start: seq<byte>)
    requires w != [] && w[0] !in start
    ensures start <= v + w <==> start <= v
  {
    if |start| <= |v| {
      assert (v + w)[..|start|] == v[..|start|];
    } else if |start| <= |v + w| {
      assert (v + w)[..|start|][|v|] == w[0];
    }
  }

  lemma NoEnd(start: seq<byte>)
    requires start == Ascii("!--") || start == Ascii("![CDATA[")
    ensures 62 !in start
  {
  }

  lemma ReadPartIs(name: string, bytes: seq<byte>, value: seq<byte>, later: seq<byte>)
    requires bytes == Ascii(name) && bytes != [] && !White(bytes[0]) && Before(value, Ascii("\""))
    requires later != [] && !White(later[0]) && later[0] != bytes[0]
    ensures ReadPart([32] + (PartText(bytes, value) + later), name) == Got(value, [32] + later)
  {
    var start := bytes + Ascii("=\"");
    assert Ascii("=\"") == [61, 34] && Ascii("\"") == [34];
    var q := PartText(bytes, value) + later;
    if value == [] {
      assert q == later;
      NotWhite(later);
      assert start[0] == bytes[0];
    } else {
      assert q == start + (value + [34] + ([32] + later));
      NotWhite(q);
      assert q[|start|..] == value + [34] + ([32] + later);
      UntilMark(value, [34], [32] + later);
    }
    hide SkipWhite, Until, Before;
  }

  lemma ReadDeclarationPiece(k: Kind, rest: seq<byte>)
    requires k.Declaration? && Before(k.version, Ascii("\"")) && Before(k.encoding, Ascii("\""))
    requires Before(k.standalone, Ascii("\""))
    ensures var p := DeclarationText(k) + rest;
            p != [] && p[0] == 60 && !(Ascii("</") <= p) && ReadPiece(p) == Got(Leaf(k, []), rest)
  {
    var end := XML_END + rest;
    var p3 := PartText(STANDALONE, k.standalone) + end;
    var p2 := PartText(ENCODING, k.encoding) + p3;
    var p1 := PartText(VERSION, k.version) + p2;
    PartStarts(k, rest);
    PartNames();
    hide ReadPart, PartText, Before, Ascii, ReadDeclaration;
    DeclarationTextIs(k, rest);
    ReadPartIs("version", VERSION, k.version, p2);
    ReadPartIs("encoding", ENCODING, k.encoding, p3);
    ReadPartIs("standalone", STANDALONE, k.standalone, end);
    DeclarationStart(DeclarationText(k) + rest, p1);
    DeclarationParts(p1, p2, p3, k, rest);
  }

  lemma PartNames()
    ensures Ascii("version") == VERSION && Ascii("encoding") == ENCODING && Ascii("standalone") == STANDALONE
  {
  }

  lemma DeclarationTextIs(k: Kind, rest: seq<byte>)
    requires k.Declaration?
    ensures DeclarationText(k) + rest ==
            XML_START + (PartText(VERSION, k.version) + (PartText(ENCODING, k.encoding)
                         + (PartText(STANDALONE, k.standalone) + (XML_END + rest))))
  {
    hide PartText;
  }

  lemma DeclarationParts(p1: seq<byte>, p2: seq<byte>, p3: seq<byte>, k: Kind, rest: seq<byte>)
    requires k.Declaration? && ReadPart([32] + p1, "version") == Got(k.version, [32] + p2)
    requires ReadPart([32] + p2, "encoding") == Got(k.encoding, [32] + p3)
    requires ReadPart([32] + p3, "standalone") == Got(k.standalone, [32] + (XML_END + rest))
    ensures ReadDeclaration([32] + p1) == Got(Leaf(k, []), rest)
  {
    hide ReadPart;
    var end := XML_END + rest;
    NotWhite(end);
    hide SkipWhite;
    assert Ascii("?>") == XML_END && end[..2] == XML_END && end[2..] == rest;
  }

  lemma DeclarationStart(p: seq<byte>, p1: seq<byte>)
    requires p == XML_START + p1
    ensures p[0] == 60 && !(Ascii("</") <= p) && ReadPiece(p) == ReadDeclaration([32] + p1)
  {
    assert Ascii("</")[1] == 47 && Ascii("<!--")[1] == 33 && Ascii("<![CDATA[")[1] == 33;
    assert Ascii("<?xml ") == XML_START && p[..6] == XML_START && p[1] == 63 && p[0] == 60;
    assert p[5..] == [32] + p1;
    hide ReadDeclaration, Ascii;
  }

  /** Each part starts with its own letter, the end with a question mark. */
  lemma PartStarts(k: Kind, rest: seq<byte>)
    requires k.Declaration?
    ensures var end := XML_END + rest;
            var p3 := PartText(STANDALONE, k.standalone) + end;
            var p2 := PartText(ENCODING, k.encoding) + p3;
            && end[0] == 63 && p3 != [] && p3[0] in {115, 63} && p2 != [] && p2[0] in {101, 115, 63}
  {
  }

  // ----- the printed tree -----

  /** What is printed for a node between the indentation and the line break of its first and last line. */
  function Body(f: Format, t: Tree, depth: int): seq<byte>
    requires !t.kind.Document?
  {
    match t.kind
    case Element =>
      var name := CStr(t.value);
      var tag := TagText(name, t.attrs);
      if t.kids == [] then tag + SLASH_GT
      else if OnOneLine(t) then tag + GT + XmlText.Encoded(t.kids[0].value) + EndTag(name)
      else tag + GT + (f.lineBreak + PrettyAll(f, t.kids, depth + 1) + Indent(f, depth)) + EndTag(name)
    case Comment => COMMENT_START + CStr(t.value) + COMMENT_END
    case Unknown => LT + CStr(t.value) + GT
    case Text(cdata) => if cdata then CDATA_START + CStr(t.value) + CDATA_END else XmlText.Encoded(t.value)
    case Declaration(_, _, _) => DeclarationText(t.kind)
  }

  lemma PrettyIsBody(f: Format, t: Tree, depth: int)
    requires !t.kind.Document?
    ensures Pretty(f, t, depth) == Indent(f, depth) + Body(f, t, depth) + f.lineBreak
  {
    hide Indent, TagText, XmlText.Encoded, CStr, PrettyAll, DeclarationText;
    if t.kind.Element? {
      ElementIsBody(f, t, depth);
    }
  }

  lemma ElementIsBody(f: Format, t: Tree, depth: int)
    requires t.kind.Element?
    ensures Pretty(f, t, depth) == Indent(f, depth) + Body(f, t, depth) + f.lineBreak
  {
    hide Indent, TagText, XmlText.Encoded, CStr, PrettyAll, EndTag;
    var name := CStr(t.value);
    var tag := TagText(name, t.attrs);
    EndTagText(name);
    if t.kids != [] {
      if OnOneLine(t) {
        var v := XmlText.Encoded(t.kids[0].value);
        assert tag + GT + v + LT_SLASH + name + GT == tag + GT + v + EndTag(name);
      } else {
        LinesJoin(Indent(f, depth), tag + GT, f.lineBreak, PrettyAll(f, t.kids, depth + 1), EndTag(name));
      }
    }
  }

  lemma EndTagText(name: seq<byte>)
    ensures LT_SLASH + name + GT == EndTag(name)
    ensures forall x: seq<byte> :: x + LT_SLASH + name + GT == x + EndTag(name)
  {
  }

  lemma LinesJoin(indent: seq<byte>, first: seq<byte>, brk: seq<byte>, middle: seq<byte>, last: seq<byte>)
    ensures indent + first + brk + middle + (indent + last + brk)
            == indent + (first + (brk + middle + indent) + last) + brk
  {
  }

  /** A node that is not text is one piece of content, whatever follows it. */
  lemma {:induction false} ReadBody(f: Format, t: Tree, depth: int, rest: seq<byte>)
    requires WhiteFormat(f) && Readable(t) && !IsText(t)
    ensures var p := Body(f, t, depth) + rest;
            p != [] && p[0] == 60 && ReadContent(p) == Then([Spaced(f, t, depth)], ReadContent(rest))
    decreases t, 1
  {
    var p := Body(f, t, depth) + rest;
    if t.kind.Element? {
      ReadElementBody(f, t, depth, rest);
      OnePiece(p, Spaced(f, t, depth), rest);
    } else {
      ReadLeafBody(f, t, depth, rest);
      OnePiece(p, t, rest);
    }
  }

  lemma OnePiece(p: seq<byte>, t: Tree, rest: seq<byte>)
    requires p != [] && !(Ascii("</") <= p) && ReadPiece(p) == Got(t, rest)
    ensures ReadContent(p) == Then([t], ReadContent(rest))
  {
    hide ReadPiece, Ascii;
  }

  lemma ReadLeafBody(f: Format, t: Tree, depth: int, rest: seq<byte>)
    requires Readable(t) && !IsText(t) && !t.kind.Element?
    ensures var p := Body(f, t, depth) + rest;
            p != [] && p[0] == 60 && !(Ascii("</") <= p) && ReadPiece(p) == Got(t, rest)
  {
    CStrIdentity(t.value);
    hide CStr, ReadPiece, Before, Ascii, DeclarationText;
    match t.kind
    case Comment => ReadComment(t.value, rest);
    case Unknown => ReadUnknown(t.value, rest);
    case Text(_) => ReadCdata(t.value, rest);
    case Declaration(_, _, _) => ReadDeclarationPiece(t.kind, rest);
  }

  lemma {:induction false} ReadElementBody(f: Format, t: Tree, depth: int, rest: seq<byte>)
    requires WhiteFormat(f) && Readable(t) && t.kind.Element?
    ensures var p := Body(f, t, depth) + rest;
            p != [] && p[0] == 60 && !(Ascii("</") <= p) && ReadPiece(p) == Got(Spaced(f, t, depth), rest)
    decreases t, 0
  {
    hide ReadPiece, ReadElement, ReadContent, AttributesText, XmlText.Encoded, CStr, PrettyAll, Indent, EndTag, Laid,
      Ascii, ReadableAttribute, IsName, Repeat;
    var name, attrs := t.value, t.attrs;
    NameFacts(name);
    AttributesReadable(t);
    ReadPieceElement(name, AttributesText(attrs) + BodyTail(f, t, depth) + rest);
    BodyStart(f, t, depth, rest);
    if t.kids == [] {
      ReadEmptyElement(name, attrs, rest);
    } else {
      var inner, kids := Inner(f, t, depth), Spaced(f, t, depth).kids;
      EndTagIs(name, t, rest);
      ReadInner(f, t, depth, EndTag(name) + rest);
      ThenNothing(kids, EndTag(name) + rest);
      ReadFullElement(name, attrs, inner, kids, rest);
      FullTail(f, t, depth, rest);
    }
  }

  lemma ThenNothing(kids: seq<Tree>, rest: seq<byte>)
    ensures Then(kids, Got([], rest)) == Got(kids, rest)
  {
    assert kids + [] == kids;
  }

  lemma AttributesReadable(t: Tree)
    requires Readable(t) && t.kind.Element?
    ensures IsName(t.value) && ReadableAll(t.kids) && forall i | 0 <= i < |t.attrs| :: ReadableAttribute(t.attrs[i])
  {
  }

  /** What stands between the start tag and the end tag. */
  function Inner(f: Format, t: Tree, depth: int): seq<byte>
    requires t.kids != []
  {
    if OnOneLine(t) then XmlText.Encoded(t.kids[0].value)
    else f.lineBreak + PrettyAll(f, t.kids, depth + 1) + Indent(f, depth)
  }

  /** What stands behind the attributes. */
  function BodyTail(f: Format, t: Tree, depth: int): seq<byte> {
    if t.kids == [] then [32, 47, 62] else [62] + Inner(f, t, depth) + EndTag(t.value)
  }

  lemma BodyStart(f: Format, t: Tree, depth: int, rest: seq<byte>)
    requires t.kind.Element? && CStr(t.value) == t.value
    ensures Body(f, t, depth) + rest == [60] + t.value + (AttributesText(t.attrs) + BodyTail(f, t, depth) + rest)
    ensures t.kids == [] ==>
              t.value + (AttributesText(t.attrs) + BodyTail(f, t, depth) + rest)
              == t.value + AttributesText(t.attrs) + [32, 47, 62] + rest
  {
    hide AttributesText, XmlText.Encoded, CStr, PrettyAll, Indent, EndTag;
  }

  lemma FullTail(f: Format, t: Tree, depth: int, rest: seq<byte>)
    requires t.kids != []
    ensures t.value + (AttributesText(t.attrs) + BodyTail(f, t, depth) + rest)
            == t.value + AttributesText(t.attrs) + [62] + Inner(f, t, depth) + EndTag(t.value) + rest
  {
    hide AttributesText, Inner, EndTag;
  }

  /** The content of an element, up to its end tag. */
  lemma {:induction false} ReadInner(f: Format, t: Tree, depth: int, rest: seq<byte>)
    requires WhiteFormat(f) && ReadableAll(t.kids) && t.kind.Element? && t.kids != []
    requires rest != [] && rest[0] == 60
    ensures ReadContent(Inner(f, t, depth) + rest) == Then(Spaced(f, t, depth).kids, ReadContent(rest))
    decreases t, 0, 0
  {
    hide ReadContent, XmlText.Encoded, PrettyAll, Indent, Laid, ReadsAs, Repeat;
    if OnOneLine(t) {
      var v := t.kids[0].value;
      assert Readable(t.kids[0]);
      ReadsEncoded(v, 0);
      assert v[0..] == v;
      EncodedStart(v);
      ReadCharData(XmlText.Encoded(v), v, rest);
    } else {
      var open := Indent(f, depth);
      var raw := ReadLaid(f, t.kids, depth + 1, f.lineBreak, open + rest);
      var r := Laid(f, t.kids, depth + 1, f.lineBreak);
      IndentRepeats(f, depth);
      RepeatWhite(f.indent, depth);
      ReadsWhite(open);
      ReadsTogether(raw, r.open, open, open);
      ReadCharData(raw + open, r.open + open, rest);
      assert Inner(f, t, depth) + rest == f.lineBreak + PrettyAll(f, t.kids, depth + 1) + (open + rest);
      assert raw + (open + rest) == raw + open + rest;
      ThenThen(r.done, CharData(r.open + open), ReadContent(rest));
    }
  }

  lemma EncodedStart(v: seq<byte>)
    ensures XmlText.Encoded(v) == XmlText.EncodedFrom(v, 0)
  {
  }

  /** The lines of the children, `lead` in front: what is read, and the character data left open at the end. */
  lemma {:induction false} ReadLaid(f: Format, ts: seq<Tree>, depth: int, lead: seq<byte>, rest: seq<byte>)
    returns (raw: seq<byte>)
    requires WhiteFormat(f) && ReadableAll(ts) && IsWhite(lead)
    ensures var r := Laid(f, ts, depth, lead);
            && ReadsAs(raw, r.open)
            && ReadContent(lead + PrettyAll(f, ts, depth) + rest) == Then(r.done, ReadContent(raw + rest))
    decreases ts, 0
  {
    hide ReadContent, Pretty, XmlText.Encoded, Indent, ReadsAs, Spaced, Repeat, Body;
    if ts == [] {
      raw := lead;
      ReadsWhite(lead);
      assert lead + [] + rest == lead + rest;
      ThenThen([], [], ReadContent(raw + rest));
    } else {
      var init, t := ts[..|ts| - 1], ts[|ts| - 1];
      assert ReadableAll(init) by { InitReadable(ts); }
      assert Readable(t);
      var r := Laid(f, init, depth, lead);
      var raw0 := ReadLaid(f, init, depth, lead, Pretty(f, t, depth) + rest);
      assert lead + PrettyAll(f, ts, depth) + rest == lead + PrettyAll(f, init, depth) + (Pretty(f, t, depth) + rest);
      raw := ReadLine(f, t, depth, r, raw0, rest);
    }
  }

  lemma InitReadable(ts: seq<Tree>)
    requires ts != [] && ReadableAll(ts)
    ensures ReadableAll(ts[..|ts| - 1]) && Readable(ts[|ts| - 1])
  {
    var init := ts[..|ts| - 1];
    forall i | 0 <= i < |init|
      ensures Readable(init[i])
    {
      assert init[i] == ts[i];
    }
  }

  /** One more child, behind the open character data `raw0`. */
  lemma {:induction false} ReadLine(f: Format, t: Tree, depth: int, r: Run, raw0: seq<byte>, rest: seq<byte>)
    returns (raw: seq<byte>)
    requires WhiteFormat(f) && Readable(t) && ReadsAs(raw0, r.open)
    ensures var open := r.open + Repeat(f.indent, depth);
            var next := if IsText(t) then Run(r.done, open + t.value + f.lineBreak)
                        else Run(r.done + CharData(open) + [Spaced(f, t, depth)], f.lineBreak);
            && ReadsAs(raw, next.open)
            && Then(r.done, ReadContent(raw0 + (Pretty(f, t, depth) + rest))) == Then(next.done,
              ReadContent(raw + rest))
    decreases t, 2
  {
    hide ReadContent, Pretty, XmlText.Encoded, Indent, ReadsAs, Spaced, Repeat, Readable, Body;
    var white := Indent(f, depth);
    IndentRepeats(f, depth);
    RepeatWhite(f.indent, depth);
    ReadsWhite(white);
    ReadsWhite(f.lineBreak);
    ReadsTogether(raw0, r.open, white, white);
    NotDocument(t);
    PrettyIsBody(f, t, depth);
    var body := Body(f, t, depth);
    if IsText(t) {
      raw := raw0 + white + body + f.lineBreak;
      ReadTextLine(f, t, depth, raw0 + white, r.open + white);
      assert raw0 + (white + body + f.lineBreak + rest) == raw + rest;
    } else {
      raw := f.lineBreak;
      ReadBody(f, t, depth, f.lineBreak + rest);
      ReadMarkupLine(f, t, depth, r.done, raw0 + white, r.open + white, rest);
      assert raw0 + (white + body + f.lineBreak + rest) == raw0 + white + (body + (f.lineBreak + rest));
    }
  }

  lemma ReadTextLine(f: Format, t: Tree, depth: int, raw: seq<byte>, open: seq<byte>)
    requires Readable(t) && IsText(t) && ReadsAs(raw, open) && ReadsAs(f.lineBreak, f.lineBreak)
    ensures ReadsAs(raw + Body(f, t, depth) + f.lineBreak, open + t.value + f.lineBreak)
  {
    hide XmlText.Encoded, ReadsAs, Readable;
    TextReadable(t);
    ReadsEncoded(t.value, 0);
    assert t.value[0..] == t.value;
    EncodedStart(t.value);
    var e := XmlText.Encoded(t.value);
    ReadsTogether(raw, open, e, t.value);
    ReadsTogether(raw + e, open + t.value, f.lineBreak, f.lineBreak);
  }

  lemma ReadMarkupLine(f: Format, t: Tree, depth: int, done: seq<Tree>, raw: seq<byte>, open: seq<byte>,
      rest: seq<byte>)
    requires !t.kind.Document? && ReadsAs(raw, open)
    requires var p := Body(f, t, depth) + (f.lineBreak + rest);
             p != [] && p[0] == 60 && ReadContent(p) == Then([Spaced(f, t, depth)], ReadContent(f.lineBreak + rest))
    ensures Then(done, ReadContent(raw + (Body(f, t, depth) + (f.lineBreak + rest))))
            == Then(done + CharData(open) + [Spaced(f, t, depth)], ReadContent(f.lineBreak + rest))
  {
    hide ReadContent, ReadsAs, Spaced, Body;
    var spaced, later := [Spaced(f, t, depth)], ReadContent(f.lineBreak + rest);
    ReadCharData(raw, open, Body(f, t, depth) + (f.lineBreak + rest));
    ThenThen(CharData(open), spaced, later);
    ThenThen(done, CharData(open) + spaced, later);
    assert done + (CharData(open) + spaced) == done + CharData(open) + spaced;
  }

  lemma NotDocument(t: Tree)
    requires Readable(t)
    ensures !t.kind.Document?
  {
  }

  lemma TextReadable(t: Tree)
    requires Readable(t) && IsText(t)
    ensures !XmlText.HasRef(t.value, 0)
  {
  }

  /** An XML reader reads the printed nodes of a document, or any others, back as they are, with exactly the white
      space of the layout as character data between them. */
  lemma PrettyReadsBack(f: Format, ts: seq<Tree>, depth: int)
    requires WhiteFormat(f) && ReadableAll(ts)
    ensures var r := Laid(f, ts, depth, []);
            ReadContent(PrettyAll(f, ts, depth)) == Got(r.done + CharData(r.open), [])
  {
    hide PrettyAll, Laid, ReadContent, ReadsAs;
    var r := Laid(f, ts, depth, []);
    var raw := ReadLaid(f, ts, depth, [], []);
    assert [] + PrettyAll(f, ts, depth) + [] == PrettyAll(f, ts, depth);
    ReadCharData(raw, r.open, []);
    NothingMore();
    ThenNothing(CharData(r.open), []);
    ThenThen(r.done, CharData(r.open), ReadContent([]));
    ThenNothing(r.done + CharData(r.open), []);
  }

  lemma NothingMore()
    ensures ReadContent([]) == Got([], [])
  {
  }

  // ----- without the white space -----

  function TrimEnd(s: seq<byte>): seq<byte> {
    if s != [] && White(s[|s| - 1]) then TrimEnd(s[..|s| - 1]) else s
  }

  /** A text without the white space at both of its ends. */
  function Trim(s: seq<byte>): seq<byte> {
    TrimEnd(SkipWhite(s))
  }

  /** A tree without the white space around its texts; texts of white space alone are gone. */
  function Stripped(t: Tree): Tree
    decreases t, 1
  {
    t.(kids := StrippedAll(t.kids))
  }

  function StrippedAll(ts: seq<Tree>): seq<Tree>
    decreases ts, 0
  {
    if ts == [] then []
    else
      var t := ts[|ts| - 1];
      StrippedAll(ts[..|ts| - 1]) + if IsText(t) then CharData(Trim(t.value)) else [Stripped(t)]
  }

  /** A text that neither starts nor ends with white space, and is not empty. */
  predicate Solid(s: seq<byte>) {
    s != [] && !White(s[0]) && !White(s[|s| - 1])
  }

  /** The trees that white space does not blur: solid texts, and no two of them side by side. */
  predicate Sharp(t: Tree)
    decreases t, 1
  {
    SharpAll(t.kids)
  }

  predicate SharpAll(ts: seq<Tree>)
    decreases ts, 0
  {
    && (forall i | 0 <= i < |ts| :: if IsText(ts[i]) then Solid(ts[i].value) else Sharp(ts[i]))
    && (forall i | 0 <= i < |ts| - 1 :: Apart(ts, i))
  }

  /** Not two texts in a row. */
  predicate Apart(ts: seq<Tree>, i: nat)
    requires i + 1 < |ts|
  {
    !IsText(ts[i]) || !IsText(ts[i + 1])
  }

  lemma {:induction false} SkipAllWhite(w: seq<byte>, s: seq<byte>)
    requires IsWhite(w)
    ensures SkipWhite(w + s) == SkipWhite(s)
    decreases |w|
  {
    if w == [] {
      assert w + s == s;
    } else {
      assert (w + s)[0] == w[0] && (w + s)[1..] == w[1..] + s;
      SkipAllWhite(w[1..], s);
    }
  }

  lemma {:induction false} TrimEndWhite(s: seq<byte>, w: seq<byte>)
    requires IsWhite(w)
    ensures TrimEnd(s + w) == TrimEnd(s)
    decreases |w|
  {
    if w == [] {
      assert s + w == s;
    } else {
      assert (s + w)[|s + w| - 1] == w[|w| - 1];
      assert (s + w)[..|s + w| - 1] == s + w[..|w| - 1];
      TrimEndWhite(s, w[..|w| - 1]);
    }
  }

  lemma TrimIs(a: seq<byte>, v: seq<byte>, b: seq<byte>)
    requires IsWhite(a) && IsWhite(b) && (v == [] || Solid(v))
    ensures Trim(a + v + b) == v
  {
    assert a + v + b == a + (v + b);
    SkipAllWhite(a, v + b);
    if v == [] {
      assert v + b == b;
      SkipAllWhite(b, []);
      assert b + [] == b;
    } else {
      assert (v + b)[0] == v[0];
      TrimEndWhite(v, b);
    }
    hide IsWhite;
  }

  lemma WhiteTogether(a: seq<byte>, b: seq<byte>)
    requires IsWhite(a) && IsWhite(b)
    ensures IsWhite(a + b)
  {
  }

  lemma StrippedNext(ts: seq<Tree>, t: Tree)
    ensures StrippedAll(ts + [t]) == StrippedAll(ts) + if IsText(t) then CharData(Trim(t.value)) else [Stripped(t)]
  {
    var all := ts + [t];
    assert all[..|all| - 1] == ts;
    hide Trim, Stripped;
  }

  /** Where a layout stands: behind a text, which is open with white space around it, or not. */
  ghost predicate LaidSoFar(r: Run, ts: seq<Tree>, a: seq<byte>, b: seq<byte>) {
    && IsWhite(a) && IsWhite(b)
    && if ts != [] && IsText(ts[|ts| - 1])
       then r.open == a + ts[|ts| - 1].value + b && StrippedAll(r.done) == ts[..|ts| - 1] && Solid(ts[|ts| - 1].value)
       else r.open == a && StrippedAll(r.done) == ts
  }

  /** Closing the open character data, with more white space, gives the trees. */
  lemma CloseLaid(r: Run, ts: seq<Tree>, a: seq<byte>, b: seq<byte>, w: seq<byte>)
    requires LaidSoFar(r, ts, a, b) && IsWhite(w)
    requires ts != [] && IsText(ts[|ts| - 1]) ==> ts[|ts| - 1] == Leaf(Text(false), ts[|ts| - 1].value)
    ensures StrippedAll(r.done + CharData(r.open + w)) == ts
  {
    hide StrippedAll, Trim, IsWhite;
    var open := r.open + w;
    if ts != [] && IsText(ts[|ts| - 1]) {
      var v := ts[|ts| - 1].value;
      WhiteTogether(b, w);
      assert open == a + v + (b + w);
      TrimIs(a, v, b + w);
      StrippedNext(r.done, Leaf(Text(false), open));
      assert ts == ts[..|ts| - 1] + [ts[|ts| - 1]];
    } else {
      WhiteTogether(a, w);
      WhiteGone(r.done, open);
    }
  }

  lemma WhiteGone(done: seq<Tree>, open: seq<byte>)
    requires IsWhite(open)
    ensures StrippedAll(done + CharData(open)) == StrippedAll(done)
  {
    hide StrippedAll, Trim, IsWhite;
    if open == [] {
      assert done + [] == done;
    } else {
      NoWhite();
      TrimIs(open, [], []);
      assert open + [] + [] == open;
      StrippedNext(done, Leaf(Text(false), open));
      assert StrippedAll(done) + [] == StrippedAll(done);
    }
  }

  lemma NoWhite()
    ensures IsWhite([])
  {
  }

  lemma {:induction false} LaidStrips(f: Format, ts: seq<Tree>, depth: int, lead: seq<byte>)
    returns (a: seq<byte>, b: seq<byte>)
    requires WhiteFormat(f) && IsWhite(lead) && ReadableAll(ts) && SharpAll(ts)
    ensures LaidSoFar(Laid(f, ts, depth, lead), ts, a, b)
    decreases ts, 0
  {
    hide Trim, Readable, Sharp, Spaced, Repeat, IsWhite, LaidSoFar, ReadableAll, SharpAll;
    if ts == [] {
      NothingStripped();
      NoWhite();
      a, b := lead, [];
      LaidNothing(lead);
    } else {
      var init, t := ts[..|ts| - 1], ts[|ts| - 1];
      InitReadable(ts);
      InitSharp(ts);
      var a0, b0 := LaidStrips(f, init, depth, lead);
      var r := Laid(f, init, depth, lead);
      RepeatWhite(f.indent, depth);
      assert init + [t] == ts;
      if IsText(t) {
        TextSolid(ts);
        a, b := a0 + Repeat(f.indent, depth), f.lineBreak;
        LaidText(f, init, t, depth, r, a0, b0);
      } else {
        SpacedStrips(f, t, depth);
        TextLeafAt(init);
        a, b := f.lineBreak, [];
        LaidMarkup(f, init, t, depth, r, a0, b0);
      }
    }
  }

  lemma LaidNothing(lead: seq<byte>)
    requires IsWhite(lead)
    ensures LaidSoFar(Run([], lead), [], lead, [])
  {
  }

  lemma LaidText(f: Format, init: seq<Tree>, t: Tree, depth: int, r: Run, a: seq<byte>, b: seq<byte>)
    requires WhiteFormat(f) && IsText(t) && Solid(t.value) && LaidSoFar(r, init, a, b)
    requires IsWhite(Repeat(f.indent, depth)) && (init == [] || !IsText(init[|init| - 1]))
    ensures var open := r.open + Repeat(f.indent, depth);
            LaidSoFar(Run(r.done, open + t.value + f.lineBreak), init + [t], a + Repeat(f.indent, depth), f.lineBreak)
  {
    hide IsWhite, StrippedAll, Repeat;
    WhiteTogether(a, Repeat(f.indent, depth));
    assert (init + [t])[..|init + [t]| - 1] == init;
  }

  lemma LaidMarkup(f: Format, init: seq<Tree>, t: Tree, depth: int, r: Run, a: seq<byte>, b: seq<byte>)
    requires WhiteFormat(f) && !IsText(t) && LaidSoFar(r, init, a, b)
    requires IsWhite(Repeat(f.indent, depth)) && Stripped(Spaced(f, t, depth)) == t
    requires init != [] && IsText(init[|init| - 1]) ==> init[|init| - 1] == Leaf(Text(false), init[|init| - 1].value)
    ensures var open := r.open + Repeat(f.indent, depth);
            LaidSoFar(Run(r.done + CharData(open) + [Spaced(f, t, depth)], f.lineBreak), init + [t], f.lineBreak, [])
  {
    hide IsWhite, StrippedAll, Repeat, Spaced, Stripped;
    NoWhite();
    var open := r.open + Repeat(f.indent, depth);
    CloseLaid(r, init, a, b, Repeat(f.indent, depth));
    SpacedKind(f, t, depth);
    StrippedNext(r.done + CharData(open), Spaced(f, t, depth));
  }

  lemma NothingStripped()
    ensures StrippedAll([]) == []
  {
  }

  lemma SpacedKind(f: Format, t: Tree, depth: int)
    ensures Spaced(f, t, depth).kind == t.kind
  {
  }

  lemma InitSharp(ts: seq<Tree>)
    requires ts != [] && SharpAll(ts)
    ensures SharpAll(ts[..|ts| - 1]) && (!IsText(ts[|ts| - 1]) ==> Sharp(ts[|ts| - 1]))
  {
    var init := ts[..|ts| - 1];
    assert forall i | 0 <= i < |init| :: init[i] == ts[i];
    assert forall i | 0 <= i < |init| - 1 :: Apart(ts, i) ==> Apart(init, i);
    hide Sharp;
  }

  lemma TextSolid(ts: seq<Tree>)
    requires ts != [] && SharpAll(ts) && IsText(ts[|ts| - 1])
    ensures Solid(ts[|ts| - 1].value)
    ensures var init := ts[..|ts| - 1]; init == [] || !IsText(init[|init| - 1])
  {
    var init := ts[..|ts| - 1];
    if init != [] {
      assert Apart(ts, |ts| - 2);
    }
    hide Sharp;
  }

  lemma TextLeafAt(ts: seq<Tree>)
    requires ReadableAll(ts)
    ensures ts != [] && IsText(ts[|ts| - 1]) ==> ts[|ts| - 1] == Leaf(Text(false), ts[|ts| - 1].value)
  {
    if ts != [] {
      assert Readable(ts[|ts| - 1]);
    }
  }

  lemma {:induction false} SpacedStrips(f: Format, t: Tree, depth: int)
    requires WhiteFormat(f) && Readable(t) && Sharp(t)
    ensures Stripped(Spaced(f, t, depth)) == t
    decreases t, 1
  {
    hide Laid, Trim, IsWhite, ReadableAll, SharpAll, Repeat;
    if !t.kind.Element? || t.kids == [] {
      NothingStripped();
      LeafOrEmpty(t);
    } else if |t.kids| == 1 && IsText(t.kids[0]) {
      LoneTextStrips(t);
    } else {
      ElementKids(t);
      var a, b := LaidStrips(f, t.kids, depth + 1, f.lineBreak);
      RepeatWhite(f.indent, depth);
      TextLeafAt(t.kids);
      CloseLaid(Laid(f, t.kids, depth + 1, f.lineBreak), t.kids, a, b, Repeat(f.indent, depth));
    }
  }

  lemma LeafOrEmpty(t: Tree)
    requires Readable(t) && (!t.kind.Element? || t.kids == [])
    ensures t.kids == []
  {
  }

  lemma ElementKids(t: Tree)
    requires Readable(t) && Sharp(t) && t.kind.Element?
    ensures ReadableAll(t.kids) && SharpAll(t.kids)
  {
  }

  lemma LoneTextStrips(t: Tree)
    requires Readable(t) && Sharp(t) && t.kind.Element? && |t.kids| == 1 && IsText(t.kids[0])
    ensures StrippedAll(CharData(t.kids[0].value)) == t.kids
  {
    var v := t.kids[0].value;
    assert Solid(v) && Readable(t.kids[0]);
    NoWhite();
    TrimIs([], v, []);
    assert [] + v + [] == v;
    assert CharData(v) == [] + [Leaf(Text(false), v)];
    StrippedNext([], Leaf(Text(false), v));
    NothingStripped();
    assert t.kids == [t.kids[0]];
  }

  /** The round trip: an application that ignores the white space around texts gets the printed trees back. */
  lemma RoundTrip(f: Format, ts: seq<Tree>, depth: int)
    requires WhiteFormat(f) && ReadableAll(ts) && SharpAll(ts)
    ensures ReadContent(PrettyAll(f, ts, depth)).Got? && ReadContent(PrettyAll(f, ts, depth)).rest == []
    ensures StrippedAll(ReadContent(PrettyAll(f, ts, depth)).value) == ts
  {
    hide ReadContent, PrettyAll, Laid, StrippedAll, ReadableAll, SharpAll, IsWhite;
    NoWhite();
    PrettyReadsBack(f, ts, depth);
    var r := Laid(f, ts, depth, []);
    var a, b := LaidStrips(f, ts, depth, []);
    TextLeafAt(ts);
    CloseLaid(r, ts, a, b, []);
    assert r.open + [] == r.open;
  }

  /** The same for a document, and for a single element. */
  lemma PrintedDocument(f: Format, t: Tree, depth: int)
    requires WhiteFormat(f)
    requires if t.kind.Document? then ReadableAll(t.kids) && SharpAll(t.kids) else ReadableAll([t]) && SharpAll([t])
    ensures var r := ReadContent(Pretty(f, t, depth));
            r.Got? && r.rest == [] && StrippedAll(r.value) == if t.kind.Document? then t.kids else [t]
  {
    hide ReadContent, StrippedAll, ReadableAll, SharpAll;
    if t.kind.Document? {
      RoundTrip(f, t.kids, depth);
    } else {
      RoundTrip(f, [t], depth);
      OnePretty(f, t, depth);
    }
  }

  lemma OnePretty(f: Format, t: Tree, depth: int)
    ensures PrettyAll(f, [t], depth) == Pretty(f, t, depth)
  {
    assert [t][..0] == [];
    hide Pretty;
    assert [] + Pretty(f, t, depth) == Pretty(f, t, depth);
  }
}
