/** TiXmlPrinter, a visitor whose depth, flag and buffer change with every call, against a recursive
    description of the printed text. */
module XmlPrinter {
  import opened Bytes
  import opened XmlAttributes
  import opened XmlNodes
  import opened XmlTree
  import XmlText

  // ----- the printed text -----

  datatype Format = Format(indent: seq<byte>, lineBreak: seq<byte>)

  const LT: seq<byte> := [60]                        // <
  const GT: seq<byte> := [62]                        // >
  const SLASH_GT: seq<byte> := [32, 47, 62]          //  />
  const LT_SLASH: seq<byte> := [60, 47]              // </
  const SPACE: seq<byte> := [32]
  const EQ_QUOTE: seq<byte> := [61, 34]              // ="
  const EQ_APOS: seq<byte> := [61, 39]               // ='
  const QUOTE: byte := 34
  const APOS: byte := 39
  const CDATA_START: seq<byte> := [60, 33, 91, 67, 68, 65, 84, 65, 91]  // <![CDATA[
  const CDATA_END: seq<byte> := [93, 93, 62]         // ]]>
  const COMMENT_START: seq<byte> := [60, 33, 45, 45] // <!--
  const COMMENT_END: seq<byte> := [45, 45, 62]       // -->
  const XML_START: seq<byte> := [60, 63, 120, 109, 108, 32]  // <?xml and a space
  const XML_END: seq<byte> := [63, 62]               // ?>
  const VERSION: seq<byte> := [118, 101, 114, 115, 105, 111, 110]
  const ENCODING: seq<byte> := [101, 110, 99, 111, 100, 105, 110, 103]
  const STANDALONE: seq<byte> := [115, 116, 97, 110, 100, 97, 108, 111, 110, 101]

  function Indent(f: Format, depth: int): seq<byte> {
    if depth <= 0 then [] else Indent(f, depth - 1) + f.indent
  }

  function Line(f: Format, depth: int, text: seq<byte>): seq<byte> {
    Indent(f, depth) + text + f.lineBreak
  }

  /** A value with a double quote in it stands between apostrophes. */
  function AttributeText(p: Pair): seq<byte> {
    XmlText.Encoded(p.name)
    + (if QUOTE in p.value then EQ_APOS + XmlText.Encoded(p.value) + [APOS]
      else EQ_QUOTE + XmlText.Encoded(p.value) + [QUOTE])
  }

  function AttributesText(pairs: seq<Pair>): seq<byte> {
    if pairs == [] then []
    else AttributesText(pairs[..|pairs| - 1]) + SPACE + AttributeText(pairs[|pairs| - 1])
  }

  function TagText(name: seq<byte>, attrs: seq<Pair>): seq<byte> {
    LT + name + AttributesText(attrs)
  }

  function PartText(name: seq<byte>, value: seq<byte>): seq<byte> {
    if value == [] then [] else name + EQ_QUOTE + value + [QUOTE] + SPACE
  }

  function DeclarationText(k: Kind): seq<byte>
    requires k.Declaration?
  {
    XML_START + PartText(VERSION, k.version) + PartText(ENCODING, k.encoding)
    + PartText(STANDALONE, k.standalone) + XML_END
  }

  /** An element with one text child, not CDATA, is printed on one line. */
  predicate OnOneLine(t: Tree) {
    t.kind.Element? && |t.kids| == 1 && t.kids[0].kind == Text(false)
  }

  function Pretty(f: Format, t: Tree, depth: int): seq<byte>
    decreases t, 1
  {
    match t.kind
    case Document => PrettyAll(f, t.kids, depth)
    case Element =>
      var name := CStr(t.value);
      var tag := TagText(name, t.attrs);
      if t.kids == [] then Line(f, depth, tag + SLASH_GT)
      else if OnOneLine(t) then Line(f, depth, tag + GT + XmlText.Encoded(t.kids[0].value) + LT_SLASH + name + GT)
      else Line(f, depth, tag + GT) + PrettyAll(f, t.kids, depth + 1) + Line(f, depth, LT_SLASH + name + GT)
    case Comment => Line(f, depth, COMMENT_START + CStr(t.value) + COMMENT_END)
    case Unknown => Line(f, depth, LT + CStr(t.value) + GT)
    case Text(cdata) =>
      Line(f, depth, if cdata then CDATA_START + CStr(t.value) + CDATA_END else XmlText.Encoded(t.value))
    case Declaration(_, _, _) => Line(f, depth, DeclarationText(t.kind))
  }

  function PrettyAll(f: Format, ts: seq<Tree>, depth: int): seq<byte>
    decreases ts, 0
  {
    if ts == [] then [] else PrettyAll(f, ts[..|ts| - 1], depth) + Pretty(f, ts[|ts| - 1], depth)
  }

  // ----- the visitor -----

  class Printer {
    var depth: int
    var simpleTextPrint: bool
    var buffer: seq<byte>
    var indent: seq<byte>
    var lineBreak: seq<byte>

    constructor ()
      ensures depth == 0 && !simpleTextPrint && buffer == [] && indent == [32, 32, 32, 32] && lineBreak == [10]
    {
      depth, simpleTextPrint, buffer, indent, lineBreak := 0, false, [], [32, 32, 32, 32], [10];
    }

    function Style(): Format
      reads this`indent, this`lineBreak
    {
      Format(indent, lineBreak)
    }

    method DoIndent()
      modifies this`buffer
      ensures buffer == old(buffer) + Indent(Style(), depth)
    {
      var i := 0;
      while i < depth
        invariant 0 <= i && (depth > 0 ==> i <= depth) && (depth <= 0 ==> i == 0)
        invariant buffer == old(buffer) + Indent(Style(), i)
      {
        buffer := buffer + indent;
        i := i + 1;
      }
    }

    method DoLineBreak()
      modifies this`buffer
      ensures buffer == old(buffer) + lineBreak
    {
      buffer := buffer + lineBreak;
    }

    /** TiXmlAttribute::Print into the buffer. */
    method PrintAttribute(attrib: Attribute)
      modifies this`buffer
      ensures buffer == old(buffer) + AttributeText(Pair(attrib.name, attrib.value))
    {
      hide XmlText.Encoded;
      var n := XmlText.EncodeString(attrib.name, []);
      var v := XmlText.EncodeString(attrib.value, []);
      if QUOTE !in attrib.value {
        buffer := buffer + n;
        buffer := buffer + EQ_QUOTE;
        buffer := buffer + v;
        buffer := buffer + [QUOTE];
      } else {
        buffer := buffer + n;
        buffer := buffer + EQ_APOS;
        buffer := buffer + v;
        buffer := buffer + [APOS];
      }
    }

    method PrintAttributes(attributes: AttributeSet)
      requires attributes.Valid()
      modifies this`buffer
      ensures buffer == old(buffer) + AttributesText(attributes.pairs)
    {
      hide AttributeText, AttributeSet.Valid;
      attributes.FirstIs();
      var attrib := attributes.First();
      ghost var i := 0;
      ghost var pairs := attributes.pairs;
      while attrib != null
        invariant unchanged(attributes) && unchanged(attributes.Nodes()) && attributes.Valid()
        invariant 0 <= i <= |attributes.items| && attrib == if i < |attributes.items| then attributes.items[i] else null
        invariant buffer == old(buffer) + AttributesText(pairs[..i])
        decreases |attributes.items| - i
      {
        assert pairs[..i + 1][..i] == pairs[..i];
        attributes.PairAt(i);
        buffer := buffer + SPACE;
        PrintAttribute(attrib);
        attrib := attributes.Next(attrib, i);
        i := i + 1;
      }
      assert pairs[..i] == pairs;
    }

    method PrintPart(name: seq<byte>, value: seq<byte>)
      modifies this`buffer
      ensures buffer == old(buffer) + PartText(name, value)
    {
      if value != [] {
        buffer := buffer + name + EQ_QUOTE;
        buffer := buffer + value;
        buffer := buffer + [QUOTE] + SPACE;
      }
    }

    method VisitDeclaration(kind: Kind)
      requires kind.Declaration?
      modifies this`buffer
      ensures buffer == old(buffer) + Line(Style(), depth, DeclarationText(kind))
    {
      hide PartText, Indent;
      DoIndent();
      buffer := buffer + XML_START;
      PrintPart(VERSION, kind.version);
      PrintPart(ENCODING, kind.encoding);
      PrintPart(STANDALONE, kind.standalone);
      buffer := buffer + XML_END;
      DoLineBreak();
    }

    method VisitText(cdata: bool, value: seq<byte>)
      modifies this`buffer
      ensures buffer == old(buffer) +
                if cdata then Line(Style(), depth, CDATA_START + CStr(value) + CDATA_END)
                else if simpleTextPrint then XmlText.Encoded(value)
                else Line(Style(), depth, XmlText.Encoded(value))
    {
      hide Indent, CStr, XmlText.Encoded;
      if cdata {
        DoIndent();
        buffer := buffer + CDATA_START;
        buffer := buffer + CStr(value);
        buffer := buffer + CDATA_END;
        DoLineBreak();
      } else if simpleTextPrint {
        var str := XmlText.EncodeString(value, []);
        buffer := buffer + str;
      } else {
        DoIndent();
        var str := XmlText.EncodeString(value, []);
        buffer := buffer + str;
        DoLineBreak();
      }
    }

    method VisitComment(value: seq<byte>)
      modifies this`buffer
      ensures buffer == old(buffer) + Line(Style(), depth, COMMENT_START + CStr(value) + COMMENT_END)
    {
      DoIndent();
      buffer := buffer + COMMENT_START;
      buffer := buffer + CStr(value);
      buffer := buffer + COMMENT_END;
      DoLineBreak();
    }

    method VisitUnknown(value: seq<byte>)
      modifies this`buffer
      ensures buffer == old(buffer) + Line(Style(), depth, LT + CStr(value) + GT)
    {
      DoIndent();
      buffer := buffer + LT;
      buffer := buffer + CStr(value);
      buffer := buffer + GT;
      DoLineBreak();
    }

    method PrintTag(n: Node)
      requires n.attrs.Valid()
      modifies this`buffer
      ensures buffer == old(buffer) + Indent(Style(), depth) + TagText(CStr(n.value), n.attrs.pairs)
    {
      hide AttributesText, Indent, AttributeSet.Valid;
      DoIndent();
      buffer := buffer + LT;
      buffer := buffer + CStr(n.value);
      assert unchanged(n.attrs) && unchanged(n.attrs.Nodes());
      PrintAttributes(n.attrs);
    }

    /** The name and the attributes; a lone text child that is not CDATA is announced. */
    method VisitEnterElement(n: Node)
      requires n.attrs.Valid()
      modifies this`buffer, this`depth, this`simpleTextPrint
      ensures depth == old(depth) + 1
      ensures simpleTextPrint == (old(simpleTextPrint) || LoneText(n))
      ensures buffer == old(buffer) + EnterText(Style(), old(depth), n)
    {
      hide Indent, TagText, AttributeSet.Valid;
      PrintTag(n);
      if n.firstChild == null {
        buffer := buffer + SLASH_GT;
        DoLineBreak();
      } else {
        buffer := buffer + GT;
        if n.firstChild.kind.Text? && n.lastChild == n.firstChild && !n.firstChild.kind.cdata {
          simpleTextPrint := true;
        } else {
          DoLineBreak();
        }
      }
      depth := depth + 1;
    }

    method VisitExitElement(n: Node)
      modifies this`buffer, this`depth, this`simpleTextPrint
      ensures depth == old(depth) - 1
      ensures simpleTextPrint == (n.firstChild == null && old(simpleTextPrint))
      ensures buffer == old(buffer) +
                if n.firstChild == null then []
                else (if old(simpleTextPrint) then [] else Indent(Style(), depth))
                     + LT_SLASH + CStr(n.value) + GT + Style().lineBreak
    {
      hide Indent, CStr;
      depth := depth - 1;
      if n.firstChild != null {
        if simpleTextPrint {
          simpleTextPrint := false;
        } else {
          DoIndent();
        }
        buffer := buffer + LT_SLASH;
        buffer := buffer + CStr(n.value);
        buffer := buffer + GT;
        DoLineBreak();
      }
    }

    /** Accept, on each kind of node, with the tree `t` the node stands for: exactly the described text is
        appended, and the depth and the flag come back to what they were. */
    method Accept(n: Node, ghost t: Tree, ghost S: set<Node>, ghost A: set<Attribute>) returns (r: bool)
      requires Original(S, A, n, t)
      requires simpleTextPrint ==> t.kind == Text(false)
      modifies this`buffer, this`depth, this`simpleTextPrint
      ensures r && depth == old(depth) && simpleTextPrint == old(simpleTextPrint)
      ensures buffer == old(buffer) + Visited(Style(), t, depth, simpleTextPrint)
      decreases t, 1
    {
      hide *;
      OriginalFacts(S, A, n, t);
      VisitedText(Style(), t, depth, simpleTextPrint);
      match n.kind {
      case Document => AcceptChildren(n, t, S, A);
      case Element => AcceptElement(n, t, S, A);
      case Comment => VisitComment(n.value);
      case Unknown => VisitUnknown(n.value);
      case Text(cdata) => VisitText(cdata, n.value);
      case Declaration(_, _, _) => VisitDeclaration(n.kind);
      }
      return true;
    }

    method AcceptElement(n: Node, ghost t: Tree, ghost S: set<Node>, ghost A: set<Attribute>)
      requires Original(S, A, n, t) && t.kind.Element? && !simpleTextPrint
      modifies this`buffer, this`depth, this`simpleTextPrint
      ensures depth == old(depth) && !simpleTextPrint
      ensures buffer == old(buffer) + Pretty(Style(), t, depth)
      decreases t, 0, 1
    {
      hide *;
      OriginalFacts(S, A, n, t);
      ElementShape(S, A, n, t);
      ghost var f, d := Style(), depth;
      VisitEnterElement(n);
      assert unchanged(S) && unchanged(set m | m in S :: m.attrs) && unchanged(A);
      AcceptChildren(n, t, S, A);
      VisitExitElement(n);
      ElementText(f, t, d, n);
    }

    /** The loop over the children. */
    method AcceptChildren(n: Node, ghost t: Tree, ghost S: set<Node>, ghost A: set<Attribute>)
      requires Original(S, A, n, t)
      requires simpleTextPrint ==> |t.kids| == 1 && t.kids[0].kind == Text(false)
      modifies this`buffer, this`depth, this`simpleTextPrint
      ensures depth == old(depth) && simpleTextPrint == old(simpleTextPrint)
      ensures buffer == old(buffer) + KidsText(Style(), t.kids, depth, simpleTextPrint)
      decreases t, 0, 0
    {
      hide *;
      OriginalChild(S, A, n, t, 0);
      KidsTextNext(Style(), t.kids, depth, simpleTextPrint, 0);
      var node := n.firstChild;
      ghost var i := 0;
      while node != null
        invariant unchanged(S) && unchanged(set m | m in S :: m.attrs) && unchanged(A) && Original(S, A, n, t)
        invariant 0 <= i <= |n.kids| == |t.kids| && node == if i < |n.kids| then n.kids[i] else null
        invariant depth == old(depth) && simpleTextPrint == old(simpleTextPrint)
        invariant buffer == old(buffer) + KidsText(Style(), t.kids[..i], depth, simpleTextPrint)
        decreases |n.kids| - i
      {
        OriginalChild(S, A, n, t, i);
        KidsTextNext(Style(), t.kids, depth, simpleTextPrint, i);
        var more := Accept(node, t.kids[i], S, A);
        if !more {
          break;
        }
        node := node.next;
        i := i + 1;
      }
      KidsTextNext(Style(), t.kids, depth, simpleTextPrint, i);
    }
  }

  /** What the visits of the first children append. */
  function KidsText(f: Format, ts: seq<Tree>, depth: int, simple: bool): seq<byte> {
    if simple then (if ts == [] then [] else XmlText.Encoded(ts[0].value)) else PrettyAll(f, ts, depth)
  }

  lemma KidsTextNext(f: Format, ts: seq<Tree>, depth: int, simple: bool, i: nat)
    requires i <= |ts| && (simple ==> |ts| == 1 && ts[0].kind == Text(false))
    ensures i == 0 ==> KidsText(f, ts[..i], depth, simple) == []
    ensures i == |ts| ==> KidsText(f, ts[..i], depth, simple) == KidsText(f, ts, depth, simple)
    ensures i < |ts| ==> KidsText(f, ts[..i + 1], depth, simple) ==
                         KidsText(f, ts[..i], depth, simple) + Visited(f, ts[i], depth, simple)
  {
    hide Pretty;
    assert ts[..|ts|] == ts;
    if i < |ts| {
      assert ts[..i + 1][..i] == ts[..i];
    }
  }

  lemma VisitedText(f: Format, t: Tree, depth: int, simple: bool)
    requires simple ==> t.kind == Text(false)
    ensures Visited(f, t, depth, simple) ==
            match t.kind
            case Document => KidsText(f, t.kids, depth, false)
            case Element => Pretty(f, t, depth)
            case Comment => Line(f, depth, COMMENT_START + CStr(t.value) + COMMENT_END)
            case Unknown => Line(f, depth, LT + CStr(t.value) + GT)
            case Text(cdata) =>
              if cdata then Line(f, depth, CDATA_START + CStr(t.value) + CDATA_END)
              else if simple then XmlText.Encoded(t.value) else Line(f, depth, XmlText.Encoded(t.value))
            case Declaration(_, _, _) => Line(f, depth, DeclarationText(t.kind))
  {
  }

  /** The pointers tell what the tree looks like. */
  lemma ElementShape(S: set<Node>, A: set<Attribute>, n: Node, t: Tree)
    requires Original(S, A, n, t) && t.kind.Element?
    ensures n.firstChild == null <==> t.kids == []
    ensures LoneText(n) <==> OnOneLine(t)
    ensures OnOneLine(t) ==> |t.kids| == 1 && t.kids[0].kind == Text(false)
  {
    ViewAt(S, n);
    SnapAt(S, n);
    assert KidsLinked(Snap(S), n);
    if n.kids != [] {
      ChildAt(Snap(S), n, 0);
      ViewAt(S, n.kids[0]);
      assert Represents(View(S), n.kids[0], t.kids[0]);
    }
  }

  /** The three pieces of an element's text. */
  lemma ElementText(f: Format, t: Tree, depth: int, n: Node)
    requires t.kind.Element? && n.value == t.value && n.attrs.pairs == t.attrs
    requires (n.firstChild == null <==> t.kids == []) && (LoneText(n) <==> OnOneLine(t))
    ensures Pretty(f, t, depth) ==
            EnterText(f, depth, n) + KidsText(f, t.kids, depth + 1, LoneText(n)) +
            if n.firstChild == null then []
            else (if LoneText(n) then [] else Indent(f, depth)) + LT_SLASH + CStr(n.value) + GT + f.lineBreak
  {
    hide Indent, TagText;
  }

  /** A node whose only child is text and not CDATA. */
  ghost predicate LoneText(n: Node)
    reads n, if n.firstChild == null then {} else {n.firstChild}
  {
    n.firstChild != null && n.firstChild.kind == Text(false) && n.lastChild == n.firstChild
  }

  ghost function EnterText(f: Format, depth: int, n: Node): seq<byte>
    reads n, n.attrs, if n.firstChild == null then {} else {n.firstChild}
  {
    Indent(f, depth) + TagText(CStr(n.value), n.attrs.pairs)
    + if n.firstChild == null then SLASH_GT + f.lineBreak else if LoneText(n) then GT else GT + f.lineBreak
  }

  /** What a visit appends, with the flag set or not. */
  function Visited(f: Format, t: Tree, depth: int, simple: bool): seq<byte> {
    if simple then XmlText.Encoded(t.value) else Pretty(f, t, depth)
  }

  // ----- reading a printed attribute -----

  /** Whether `c` stands in a piece of text that EncodeString passes through as a reference. */
  predicate PassedRaw(s: seq<byte>, i: nat, c: byte)
    requires i <= |s|
    decreases |s| - i
  {
    if i == |s| then false
    else if XmlText.RefAt(s, i) then c in s[i..XmlText.PassEnd(s, i)] || PassedRaw(s, XmlText.PassEnd(s, i), c)
    else PassedRaw(s, i + 1, c)
  }

  /** A quote is written raw exactly when it stands in a passed reference. */
  lemma {:induction false} RawExactly(s: seq<byte>, i: nat, c: byte)
    requires i <= |s| && (c == QUOTE || c == APOS)
    ensures c in XmlText.EncodedFrom(s, i) <==> PassedRaw(s, i, c)
    ensures PassedRaw(s, i, c) ==> c in s
    decreases |s| - i
  {
    hide XmlText.Escape, XmlText.PassEnd;
    if i < |s| {
      XmlText.EscapeClean(s[i]);
      RawExactly(s, if XmlText.RefAt(s, i) then XmlText.PassEnd(s, i) else i + 1, c);
    }
  }

  /** The chosen delimiter ends a printed value too early exactly when the value has a double quote and an
      apostrophe in a passed reference. */
  lemma DelimiterExactly(p: Pair)
    ensures var q: byte := if 34 in p.value then 39 else 34;
            && AttributeText(p) == XmlText.Encoded(p.name) + [61, q] + XmlText.Encoded(p.value) + [q]
            && (q in XmlText.Encoded(p.value) <==> 34 in p.value && PassedRaw(p.value, 0, 39))
  {
    hide XmlText.EncodedFrom;
    RawExactly(p.value, 0, QUOTE);
    RawExactly(p.value, 0, APOS);
  }

  /** Without references the name and the value of a printed attribute can be read back, and only the
      delimiters are quotes. */
  lemma AttributeReadable(p: Pair)
    requires !XmlText.HasRef(p.name, 0) && !XmlText.HasRef(p.value, 0)
    ensures var q: byte := if 34 in p.value then 39 else 34;
            var n, v := XmlText.Encoded(p.name), XmlText.Encoded(p.value);
            && AttributeText(p) == n + [61, q] + v + [q]
            && 34 !in n && 39 !in n && 34 !in v && 39 !in v
            && XmlText.ReadAll(n) == Some(p.name) && XmlText.ReadAll(v) == Some(p.value)
  {
    hide XmlText.EncodedFrom, XmlText.ReadAll;
    XmlText.NothingRaw(p.name, 0);
    XmlText.NothingRaw(p.value, 0);
    XmlText.InvertibleExactly(p.name);
    XmlText.InvertibleExactly(p.value);
  }

  /** A double quote with a passed apostrophe: "&#x'; as a value. */
  lemma DelimiterLost()
    ensures var p := Pair([97], [34, 38, 35, 120, 39, 59]); 39 in XmlText.Encoded(p.value) && 34 in p.value
  {
    var v: seq<byte> := [34, 38, 35, 120, 39, 59];
    assert XmlText.RefAt(v, 1) && v[4] == 39;
    assert v[5] == XmlText.SEMI && XmlText.PassEnd(v, 1) == 5;
    XmlText.RawInsideReference(v, 1, 4);
    assert XmlText.EncodedFrom(v, 0) == XmlText.Escape(v[0]) + XmlText.EncodedFrom(v, 1);
  }
}
