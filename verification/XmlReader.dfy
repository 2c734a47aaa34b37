/** A reader for the part of XML 1.0 that documents here are made of: sections 2.1 to 2.8 for text, comments, CDATA
    sections and the declaration, 3.1 for tags and attributes, 4.1 and 4.6 for references. It keeps all white
    space, as section 2.10 asks. */
module XmlReader {
  import opened Bytes
  import opened XmlAttributes
  import opened XmlNodes
  import opened XmlTree
  import XmlText

  /** What was read and what is left, or that it is not well formed. */
  datatype Read<T> = Failed | Got(value: T, rest: seq<byte>)

  // ----- characters and names, section 2.3 -----

  predicate White(b: byte) {
    b as char == ' ' || b as char == '\t' || b as char == '\r' || b as char == '\n'
  }

  predicate Letter(b: byte) {
    'a' <= b as char <= 'z' || 'A' <= b as char <= 'Z'
  }

  predicate NameStart(b: byte) {
    Letter(b) || b as char == ':' || b as char == '_' || b >= 128
  }

  predicate NameChar(b: byte) {
    NameStart(b) || '0' <= b as char <= '9' || b as char == '-' || b as char == '.'
  }

  predicate IsName(n: seq<byte>) {
    n != [] && NameStart(n[0]) && forall i | 0 <= i < |n| :: NameChar(n[i])
  }

  function NameLength(p: seq<byte>): (n: nat)
    ensures n <= |p|
  {
    if p == [] || !NameChar(p[0]) then 0 else 1 + NameLength(p[1..])
  }

  function ReadName(p: seq<byte>): (r: Read<seq<byte>>)
    ensures r.Got? ==> |r.rest| < |p|
  {
    var n := NameLength(p);
    if n == 0 || !NameStart(p[0]) then Failed else Got(p[..n], p[n..])
  }

  function SkipWhite(p: seq<byte>): (r: seq<byte>)
    ensures |r| <= |p|
  {
    if p != [] && White(p[0]) then SkipWhite(p[1..]) else p
  }

  /** The bytes in front of the first `mark`, which is passed over. */
  function Until(p: seq<byte>, mark: seq<byte>): (r: Read<seq<byte>>)
    requires mark != []
    ensures r.Got? ==> |r.rest| < |p|
  {
    if mark <= p then Got([], p[|mark|..])
    else if p == [] then Failed
    else
      match Until(p[1..], mark)
      case Failed => Failed
      case Got(v, rest) => Got([p[0]] + v, rest)
  }

  // ----- tags, section 3.1 -----

  /** The value between two quotes of one kind, its references expanded. */
  function ReadValue(p: seq<byte>): (r: Read<seq<byte>>)
    ensures r.Got? ==> |r.rest| < |p|
  {
    if p == [] || (p[0] as char != '"' && p[0] as char != '\'') then Failed
    else
      match Until(p[1..], [p[0]])
      case Failed => Failed
      case Got(raw, rest) =>
        if Ascii("<")[0] in raw then Failed
        else
          match XmlText.ReadAll(raw)
          case None => Failed
          case Some(v) => Got(v, rest)
  }

  function ReadAttribute(p: seq<byte>): (r: Read<Pair>)
    ensures r.Got? ==> |r.rest| < |p|
  {
    match ReadName(p)
    case Failed => Failed
    case Got(name, rest) =>
      var eq := SkipWhite(rest);
      if eq == [] || eq[0] as char != '=' then Failed
      else
        match ReadValue(SkipWhite(eq[1..]))
        case Failed => Failed
        case Got(value, later) => Got(Pair(name, value), later)
  }

  /** The attributes up to the end of the tag, each with white space in front. */
  function ReadAttributes(p: seq<byte>): (r: Read<seq<Pair>>)
    ensures r.Got? ==> |r.rest| <= |p| && r.rest != []
    decreases |p|
  {
    var q := SkipWhite(p);
    if q == [] then Failed
    else if q[0] as char == '/' || q[0] as char == '>' then Got([], q)
    else if q == p then Failed
    else
      match ReadAttribute(q)
      case Failed => Failed
      case Got(a, rest) =>
        match ReadAttributes(rest)
        case Failed => Failed
        case Got(more, later) => Got([a] + more, later)
  }

  /** An element, behind its '<': the end tag repeats the name. */
  function ReadElement(p: seq<byte>): (r: Read<Tree>)
    ensures r.Got? ==> |r.rest| < |p|
    decreases |p|, 2
  {
    match ReadName(p)
    case Failed => Failed
    case Got(name, tag) =>
      match ReadAttributes(tag)
      case Failed => Failed
      case Got(attrs, end) =>
        if Ascii("/>") <= end then Got(Tree(Element, name, attrs, []), end[2..])
        else if end[0] as char != '>' then Failed
        else
          match ReadContent(end[1..])
          case Failed => Failed
          case Got(kids, close) => ReadEndTag(close, name, Tree(Element, name, attrs, kids))
  }

  function ReadEndTag(p: seq<byte>, name: seq<byte>, t: Tree): (r: Read<Tree>)
    ensures r.Got? ==> |r.rest| < |p|
  {
    if !(Ascii("</") <= p) then Failed
    else
      match ReadName(p[2..])
      case Failed => Failed
      case Got(n, rest) =>
        var end := SkipWhite(rest);
        if n != name || end == [] || end[0] as char != '>' then Failed else Got(t, end[1..])
  }

  // ----- the declaration, section 2.8 -----

  /** One part of the declaration, empty when it is not there. */
  function ReadPart(p: seq<byte>, name: string): (r: Read<seq<byte>>)
    ensures r.Got? ==> |r.rest| <= |p|
  {
    var q, start := SkipWhite(p), Ascii(name) + Ascii("=\"");
    if start <= q then Until(q[|start|..], Ascii("\"")) else Got([], p)
  }

  function ReadDeclaration(p: seq<byte>): (r: Read<Tree>)
    ensures r.Got? ==> |r.rest| < |p|
  {
    match ReadPart(p, "version")
    case Failed => Failed
    case Got(version, p1) =>
      match ReadPart(p1, "encoding")
      case Failed => Failed
      case Got(encoding, p2) =>
        match ReadPart(p2, "standalone")
        case Failed => Failed
        case Got(standalone, p3) =>
          var end := SkipWhite(p3);
          if !(Ascii("?>") <= end) then Failed
          else Got(Tree(Declaration(version, encoding, standalone), [], [], []), end[2..])
  }

  // ----- content, sections 2.4 to 2.7 -----

  /** Character data goes up to the next '<'. */
  function TextLength(p: seq<byte>): (n: nat)
    ensures n <= |p|
  {
    if p == [] || p[0] as char == '<' then 0 else 1 + TextLength(p[1..])
  }

  function Leaf(kind: Kind, value: seq<byte>): Tree {
    Tree(kind, value, [], [])
  }

  /** One piece of content. In a comment two hyphens stand only at the end. */
  function ReadPiece(p: seq<byte>): (r: Read<Tree>)
    requires p != []
    ensures r.Got? ==> |r.rest| < |p|
    decreases |p|, 0
  {
    if p[0] as char != '<' then
      var n := TextLength(p);
      match XmlText.ReadAll(p[..n])
      case None => Failed
      case Some(v) => Got(Leaf(Text(false), v), p[n..])
    else if Ascii("<!--") <= p then
      match Until(p[4..], Ascii("--"))
      case Failed => Failed
      case Got(v, rest) => if Ascii(">") <= rest then Got(Leaf(Comment, v), rest[1..]) else Failed
    else if Ascii("<![CDATA[") <= p then
      match Until(p[9..], Ascii("]]>"))
      case Failed => Failed
      case Got(v, rest) => Got(Leaf(Text(true), v), rest)
    else if Ascii("<?xml ") <= p then
      ReadDeclaration(p[5..])
    else if Ascii("<!") <= p then
      match Until(p[1..], Ascii(">"))
      case Failed => Failed
      case Got(v, rest) => Got(Leaf(Unknown, v), rest)
    else
      ReadElement(p[1..])
  }

  /** The pieces up to the next end tag, or to the end. */
  function ReadContent(p: seq<byte>): (r: Read<seq<Tree>>)
    ensures r.Got? ==> |r.rest| <= |p|
    decreases |p|, 1
  {
    if p == [] || Ascii("</") <= p then Got([], p)
    else
      match ReadPiece(p)
      case Failed => Failed
      case Got(t, rest) =>
        match ReadContent(rest)
        case Failed => Failed
        case Got(more, later) => Got([t] + more, later)
  }
}
