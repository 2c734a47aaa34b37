/** TiXmlBase::EncodeString and the entity reader that undoes it (legacy, one byte per character). */
module XmlText {
  import opened Bytes

  const AMP: byte := 38      // &
  const HASH: byte := 35     // #
  const LOWER_X: byte := 120 // x
  const SEMI: byte := 59     // ;

  // ----- writing -----

  function HexDigit(v: nat): (d: byte)
    requires v < 16
  {
    if v < 10 then 48 + v else 65 + (v - 10)
  }

  /** How one character is written. */
  function Escape(c: byte): (r: seq<byte>)
    ensures r != []
  {
    if c == 38 then [38, 97, 109, 112, 59]             // &amp;
    else if c == 60 then [38, 108, 116, 59]            // &lt;
    else if c == 62 then [38, 103, 116, 59]            // &gt;
    else if c == 34 then [38, 113, 117, 111, 116, 59]  // &quot;
    else if c == 39 then [38, 97, 112, 111, 115, 59]   // &apos;
    else if c < 32 then [38, 35, 120, HexDigit(c / 16), HexDigit(c % 16), 59]
    else [c]
  }

  /** Whether a hexadecimal character reference seems to start at `i`. */
  predicate RefAt(s: seq<byte>, i: nat) {
    i + 2 < |s| && s[i] == AMP && s[i + 1] == HASH && s[i + 2] == LOWER_X
  }

  /** Where the passed-through text that starts at `i` stops: at the next ';', or at the last character. */
  function PassEnd(s: seq<byte>, i: nat): (j: nat)
    requires i + 1 < |s|
    ensures i < j < |s|
    ensures SEMI !in s[i + 1..j]
    ensures s[j] == SEMI || j == |s| - 1
    decreases |s| - i
  {
    if s[i + 1] == SEMI || i + 1 == |s| - 1 then i + 1
    else
      var j := PassEnd(s, i + 1);
      assert s[i + 1..j] == [s[i + 1]] + s[i + 2..j];
      j
  }

  /** What is written for the characters from `i` on. */
  function EncodedFrom(s: seq<byte>, i: nat): seq<byte>
    requires i <= |s|
    decreases |s| - i
  {
    if i == |s| then []
    else if RefAt(s, i) then s[i..PassEnd(s, i)] + EncodedFrom(s, PassEnd(s, i))
    else Escape(s[i]) + EncodedFrom(s, i + 1)
  }

  function Encoded(s: seq<byte>): seq<byte> {
    EncodedFrom(s, 0)
  }

  /** The loop, with its inner loop that passes a reference through up to, not including, its ';'. */
  method EncodeString(str: seq<byte>, out0: seq<byte>) returns (outString: seq<byte>)
    ensures outString == out0 + Encoded(str)
  {
    hide Escape, EncodedFrom;
    outString := out0;
    var i := 0;
    while i < |str|
      invariant 0 <= i <= |str|
      invariant outString + EncodedFrom(str, i) == out0 + Encoded(str)
    {
      EncodedAt(str, i);
      var c := str[i];
      if c == AMP && i < |str| - 2 && str[i + 1] == HASH && str[i + 2] == LOWER_X {
        ghost var start, before := i, outString;
        while i < |str| - 1
          invariant start <= i <= PassEnd(str, start)
          invariant i < PassEnd(str, start) ==> PassEnd(str, i) == PassEnd(str, start)
          invariant outString == before + str[start..i]
          invariant i == PassEnd(str, start) ==> i == |str| - 1
          decreases |str| - i
        {
          outString := outString + [str[i]];
          i := i + 1;
          if str[i] == SEMI {
            break;
          }
        }
        assert outString == before + str[start..PassEnd(str, start)];
      } else {
        outString := outString + Escape(c);
        i := i + 1;
      }
    }
    EncodedEnd(str);
  }

  // ----- reading -----

  /** The byte at `k`, zero at the end of a C string. */
  function At(p: seq<byte>, k: nat): byte {
    if k < |p| then p[k] else 0
  }

  /** strchr for ';' from `k` on: it stops at a zero byte. */
  function FindSemi(p: seq<byte>, k: nat): (r: Option<nat>)
    ensures r.Some? ==> k <= r.value < |p| && p[r.value] == SEMI && SEMI !in p[k..r.value]
    decreases |p| - k
  {
    if At(p, k) == 0 then None
    else if p[k] == SEMI then Some(k)
    else
      var r := FindSemi(p, k + 1);
      assert r.Some? ==> p[k..r.value] == [p[k]] + p[k + 1..r.value];
      r
  }

  function DigitValue(c: byte, hex: bool): Option<nat> {
    if 48 <= c <= 57 then Some(c - 48)
    else if hex && 97 <= c <= 102 then Some(c - 97 + 10)
    else if hex && 65 <= c <= 70 then Some(c - 65 + 10)
    else None
  }

  /** The backward scan over the digits from `q` to the mark ('x' or '#'), with its 32-bit multiplier. */
  function Scan(p: seq<byte>, q: nat, hex: bool, ucs: uint64, mult: uint32): Option<uint64>
    requires q < |p|
  {
    if p[q] == (if hex then LOWER_X else HASH) then Some(ucs)
    else
      var d := DigitValue(p[q], hex);
      if d.None? || q == 0 then None
      else Scan(p, q - 1, hex, AddDigit(ucs, mult, d.value), mult * (if hex then 16 else 10) % 0x1_0000_0000)
  }

  /** `ucs += mult * digit`, an unsigned long sum of a 32-bit product. */
  function AddDigit(ucs: uint64, mult: uint32, digit: nat): uint64 {
    (ucs + mult * digit % 0x1_0000_0000) % 0x1_0000_0000_0000_0000
  }

  lemma AddDigitSmall(ucs: nat, digit: nat)
    requires ucs < 0x1000 && digit < 16
    ensures AddDigit(ucs, 1, digit) == ucs + digit && AddDigit(ucs, 16, digit) == ucs + 16 * digit
  {
    Unwrapped(1 * digit, 0x1_0000_0000);
    Unwrapped(16 * digit, 0x1_0000_0000);
    Unwrapped(ucs + digit, 0x1_0000_0000_0000_0000);
    Unwrapped(ucs + 16 * digit, 0x1_0000_0000_0000_0000);
  }

  lemma Unwrapped(n: nat, m: nat)
    requires n < m
    ensures n % m == n
  {
  }

  /** One character read: its bytes (none for a stray '&') and the length of its source text. */
  datatype Char = Malformed | Char(bytes: seq<byte>, length: nat)

  function NumericEntity(p: seq<byte>, hex: bool): Char {
    var first := if hex then 3 else 2;
    if At(p, first) == 0 then Malformed
    else
      match FindSemi(p, first)
      case None => Malformed
      case Some(q) =>
        match Scan(p, q - 1, hex, 0, 1)
        case None => Malformed
        case Some(ucs) => Char([ucs % 0x100], q + 1)
  }

  /** The five predefined entities, section 4.6 of XML 1.0. */
  function NamedEntity(p: seq<byte>): Char {
    if Ascii("&amp;") <= p then Char(Ascii("&"), 5)
    else if Ascii("&lt;") <= p then Char(Ascii("<"), 4)
    else if Ascii("&gt;") <= p then Char(Ascii(">"), 4)
    else if Ascii("&quot;") <= p then Char(Ascii("\""), 6)
    else if Ascii("&apos;") <= p then Char(Ascii("'"), 6)
    else Char([], 1)
  }

  /** GetChar, with GetEntity for a leading '&'. */
  function NextChar(p: seq<byte>): (r: Char)
    requires p != []
    ensures r.Char? ==> 1 <= r.length <= |p| && |r.bytes| <= 1
  {
    if p[0] != AMP then Char([p[0]], 1)
    else if At(p, 1) == HASH && At(p, 2) != 0 then NumericEntity(p, At(p, 2) == LOWER_X)
    else NamedEntity(p)
  }

  /** Reads a whole C string; a malformed reference makes the reader give up. */
  function ReadAll(p: seq<byte>): Option<seq<byte>>
    decreases |p|
  {
    if At(p, 0) == 0 then Some([])
    else
      match NextChar(p)
      case Malformed => None
      case Char(bytes, n) =>
        match ReadAll(p[n..])
        case None => None
        case Some(rest) => Some(bytes + rest)
  }

  // ----- encoding is invertible exactly without references -----

  predicate HasRef(s: seq<byte>, from: nat) {
    exists i | from <= i < |s| :: RefAt(s, i)
  }

  /** The scan over the two digits written for a control character. */
  lemma ReadControl(c: byte, rest: seq<byte>)
    requires c < 32
    ensures NextChar(Escape(c) + rest) == Char([c], |Escape(c)|)
  {
    hide FindSemi, Scan, HexDigit, NamedEntity;
    var hi, lo := HexDigit(c / 16), HexDigit(c % 16);
    var p := [38, 35, 120, hi, lo, 59] + rest;
    assert Escape(c) == [38, 35, 120, hi, lo, 59];
    DigitOfHex(c / 16);
    DigitOfHex(c % 16);
    assert p[0] == 38 && p[1] == 35 && p[2] == 120 && p[3] == hi && p[4] == lo && p[5] == 59;
    FindSemiDigits(p);
    ScanDigits(p, c / 16, c % 16);
    assert NextChar(p) == NumericEntity(p, true);
    assert c % 16 + 16 * (c / 16) == c;
  }

  lemma FindSemiDigits(p: seq<byte>)
    requires |p| > 5 && p[3] !in {0, SEMI} && p[4] !in {0, SEMI} && p[5] == SEMI
    ensures FindSemi(p, 3) == Some(5)
  {
    assert FindSemi(p, 5) == Some(5);
    assert FindSemi(p, 4) == Some(5);
  }

  lemma DigitOfHex(v: nat)
    requires v < 16
    ensures DigitValue(HexDigit(v), true) == Some(v) && HexDigit(v) !in {0, SEMI, LOWER_X}
  {
  }

  /** One digit of the scan, while nothing wraps. */
  lemma ScanDigit(p: seq<byte>, q: nat, d: nat, ucs: nat, mult: nat)
    requires 0 < q < |p| && d < 16 && p[q] == HexDigit(d) && ucs < 0x1000 && (mult == 1 || mult == 16)
    ensures Scan(p, q, true, ucs, mult) == Scan(p, q - 1, true, ucs + mult * d, mult * 16)
  {
    hide HexDigit, DigitValue, AddDigit;
    DigitOfHex(d);
    AddDigitSmall(ucs, d);
    assert mult * d == if mult == 1 then d else 16 * d;
  }

  lemma ScanDigits(p: seq<byte>, hi: nat, lo: nat)
    requires |p| > 4 && hi < 16 && lo < 16 && p[2] == LOWER_X && p[3] == HexDigit(hi) && p[4] == HexDigit(lo)
    ensures Scan(p, 4, true, 0, 1) == Some(lo + 16 * hi)
  {
    ScanDigit(p, 4, lo, 0, 1);
    ScanDigit(p, 3, hi, lo, 16);
    hide HexDigit;
    assert Scan(p, 2, true, lo + 16 * hi, 256) == Some(lo + 16 * hi);
  }

  /** How each character is written, in the names of section 4.6 and the notation of section 4.1 of XML 1.0. */
  lemma EscapeLiterals(c: byte)
    ensures Escape(c) ==
            if [c] == Ascii("&") then Ascii("&amp;")
            else if [c] == Ascii("<") then Ascii("&lt;")
            else if [c] == Ascii(">") then Ascii("&gt;")
            else if [c] == Ascii("\"") then Ascii("&quot;")
            else if [c] == Ascii("'") then Ascii("&apos;")
            else if c < 32 then
              Ascii("&#x") + [Ascii("0123456789ABCDEF")[c / 16], Ascii("0123456789ABCDEF")[c % 16]] + Ascii(";")
            else [c]
  {
    hide HexDigit, Ascii;
    NameLiterals();
    if c < 32 {
      HexLiteral(c / 16);
      HexLiteral(c % 16);
    }
  }

  lemma NameLiterals()
    ensures Ascii("&") == [38] && Ascii("<") == [60] && Ascii(">") == [62] && Ascii("\"") == [34] && Ascii("'") == [39]
    ensures Ascii("&#x") == [38, 35, 120] && Ascii(";") == [59]
    ensures Ascii("&amp;") == [38, 97, 109, 112, 59]
    ensures Ascii("&lt;") == [38, 108, 116, 59]
    ensures Ascii("&gt;") == [38, 103, 116, 59]
    ensures Ascii("&quot;") == [38, 113, 117, 111, 116, 59]
    ensures Ascii("&apos;") == [38, 97, 112, 111, 115, 59]
  {
  }

  lemma HexLiteral(v: nat)
    requires v < 16
    ensures HexDigit(v) == Ascii("0123456789ABCDEF")[v]
  {
  }

  /** The entity names tell each other apart, and none is a character reference. */
  lemma NamedStart(name: seq<byte>, rest: seq<byte>)
    requires name in {Ascii("&amp;"), Ascii("&lt;"), Ascii("&gt;"), Ascii("&quot;"), Ascii("&apos;")}
    ensures NextChar(name + rest) == NamedEntity(name + rest)
    ensures NamedEntity(name + rest) ==
            Char(if name == Ascii("&amp;") then Ascii("&") else if name == Ascii("&lt;") then Ascii("<")
                 else if name == Ascii("&gt;") then Ascii(">") else if name == Ascii("&quot;") then Ascii("\"")
                 else Ascii("'"), |name|)
  {
    var p := name + rest;
    assert name <= p;
    assert p[0] == name[0] && p[1] == name[1] && p[2] == name[2];
    assert Ascii("&amp;")[1] == 97 && Ascii("&amp;")[2] == 109;
    assert Ascii("&lt;")[1] == 108 && Ascii("&gt;")[1] == 103 && Ascii("&quot;")[1] == 113;
    assert Ascii("&apos;")[1] == 97 && Ascii("&apos;")[2] == 112;
    assert name[0] == AMP;
  }

  /** Every escaped character is read back, whatever follows it. */
  lemma ReadEscape(c: byte, rest: seq<byte>)
    ensures At(Escape(c) + rest, 0) != 0
    ensures NextChar(Escape(c) + rest) == Char([c], |Escape(c)|)
  {
    var p := Escape(c) + rest;
    EscapeLiterals(c);
    if c < 32 {
      ReadControl(c, rest);
    } else if c in {38, 60, 62, 34, 39} {
      NamedStart(Escape(c), rest);
    }
  }

  lemma {:induction false} ReadPlain(s: seq<byte>, i: nat)
    requires i <= |s| && !HasRef(s, i)
    ensures ReadAll(EncodedFrom(s, i)) == Some(s[i..])
    decreases |s| - i
  {
    hide Escape, NextChar;
    if i < |s| {
      var rest := EncodedFrom(s, i + 1);
      ReadEscape(s[i], rest);
      var p := EncodedFrom(s, i);
      assert !RefAt(s, i);
      assert p == Escape(s[i]) + rest;
      assert p[|Escape(s[i])|..] == rest;
      ReadPlain(s, i + 1);
      assert s[i..] == [s[i]] + s[i + 1..];
    } else {
      assert s[i..] == [];
    }
  }

  /** A passed-through reference is read as one character ending at its first ';', or not at all. */
  lemma ReadReference(p: seq<byte>)
    requires RefAt(p, 0)
    ensures NextChar(p).Char? ==> |NextChar(p).bytes| == 1 && FindSemi(p, 3) == Some(NextChar(p).length - 1)
  {
  }

  /** The first ';' behind position `k` is at `m` when there is none in between. */
  lemma {:induction false} FindSemiBound(p: seq<byte>, k: nat, m: nat)
    requires k <= m <= |p| && SEMI !in p[k..m]
    ensures FindSemi(p, k).Some? ==> m <= FindSemi(p, k).value
    ensures m < |p| && p[m] == SEMI && FindSemi(p, k).Some? ==> FindSemi(p, k).value == m
    decreases m - k
  {
    if k < m && At(p, k) != 0 {
      assert p[k] == p[k..m][0];
      assert p[k + 1..m] == p[k..m][1..];
      FindSemiBound(p, k + 1, m);
    }
  }

  /** An escaped character holds a ';' only as its last byte. */
  lemma EscapeSemi(c: byte)
    ensures SEMI !in Escape(c)[..|Escape(c)| - 1]
  {
  }

  lemma EncodedAt(s: seq<byte>, i: nat)
    requires i < |s|
    ensures RefAt(s, i) ==> EncodedFrom(s, i) == s[i..PassEnd(s, i)] + EncodedFrom(s, PassEnd(s, i))
    ensures !RefAt(s, i) ==> EncodedFrom(s, i) == Escape(s[i]) + EncodedFrom(s, i + 1)
    ensures i == |s| - 1 ==> EncodedFrom(s, i + 1) == []
  {
    hide Escape, PassEnd;
  }

  lemma EncodedEnd(s: seq<byte>)
    ensures EncodedFrom(s, |s|) == []
  {
  }

  /** A passed-through reference and the character that ends it. */
  lemma PassThroughText(s: seq<byte>, i: nat)
    requires i < |s| && RefAt(s, i)
    ensures PassEnd(s, i) >= i + 2 && !RefAt(s, PassEnd(s, i))
    ensures EncodedFrom(s, i) == s[i..PassEnd(s, i)] + Escape(s[PassEnd(s, i)]) + EncodedFrom(s, PassEnd(s, i) + 1)
    ensures s[PassEnd(s, i)] != SEMI ==> EncodedFrom(s, PassEnd(s, i) + 1) == []
  {
    hide Escape, PassEnd, EncodedFrom;
    var j := PassEnd(s, i);
    assert j != i + 1;
    assert !RefAt(s, j);
    EncodedAt(s, i);
    EncodedAt(s, j);
  }

  /** It starts as it did in the string. */
  lemma PassThroughStart(s: seq<byte>, i: nat)
    requires i < |s| && RefAt(s, i)
    ensures RefAt(EncodedFrom(s, i), 0)
  {
    hide Escape, PassEnd, EncodedFrom;
    PassThroughText(s, i);
    var j := PassEnd(s, i);
    var esc := Escape(s[j]);
    var p := EncodedFrom(s, i);
    assert p[0] == s[i] && p[1] == s[i + 1];
    if j == i + 2 {
      PlainEscape(LOWER_X);
      assert p[2] == esc[0];
    } else {
      assert p[2] == s[i + 2];
    }
  }

  /** The passed-through characters and a last escape hold no ';' before their end. */
  lemma NoSemiInside(s: seq<byte>, i: nat, esc: seq<byte>)
    requires i + 2 < |s| && i + 2 <= PassEnd(s, i) && esc != []
    requires SEMI !in esc[..|esc| - 1] && s[i + 1] != SEMI && s[i + 2] != SEMI
    ensures var p := s[i..PassEnd(s, i)] + esc; |p| == 3 || (|p| > 3 && SEMI !in p[3..|p| - 1])
  {
    hide PassEnd;
    var j := PassEnd(s, i);
    var p := s[i..j] + esc;
    forall k | 3 <= k < |p| - 1
      ensures p[k] != SEMI
    {
      if k < j - i {
        assert p[k] == s[i + 1..j][k - 1];
      } else {
        assert p[k] == esc[..|esc| - 1][k - (j - i)];
      }
    }
  }

  /** What is read back from a passed-through reference: one character for at least three. */
  lemma PassThroughShrinks(s: seq<byte>, i: nat)
    requires i < |s| && RefAt(s, i) && NextChar(EncodedFrom(s, i)).Char?
    ensures var p, j := EncodedFrom(s, i), PassEnd(s, i);
            && |NextChar(p).bytes| == 1
            && p[NextChar(p).length..] == if s[j] == SEMI then EncodedFrom(s, j + 1) else []
  {
    hide NextChar, Escape, EncodedFrom, PassEnd;
    var p, j := EncodedFrom(s, i), PassEnd(s, i);
    var esc, more := Escape(s[j]), EncodedFrom(s, j + 1);
    PassThroughText(s, i);
    PassThroughStart(s, i);
    ReadReference(p);
    EscapeSemi(s[j]);
    NoSemiInside(s, i, esc);
    var front := s[i..j] + esc;
    var m := |front| - 1;
    assert p == front + more;
    if |front| > 3 {
      assert p[3..m] == front[3..m];
      FindSemiBound(p, 3, m);
    }
    if s[j] == SEMI {
      PlainEscape(SEMI);
      assert p[m] == SEMI;
      assert p[m + 1..] == more;
    } else {
      assert p == front;
    }
  }

  lemma PlainEscape(c: byte)
    requires c >= 32 && c != 38 && c != 60 && c != 62 && c != 34 && c != 39
    ensures Escape(c) == [c]
  {
  }

  lemma ReadStep(p: seq<byte>)
    requires ReadAll(p).Some?
    ensures At(p, 0) == 0 ==> ReadAll(p).value == []
    ensures At(p, 0) != 0 ==>
              && NextChar(p).Char?
              && ReadAll(p[NextChar(p).length..]).Some?
              && ReadAll(p).value == NextChar(p).bytes + ReadAll(p[NextChar(p).length..]).value
  {
    hide NextChar;
  }

  /** Reading an encoding never gives more bytes than were encoded, and fewer once a reference was
      passed through. */
  lemma {:induction false} ReadLength(s: seq<byte>, i: nat)
    requires i <= |s| && ReadAll(EncodedFrom(s, i)).Some?
    ensures |ReadAll(EncodedFrom(s, i)).value| <= |s| - i
    ensures HasRef(s, i) ==> |ReadAll(EncodedFrom(s, i)).value| < |s| - i
    decreases |s| - i
  {
    hide Escape, NextChar, PassEnd, ReadAll, EncodedFrom;
    var p := EncodedFrom(s, i);
    ReadStep(p);
    if i == |s| {
      assert p == [] by { EncodedEnd(s); }
    } else {
      EncodedAt(s, i);
      if RefAt(s, i) {
        if At(p, 0) != 0 {
          PassThroughShrinks(s, i);
          PassThroughText(s, i);
          if s[PassEnd(s, i)] == SEMI {
            ReadLength(s, PassEnd(s, i) + 1);
          } else {
            ReadStep([]);
          }
        }
      } else {
        var rest := EncodedFrom(s, i + 1);
        ReadEscape(s[i], rest);
        assert p[|Escape(s[i])|..] == rest;
        ReadLength(s, i + 1);
      }
    }
  }

  /** Encoding and reading back is the identity on exactly the strings without "&#x". */
  lemma InvertibleExactly(s: seq<byte>)
    ensures ReadAll(Encoded(s)) == Some(s) <==> NoReference(s)
    ensures NoReference(s) <==> !HasRef(s, 0)
  {
    NoReferenceIs(s);
    if HasRef(s, 0) {
      if ReadAll(Encoded(s)).Some? {
        ReadLength(s, 0);
      }
    } else {
      ReadPlain(s, 0);
      assert s[0..] == s;
    }
  }

  /** Characters that must not stand raw in an attribute value or in text. */
  predicate Special(c: byte) {
    c < 32 || c == 60 || c == 62 || c == 34 || c == 39
  }

  lemma EscapeClean(c: byte)
    ensures forall k | 0 <= k < |Escape(c)| :: !Special(Escape(c)[k])
  {
    if c < 32 {
      assert HexDigit(c / 16) >= 48 && HexDigit(c % 16) >= 48;
    }
  }

  /** Without "&#x" nothing special is written raw. */
  lemma {:induction false} NothingRaw(s: seq<byte>, i: nat)
    requires i <= |s| && !HasRef(s, i)
    ensures forall c | c in EncodedFrom(s, i) :: !Special(c)
    decreases |s| - i
  {
    hide Escape;
    if i < |s| {
      EscapeClean(s[i]);
      NothingRaw(s, i + 1);
    }
  }

  /** With "&#x" the special characters of the reference, up to its ';', are written raw. */
  lemma RawInsideReference(s: seq<byte>, i: nat, k: nat)
    requires i < |s| && RefAt(s, i) && i <= k < PassEnd(s, i)
    ensures s[k] in EncodedFrom(s, i)
  {
    assert EncodedFrom(s, i)[k - i] == s[i..PassEnd(s, i)][k - i];
  }

  // ----- what is written, byte by byte -----

  /** "&#x" stands nowhere in `s`. */
  ghost predicate NoReference(s: seq<byte>) {
    forall i | 0 <= i <= |s| :: !(Ascii("&#x") <= s[i..])
  }

  lemma RefIs(s: seq<byte>, i: nat)
    requires i <= |s|
    ensures RefAt(s, i) <==> Ascii("&#x") <= s[i..]
  {
    assert Ascii("&#x") == [38, 35, 120];
    if i + 2 < |s| {
      assert s[i..][0] == s[i] && s[i..][1] == s[i + 1] && s[i..][2] == s[i + 2];
      assert s[i..][..3] == [s[i], s[i + 1], s[i + 2]];
    }
  }

  lemma NoReferenceIs(s: seq<byte>)
    ensures NoReference(s) <==> !HasRef(s, 0)
  {
    forall i | 0 <= i <= |s|
      ensures RefAt(s, i) <==> Ascii("&#x") <= s[i..]
    {
      RefIs(s, i);
    }
    if HasRef(s, 0) {
      var i :| 0 <= i < |s| && RefAt(s, i);
      assert Ascii("&#x") <= s[i..];
    }
    hide Ascii;
  }

  /** One byte alone: the five predefined entities, two upper-case digits for a control character, and every
      other byte as it is. */
  lemma EncodedByte(c: byte)
    ensures Encoded([c]) ==
            if [c] == Ascii("&") then Ascii("&amp;")
            else if [c] == Ascii("<") then Ascii("&lt;")
            else if [c] == Ascii(">") then Ascii("&gt;")
            else if [c] == Ascii("\"") then Ascii("&quot;")
            else if [c] == Ascii("'") then Ascii("&apos;")
            else if c < 32 then
              Ascii("&#x") + [Ascii("0123456789ABCDEF")[c / 16], Ascii("0123456789ABCDEF")[c % 16]] + Ascii(";")
            else [c]
  {
    EscapeLiterals(c);
    hide Escape, Ascii;
    EncodedAt([c], 0);
    assert !RefAt([c], 0);
    assert Escape(c) + [] == Escape(c);
  }

  /** What is written from `i` on is what the rest alone would give. */
  lemma {:induction false} EncodedRest(s: seq<byte>, k: nat, i: nat)
    requires k <= i <= |s|
    ensures EncodedFrom(s, i) == EncodedFrom(s[k..], i - k)
    decreases |s| - i
  {
    hide Escape, EncodedFrom, PassEnd, RefAt;
    EncodedEnd(s);
    EncodedEnd(s[k..]);
    if i < |s| {
      EncodedAt(s, i);
      EncodedAt(s[k..], i - k);
      RefRest(s, k, i);
      assert s[k..][i - k] == s[i];
      if RefAt(s, i) {
        RefWide(s, i);
        PassEndRest(s, k, i);
        var j := PassEnd(s, i);
        EncodedRest(s, k, j);
        assert s[k..][i - k..j - k] == s[i..j];
      } else {
        EncodedRest(s, k, i + 1);
      }
    }
  }

  lemma RefRest(s: seq<byte>, k: nat, i: nat)
    requires k <= i <= |s|
    ensures RefAt(s[k..], i - k) <==> RefAt(s, i)
  {
  }

  lemma RefShorter(s: seq<byte>, j: nat, i: nat)
    requires i < j <= |s| && !RefAt(s, i)
    ensures !RefAt(s[..j], i)
  {
  }

  lemma {:induction false} PassEndRest(s: seq<byte>, k: nat, i: nat)
    requires k <= i && i + 1 < |s|
    ensures PassEnd(s[k..], i - k) == PassEnd(s, i) - k
    decreases |s| - i
  {
    if s[i + 1] != SEMI && i + 1 != |s| - 1 {
      PassEndRest(s, k, i + 1);
    }
  }

  /** Up to the first reference every byte is written by itself. */
  lemma {:induction false} EncodedFront(s: seq<byte>, i: nat, j: nat)
    requires i <= j <= |s| && forall k | i <= k < j :: !RefAt(s, k)
    ensures EncodedFrom(s, i) == EncodedFrom(s[..j], i) + EncodedFrom(s, j)
    decreases j - i
  {
    hide Escape, EncodedFrom, RefAt;
    if i < j {
      EncodedFront(s, i + 1, j);
      EncodedAt(s, i);
      EncodedAt(s[..j], i);
      RefShorter(s, j, i);
      assert s[..j][i] == s[i];
    } else {
      EncodedEnd(s[..j]);
    }
  }

  /** Without a reference a text is written piece by piece, so byte by byte. */
  lemma EncodedJoins(a: seq<byte>, b: seq<byte>)
    requires NoReference(a + b)
    ensures Encoded(a + b) == Encoded(a) + Encoded(b)
  {
    NoReferenceIs(a + b);
    hide NoReference, EncodedFrom, RefAt;
    EncodedFront(a + b, 0, |a|);
    EncodedRest(a + b, |a|, |a|);
    assert (a + b)[..|a|] == a && (a + b)[|a|..] == b;
  }

  /** The first "&#x" is passed through up to the next ';' or the last byte, and writing goes on from there. */
  lemma ReferencePassed(s: seq<byte>, i: nat, j: nat)
    requires i < j < |s| && Ascii("&#x") <= s[i..] && forall k | 0 <= k < i :: !(Ascii("&#x") <= s[k..])
    requires Ascii(";")[0] !in s[i + 1..j] && (s[j] == Ascii(";")[0] || j == |s| - 1)
    ensures Encoded(s) == Encoded(s[..i]) + s[i..j] + Encoded(s[j..])
  {
    forall k | 0 <= k <= i
      ensures RefAt(s, k) <==> k == i
    {
      RefIs(s, k);
    }
    assert Ascii(";")[0] == SEMI;
    hide Ascii, EncodedFrom, PassEnd, RefAt;
    PassEndIs(s, i, j);
    EncodedFront(s, 0, i);
    RefWide(s, i);
    EncodedAt(s, i);
    EncodedRest(s, j, j);
  }

  lemma RefWide(s: seq<byte>, i: nat)
    requires RefAt(s, i)
    ensures i + 1 < |s|
  {
  }

  lemma {:induction false} PassEndIs(s: seq<byte>, i: nat, j: nat)
    requires i < j < |s| && SEMI !in s[i + 1..j] && (s[j] == SEMI || j == |s| - 1)
    ensures PassEnd(s, i) == j
    decreases |s| - i
  {
    if j > i + 1 {
      assert s[i + 1] == s[i + 1..j][0];
      assert s[i + 2..j] == s[i + 1..j][1..];
      PassEndIs(s, i + 1, j);
    }
  }
}
