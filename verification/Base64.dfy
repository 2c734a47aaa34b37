/** Base64 (section 4 of RFC 4648) as the server encodes and decodes it. Characters are bytes; shifts
    and masks are written as quotients and remainders by powers of two. */
module Base64 {
  import opened Bytes

  const PAD: byte := 61   // '='

  type sextet = x: int | 0 <= x < 64

  // ----- the code table and its inverse -----

  /** Entry `v` of the 64-letter code table. */
  function Code(v: sextet): (c: byte)
    ensures c != PAD && c != 0
  {
    if v < 26 then 65 + v
    else if v < 52 then 97 + (v - 26)
    else if v < 62 then 48 + (v - 52)
    else if v == 62 then 43
    else 47
  }

  const SKIP: byte := 255
  const PADDING: byte := 254

  /** Entry `c` of the 256-entry inverse table. */
  function Inverse(c: byte): (v: byte)
    ensures v < 64 || v == SKIP || v == PADDING
  {
    if c == 43 then 62
    else if c == 47 then 63
    else if 48 <= c <= 57 then c - 48 + 52
    else if c == PAD then PADDING
    else if 65 <= c <= 90 then c - 65
    else if 97 <= c <= 122 then c - 97 + 26
    else SKIP
  }

  /** The two tables are inverse to each other, and only '=' maps to the padding mark. */
  lemma TablesInverse(v: sextet, c: byte)
    ensures Inverse(Code(v)) == v
    ensures Inverse(c) < 64 ==> Code(Inverse(c)) == c
    ensures Inverse(c) == PADDING <==> c == PAD
  {
  }

  // ----- encoding -----

  /** Three bytes as four letters. */
  function EncodeGroup(a: byte, b: byte, c: byte): (s: seq<byte>)
    ensures |s| == 4
  {
    [Code(a / 4), Code(a % 4 * 16 + b / 16), Code(b % 16 * 4 + c / 64), Code(c % 64)]
  }

  /** One or two last bytes, padded to four characters. */
  function EncodeTail(t: seq<byte>): (s: seq<byte>)
    requires |t| < 3
    ensures |s| == if t == [] then 0 else 4
  {
    if |t| == 0 then []
    else if |t| == 1 then [Code(t[0] / 4), Code(t[0] % 4 * 16), PAD, PAD]
    else [Code(t[0] / 4), Code(t[0] % 4 * 16 + t[1] / 16), Code(t[1] % 16 * 4), PAD]
  }

  /** calcOutLength. */
  function CalcOutLength(inLen: nat): nat {
    if inLen != 0 then ((inLen - 1) / 3 + 1) * 4 else 0
  }

  function Encoded(s: seq<byte>): seq<byte> {
    if |s| < 3 then EncodeTail(s)
    else EncodeGroup(s[0], s[1], s[2]) + Encoded(s[3..])
  }

  /** calcOutLength foretells the encoded length. */
  lemma {:induction false} EncodedLength(s: seq<byte>)
    ensures |Encoded(s)| == CalcOutLength(|s|)
  {
    if |s| >= 3 {
      EncodedLength(s[3..]);
    }
  }

  /** Full groups encode one by one, whatever follows them. */
  lemma {:induction false} EncodedAppend(a: seq<byte>, b: seq<byte>)
    requires |a| % 3 == 0
    ensures Encoded(a + b) == Encoded(a) + Encoded(b)
  {
    if a == [] {
      assert a + b == b;
    } else {
      assert (a + b)[3..] == a[3..] + b;
      EncodedAppend(a[3..], b);
    }
  }

  /** What the encoder loop adds with the group at `i`. */
  lemma EncodedNext(s: seq<byte>, i: nat)
    requires i % 3 == 0 && i + 3 <= |s|
    ensures Encoded(s[..i + 3]) == Encoded(s[..i]) + EncodeGroup(s[i], s[i + 1], s[i + 2])
  {
    hide EncodeGroup;
    var group := s[i..i + 3];
    assert s[..i] + group == s[..i + 3];
    EncodedAppend(s[..i], group);
    assert group[3..] == [];
  }

  lemma EncodedShort(s: seq<byte>)
    requires |s| < 3
    ensures Encoded(s) == EncodeTail(s)
    ensures s == [] ==> Encoded(s) == []
  {
    hide EncodeGroup, Code;
  }

  /** What is added behind the loop. */
  lemma EncodedLast(s: seq<byte>, i: nat)
    requires i % 3 == 0 && i <= |s| < i + 3
    ensures Encoded(s) == Encoded(s[..i]) + EncodeTail(s[i..])
  {
    hide Encoded, EncodeTail;
    assert s[..i] + s[i..] == s;
    EncodedAppend(s[..i], s[i..]);
    EncodedShort(s[i..]);
  }

  /** The letters an encoder writes: the code table's, then at most two '=', only at the end. */
  lemma {:induction false} EncodedAlphabet(s: seq<byte>, k: nat)
    requires k < |Encoded(s)|
    ensures Inverse(Encoded(s)[k]) < 64 || Encoded(s)[k] == PAD
    ensures Encoded(s)[k] == PAD <==> |s| % 3 != 0 && k >= |Encoded(s)| - (3 - |s| % 3)
  {
    hide Encoded, Inverse, EncodeGroup, EncodeTail, CalcOutLength;
    EncodedStep(s);
    if |s| >= 3 {
      RestAtLeastPadding(s[3..]);
      if k >= 4 {
        EncodedAlphabet(s[3..], k - 4);
      } else {
        GroupAlphabet(s[0], s[1], s[2], k);
      }
      assert |s[3..]| % 3 == |s| % 3;
    } else {
      TailAlphabet(s, k);
    }
  }

  lemma EncodedStep(s: seq<byte>)
    ensures |s| < 3 ==> Encoded(s) == EncodeTail(s)
    ensures |s| >= 3 ==> Encoded(s) == EncodeGroup(s[0], s[1], s[2]) + Encoded(s[3..])
  {
    hide EncodeTail, EncodeGroup;
  }

  lemma RestAtLeastPadding(s: seq<byte>)
    ensures |s| % 3 != 0 ==> |Encoded(s)| >= 4
  {
    EncodedLength(s);
  }

  lemma GroupAlphabet(a: byte, b: byte, c: byte, k: nat)
    requires k < 4
    ensures Inverse(EncodeGroup(a, b, c)[k]) < 64 && EncodeGroup(a, b, c)[k] != PAD
  {
    var v: sextet := [a / 4, a % 4 * 16 + b / 16, b % 16 * 4 + c / 64, c % 64][k];
    TablesInverse(v, 0);
    assert EncodeGroup(a, b, c)[k] == Code(v);
    hide Inverse;
  }

  lemma TailAlphabet(t: seq<byte>, k: nat)
    requires |t| < 3 && k < |EncodeTail(t)|
    ensures Inverse(EncodeTail(t)[k]) < 64 || EncodeTail(t)[k] == PAD
    ensures EncodeTail(t)[k] == PAD <==> k >= 4 - (3 - |t|)
  {
  }

  /** The string form clears its output first, then appends; only a null input fails. */
  method EncodeString(input: Option<seq<byte>>) returns (ok: bool, strOut: seq<byte>)
    ensures ok <==> input.Some?
    ensures strOut == if input.Some? then Encoded(input.value) else []
  {
    hide Code, Encoded;
    strOut := [];
    if input.None? {
      return false, strOut;
    }
    var data := input.value;
    var inLen := |data|;
    var leven := 3 * (inLen / 3);
    var i := 0;
    EncodedShort(data[..0]);
    while i < leven
      invariant 0 <= i <= leven && i % 3 == 0
      invariant strOut == Encoded(data[..i])
    {
      var a, b, c := data[i], data[i + 1], data[i + 2];
      EncodedNext(data, i);
      strOut := strOut + [Code(a / 4), Code(a % 4 * 16 + b / 16), Code(b % 16 * 4 + c / 64), Code(c % 64)];
      i := i + 3;
    }
    EncodedLast(data, i);
    if i < inLen {
      var a := data[i];
      var b: byte := if i + 1 < inLen then data[i + 1] else 0;
      var c: byte := 0;
      strOut := strOut + [Code(a / 4), Code(a % 4 * 16 + b / 16),
                  if i + 1 < inLen then Code(b % 16 * 4 + c / 64) else PAD, PAD];
    }
    return true, strOut;
  }

  /** The vector form appends to its output, ends it with a zero byte, and refuses empty input. */
  method EncodeBytes(input: Option<seq<byte>>, out0: seq<byte>) returns (ok: bool, outBytes: seq<byte>)
    ensures ok <==> input.Some? && input.value != []
    ensures outBytes == if ok then out0 + Encoded(input.value) + [0] else out0
  {
    hide Code, Encoded;
    outBytes := out0;
    if input.None? || |input.value| == 0 {
      return false, outBytes;
    }
    var data := input.value;
    var inLen := |data|;
    var leven := 3 * (inLen / 3);
    var i := 0;
    EncodedShort(data[..0]);
    while i < leven
      invariant 0 <= i <= leven && i % 3 == 0
      invariant outBytes == out0 + Encoded(data[..i])
    {
      var a, b, c := data[i], data[i + 1], data[i + 2];
      EncodedNext(data, i);
      ghost var done := Encoded(data[..i]);
      outBytes := outBytes + [Code(a / 4), Code(a % 4 * 16 + b / 16), Code(b % 16 * 4 + c / 64), Code(c % 64)];
      assert outBytes == out0 + (done + EncodeGroup(a, b, c));
      i := i + 3;
    }
    EncodedLast(data, i);
    if i < inLen {
      var a := data[i];
      var b: byte := if i + 1 < inLen then data[i + 1] else 0;
      var c: byte := 0;
      ghost var done := Encoded(data[..i]);
      outBytes := outBytes + [Code(a / 4), Code(a % 4 * 16 + b / 16),
                  if i + 1 < inLen then Code(b % 16 * 4 + c / 64) else PAD, PAD];
      assert outBytes == out0 + (done + EncodeTail(data[i..]));
    }
    outBytes := outBytes + [0];
    return true, outBytes;
  }

  // ----- decoding -----

  /** The decoder's variables: the accumulator, the sextets in it, and the byte budget `g`, a size_t
      that every '=' lowers and nothing raises. */
  datatype Decoder = Decoder(t: nat, y: nat, g: uint64)

  const START := Decoder(0, 0, 3)

  ghost predicate Sound(d: Decoder) {
    d.y < 4 && d.t < Power64(d.y)
  }

  function Power64(y: nat): nat
    requires y < 4
  {
    if y == 0 then 1 else if y == 1 then 0x40 else if y == 2 then 0x1000 else 0x4_0000
  }

  function Lower(g: uint64): uint64 {
    if g == 0 then 0xFFFF_FFFF_FFFF_FFFF else g - 1
  }

  /** The bytes a full accumulator gives out. */
  function Emit(t: nat, g: uint64): seq<byte> {
    [t / 0x1_0000 % 0x100] + (if g > 1 then [t / 0x100 % 0x100] else []) + (if g > 2 then [t % 0x100] else [])
  }

  lemma EmitParts(t: nat, g: uint64)
    ensures Emit(t, g) ==
            [t / 0x1_0000 % 0x100] + (if g > 1 then [t / 0x100 % 0x100] else []) + (if g > 2 then [t % 0x100] else [])
  {
  }

  lemma PowerZero()
    ensures Power64(0) == 1
  {
  }

  /** Room for one more sextet. */
  lemma ShiftBound(t: nat, y: nat, c: nat)
    requires y < 4 && t < Power64(y) && c < 64
    ensures t * 64 + c < 0x100_0000 && (y < 3 ==> t * 64 + c < Power64(y + 1)) && Power64(0) == 1
  {
  }

  /** One character through the decoder. */
  function Step(d: Decoder, ch: byte): (r: (Decoder, seq<byte>)) {
    var v := Inverse(ch);
    if v == SKIP then (d, [])
    else
      var c := if v == PADDING then 0 else v;
      var g := if v == PADDING then Lower(d.g) else d.g;
      var t := d.t * 64 + c;
      if d.y + 1 == 4 then (Decoder(0, 0, g), Emit(t, g)) else (Decoder(t, d.y + 1, g), [])
  }

  /** The state after a string. */
  function After(d: Decoder, s: seq<byte>): Decoder
    decreases |s|
  {
    if s == [] then d else After(Step(d, s[0]).0, s[1..])
  }

  /** The bytes a string is decoded to, starting in state `d`. */
  function Decoded(d: Decoder, s: seq<byte>): seq<byte>
    decreases |s|
  {
    if s == [] then [] else Step(d, s[0]).1 + Decoded(Step(d, s[0]).0, s[1..])
  }

  lemma {:induction false} DecodedAppend(d: Decoder, a: seq<byte>, b: seq<byte>)
    ensures After(d, a + b) == After(After(d, a), b)
    ensures Decoded(d, a + b) == Decoded(d, a) + Decoded(After(d, a), b)
    decreases |a|
  {
    if a == [] {
      assert a + b == b;
    } else {
      assert (a + b)[1..] == a[1..] + b;
      DecodedAppend(Step(d, a[0]).0, a[1..], b);
    }
  }

  lemma EmptyInput(d: Decoder, s: seq<byte>)
    ensures After(d, s[..0]) == d && Decoded(d, s[..0]) == []
  {
  }

  lemma DecodedNext(d: Decoder, s: seq<byte>, x: nat)
    requires x < |s|
    ensures After(d, s[..x + 1]) == Step(After(d, s[..x]), s[x]).0
    ensures Decoded(d, s[..x + 1]) == Decoded(d, s[..x]) + Step(After(d, s[..x]), s[x]).1
  {
    hide Step;
    assert s[..x] + [s[x]] == s[..x + 1];
    DecodedAppend(d, s[..x], [s[x]]);
    var d' := After(d, s[..x]);
    assert [s[x]][1..] == [];
    assert Decoded(Step(d', s[x]).0, [s[x]][1..]) == [];
  }

  /** The accumulator never holds more than three sextets between characters, so a size_t is wide
      enough for it. */
  lemma {:induction false} AccumulatorBound(d: Decoder, s: seq<byte>)
    requires Sound(d)
    ensures Sound(After(d, s))
    decreases |s|
  {
    if s != [] {
      AccumulatorBound(Step(d, s[0]).0, s[1..]);
    }
  }

  /** The decoder loop, the same in the string and the vector form. It appends to what the output already holds; only
      a null input fails. */
  method Decode(input: Option<seq<byte>>, out0: seq<byte>) returns (ok: bool, output: seq<byte>)
    ensures ok <==> input.Some?
    ensures output == out0 + if ok then Decoded(START, input.value) else []
  {
    hide After, Decoded, Inverse, Power64, Emit;
    output := out0;
    if input.None? {
      return false, output;
    }
    var data := input.value;
    var t: uint64, y: nat, g: uint64 := 0, 0, 3;
    var x := 0;
    EmptyInput(START, data);
    PowerZero();
    while x < |data|
      invariant x <= |data|
      invariant y < 4 && t < Power64(y)
      invariant After(START, data[..x]) == Decoder(t, y, g)
      invariant output == out0 + Decoded(START, data[..x])
    {
      DecodedNext(START, data, x);
      var c := Inverse(data[x]);
      x := x + 1;
      if c == SKIP { continue; }
      if c == PADDING {
        c := 0;
        g := Lower(g);
      }
      ShiftBound(t, y, c);
      t := t * 64 + c;
      y := y + 1;
      if y == 4 {
        ghost var was := output;
        output := output + [t / 0x1_0000 % 0x100];
        if g > 1 { output := output + [t / 0x100 % 0x100]; }
        if g > 2 { output := output + [t % 0x100]; }
        EmitParts(t, g);
        assert output == was + Emit(t, g);
        y, t := 0, 0;
      }
    }
    assert data[..x] == data;
    return true, output;
  }

  // ----- groups of four characters -----

  function Value(ch: byte): nat {
    if ch == PAD then 0 else Inverse(ch)
  }

  function Spend(g: uint64, ch: byte): uint64 {
    if ch == PAD then Lower(g) else g
  }

  lemma StepChar(d: Decoder, ch: byte)
    requires Inverse(ch) != SKIP
    ensures Step(d, ch) ==
            var t, g := d.t * 64 + Value(ch), Spend(d.g, ch);
            if d.y + 1 == 4 then (Decoder(0, 0, g), Emit(t, g)) else (Decoder(t, d.y + 1, g), [])
  {
  }

  /** Four characters, none skipped, from an empty accumulator. */
  lemma FourChars(g: uint64, c0: byte, c1: byte, c2: byte, c3: byte)
    requires SKIP !in {Inverse(c0), Inverse(c1), Inverse(c2), Inverse(c3)}
    ensures var g4 := Spend(Spend(Spend(Spend(g, c0), c1), c2), c3);
            var t := ((Value(c0) * 64 + Value(c1)) * 64 + Value(c2)) * 64 + Value(c3);
            && After(Decoder(0, 0, g), [c0, c1, c2, c3]) == Decoder(0, 0, g4)
            && Decoded(Decoder(0, 0, g), [c0, c1, c2, c3]) == Emit(t, g4)
  {
    hide Inverse, Step, Emit, Value, Spend;
    var d0 := Decoder(0, 0, g);
    StepChar(d0, c0);
    var d1 := Step(d0, c0).0;
    StepChar(d1, c1);
    var d2 := Step(d1, c1).0;
    StepChar(d2, c2);
    var d3 := Step(d2, c2).0;
    StepChar(d3, c3);
    assert [c0, c1, c2, c3][1..] == [c1, c2, c3];
    assert [c1, c2, c3][1..] == [c2, c3];
    assert [c2, c3][1..] == [c3];
    assert [c3][1..] == [];
    var d4 := Step(d3, c3).0;
    assert After(d4, [c3][1..]) == d4 && Decoded(d4, [c3][1..]) == [];
    assert After(d3, [c3]) == d4 && Decoded(d3, [c3]) == Step(d3, c3).1 + [];
    assert After(d2, [c2, c3]) == d4 && Decoded(d2, [c2, c3]) == [] + Decoded(d3, [c3]);
    assert After(d1, [c1, c2, c3]) == d4 && Decoded(d1, [c1, c2, c3]) == [] + Decoded(d2, [c2, c3]);
  }

  /** The 24 bits seen as four sextets are the 24 bits seen as three bytes. */
  lemma SextetsToBytes(a: byte, b: byte, c: byte)
    ensures var t := (((a / 4) * 64 + (a % 4 * 16 + b / 16)) * 64 + (b % 16 * 4 + c / 64)) * 64 + c % 64;
            && t / 0x1_0000 % 0x100 == a
            && t / 0x100 % 0x100 == b
            && t % 0x100 == c
  {
    var a0: int, b0: int, c0: int := a, b, c;
    var t := (((a0 / 4) * 64 + (a0 % 4 * 16 + b0 / 16)) * 64 + (b0 % 16 * 4 + c0 / 64)) * 64 + c0 % 64;
    assert t == a0 * 0x1_0000 + b0 * 0x100 + c0;
    assert t / 0x1_0000 == a0;
    assert t / 0x100 == a0 * 0x100 + b0;
  }

  /** The first bytes of a group, as many as the budget allows. */
  function Kept(a: byte, b: byte, c: byte, g: uint64): seq<byte> {
    [a] + (if g > 1 then [b] else []) + (if g > 2 then [c] else [])
  }

  lemma CodeIsLetter(v: sextet)
    ensures Code(v) != PAD && Inverse(Code(v)) != SKIP && Value(Code(v)) == v
  {
  }

  lemma PadIsPadding()
    ensures Inverse(PAD) != SKIP && Value(PAD) == 0
  {
  }

  /** A full group gives back what the budget allows and spends none of it. */
  lemma GroupDecodes(a: byte, b: byte, c: byte, g: uint64)
    ensures After(Decoder(0, 0, g), EncodeGroup(a, b, c)) == Decoder(0, 0, g)
    ensures Decoded(Decoder(0, 0, g), EncodeGroup(a, b, c)) == Kept(a, b, c, g)
  {
    hide Code, Inverse, Value;
    CodeIsLetter(a / 4);
    CodeIsLetter(a % 4 * 16 + b / 16);
    CodeIsLetter(b % 16 * 4 + c / 64);
    CodeIsLetter(c % 64);
    var s := EncodeGroup(a, b, c);
    FourChars(g, s[0], s[1], s[2], s[3]);
    SextetsToBytes(a, b, c);
  }

  /** A padded tail gives back what the budget allows after its own '='s have been spent. */
  lemma TailDecodes(t: seq<byte>, g: uint64)
    requires 1 <= |t| < 3
    ensures var g' := if |t| == 1 then Lower(Lower(g)) else Lower(g);
            && After(Decoder(0, 0, g), EncodeTail(t)) == Decoder(0, 0, g')
            && Decoded(Decoder(0, 0, g), EncodeTail(t)) == Kept(t[0], if |t| == 2 then t[1] else 0, 0, g')
  {
    hide Code, Inverse, Value;
    var a: byte, b: byte := t[0], if |t| == 2 then t[1] else 0;
    CodeIsLetter(a / 4);
    CodeIsLetter(a % 4 * 16 + b / 16);
    CodeIsLetter(b % 16 * 4);
    PadIsPadding();
    var s := EncodeTail(t);
    FourChars(g, s[0], s[1], s[2], s[3]);
    SextetsToBytes(a, b, 0);
  }

  // ----- the round trip -----

  /** The budget left once the encoding of `n` bytes has been read with the budget `g`. */
  function Left(n: nat, g: uint64): uint64 {
    if n % 3 == 0 then g else if n % 3 == 1 then Lower(Lower(g)) else Lower(g)
  }

  /** An encoding is read group by group. */
  lemma {:induction false} DecodeEncoded(s: seq<byte>, g: uint64)
    ensures After(Decoder(0, 0, g), Encoded(s)) == Decoder(0, 0, Left(|s|, g))
    ensures |s| >= 3 ==> Decoded(Decoder(0, 0, g), Encoded(s)) ==
                         Kept(s[0], s[1], s[2], g) + Decoded(Decoder(0, 0, g), Encoded(s[3..]))
    ensures 0 < |s| < 3 ==> Decoded(Decoder(0, 0, g), Encoded(s)) ==
                            Kept(s[0], if |s| == 2 then s[1] else 0, 0, Left(|s|, g))
    ensures s == [] ==> Decoded(Decoder(0, 0, g), Encoded(s)) == []
    decreases |s|
  {
    hide EncodeGroup, EncodeTail, Kept, Step, Code, Inverse, Encoded;
    EncodedStep(s);
    if |s| >= 3 {
      GroupDecodes(s[0], s[1], s[2], g);
      DecodedAppend(Decoder(0, 0, g), EncodeGroup(s[0], s[1], s[2]), Encoded(s[3..]));
      DecodeEncoded(s[3..], g);
      assert |s[3..]| % 3 == |s| % 3;
    } else if s != [] {
      TailDecodes(s, g);
    }
  }

  /** Round trip: decoding the encoding of any bytes, from a fresh decoder, gives them back. */
  lemma {:induction false} RoundTrip(s: seq<byte>)
    ensures Decoded(START, Encoded(s)) == s
    decreases |s|
  {
    DecodeEncoded(s, 3);
    hide Encoded, Decoded;
    if |s| >= 3 {
      RoundTrip(s[3..]);
      assert s == [s[0], s[1], s[2]] + s[3..];
    }
  }

  /** The vector form ends in a zero byte, which the decoder skips: its round trip holds too. */
  lemma VectorRoundTrip(s: seq<byte>)
    ensures Decoded(START, Encoded(s) + [0]) == s
  {
    RoundTrip(s);
    DecodedAppend(START, Encoded(s), [0]);
    var d := After(START, Encoded(s));
    assert Step(d, 0) == (d, []);
    assert [0 as byte][1..] == [];
    assert Decoded(d, [0]) == [];
  }

  // ----- noise -----

  /** The characters the decoder looks at. */
  function Letters(s: seq<byte>): seq<byte> {
    if s == [] then [] else (if Inverse(s[0]) == SKIP then [] else [s[0]]) + Letters(s[1..])
  }

  /** Characters outside the alphabet change nothing, wherever they stand. */
  lemma {:induction false} NoiseIgnored(d: Decoder, s: seq<byte>)
    ensures Decoded(d, Letters(s)) == Decoded(d, s) && After(d, Letters(s)) == After(d, s)
    decreases |s|
  {
    hide Inverse, Emit;
    if s != [] {
      var d' := Step(d, s[0]).0;
      NoiseIgnored(d', s[1..]);
      if Inverse(s[0]) == SKIP {
        assert Letters(s) == Letters(s[1..]);
      } else {
        assert Letters(s)[1..] == Letters(s[1..]);
      }
    }
  }

  // ----- encodings sent one after the other -----

  /** With a budget already lowered, only one or two bytes of a group survive. */
  lemma {:induction false} ShortBudgetLength(b: seq<byte>, g: uint64)
    requires g == 1 || g == 2
    ensures |Decoded(Decoder(0, 0, g), Encoded(b))| ==
            (if g == 1 then |b| / 3 else 2 * (|b| / 3)) + (if |b| % 3 == 0 then 0 else if g == 1
                && |b| % 3 == 1 then 3 else 1)
    decreases |b|
  {
    DecodeEncoded(b, g);
    hide Encoded, Decoded;
    if |b| >= 3 {
      ShortBudgetLength(b[3..], g);
      assert |b[3..]| / 3 == |b| / 3 - 1 && |b[3..]| % 3 == |b| % 3;
    }
  }

  /** The second of two encodings, after the first has left a budget of two. */
  lemma BudgetTwoExactly(b: seq<byte>)
    ensures Decoded(Decoder(0, 0, 2), Encoded(b)) == b <==> |b| <= 1
  {
    hide Encoded, Decoded;
    ShortBudgetLength(b, 2);
    DecodeEncoded(b, 2);
    var q, r := |b| / 3, |b| % 3;
    assert |b| == 3 * q + r;
    if |b| == 1 {
      assert b == [b[0]];
    }
  }

  /** Four bytes read with a budget of one: two are lost, and the wrapped budget adds two zeros. */
  lemma FourAfterOne(b: seq<byte>)
    requires |b| == 4
    ensures Decoded(Decoder(0, 0, 1), Encoded(b)) == [b[0], b[3], 0, 0]
  {
    hide Encoded, Decoded;
    DecodeEncoded(b, 1);
    DecodeEncoded(b[3..], 1);
    assert Left(1, 1) == 0xFFFF_FFFF_FFFF_FFFF;
  }

  /** The second of two encodings, after the first has left a budget of one: two more '=' wrap it. */
  lemma BudgetOneExactly(b: seq<byte>)
    ensures Decoded(Decoder(0, 0, 1), Encoded(b)) == b <==> b == [] || (|b| == 4 && b[1..] == [0, 0, 0])
  {
    hide Encoded, Decoded;
    ShortBudgetLength(b, 1);
    var q, rem := |b| / 3, |b| % 3;
    assert |b| == 3 * q + rem;
    if b == [] {
      DecodeEncoded(b, 1);
    } else if |b| == 4 {
      FourAfterOne(b);
      assert b[1..] == [b[1], b[2], b[3]];
      assert b == [b[0], b[1], b[2], b[3]];
    }
  }

  /** The decoder is meant to be given one encoding: the budget is never raised again. Two encodings
      in a row decode to the two inputs in a row in exactly these cases. */
  lemma ConcatenationExactly(a: seq<byte>, b: seq<byte>)
    ensures Decoded(START, Encoded(a) + Encoded(b)) == a + b <==>
              || |a| % 3 == 0
              || b == []
              || (|a| % 3 == 2 && |b| == 1)
              || (|a| % 3 == 1 && |b| == 4 && b[1..] == [0, 0, 0])
  {
    hide Encoded, Decoded;
    RoundTrip(a);
    DecodeEncoded(a, 3);
    DecodedAppend(START, Encoded(a), Encoded(b));
    var g := Left(|a|, 3);
    var r := Decoded(Decoder(0, 0, g), Encoded(b));
    assert Decoded(START, Encoded(a) + Encoded(b)) == a + r;
    assert (a + r)[|a|..] == r && (a + b)[|a|..] == b;
    if g == 3 {
      RoundTrip(b);
    } else if g == 2 {
      BudgetTwoExactly(b);
    } else {
      BudgetOneExactly(b);
    }
  }

  // ----- the encoding, bit by bit -----

  const UPPER: string := "ABCDEFGHIJKLMNOPQRSTUVWXYZ"
  const LOWER: string := "abcdefghijklmnopqrstuvwxyz"

  /** The alphabet of table 1 of RFC 4648, in the order of its values. */
  const ALPHABET: string := UPPER + LOWER + "0123456789+/"

  function Power2(k: nat): (p: nat)
    ensures p > 0
  {
    if k == 0 then 1 else 2 * Power2(k - 1)
  }

  /** Bit `j` of the bytes, the most significant bit of each byte first; zero behind them. */
  function BitAt(s: seq<byte>, j: nat): nat {
    if j < 8 * |s| then s[j / 8] / Power2(7 - j % 8) % 2 else 0
  }

  /** The number that the six bits from `j` on spell. */
  function SixBits(s: seq<byte>, j: nat): (v: nat) {
    32 * BitAt(s, j) + 16 * BitAt(s, j + 1) + 8 * BitAt(s, j + 2)
    + 4 * BitAt(s, j + 3) + 2 * BitAt(s, j + 4) + BitAt(s, j + 5)
  }

  lemma UpperIs(v: nat)
    requires v < 26
    ensures |UPPER| == 26 && UPPER[v] as int == 65 + v
  {
  }

  lemma LowerIs(v: nat)
    requires v < 26
    ensures |LOWER| == 26 && LOWER[v] as int == 97 + v
  {
  }

  lemma RestIs(v: nat)
    requires v < 12
    ensures "0123456789+/"[v] as int == if v < 10 then 48 + v else if v == 10 then 43 else 47
  {
  }

  /** The code table is the alphabet. */
  lemma AlphabetIs(v: sextet)
    ensures |ALPHABET| == 64 && ALPHABET[v] as int == Code(v)
  {
    UpperIs(if v < 26 then v else 0);
    LowerIs(if 26 <= v < 52 then v - 26 else 0);
    RestIs(if 52 <= v then v - 52 else 0);
    hide UPPER, LOWER;
  }

  /** The byte at `i`, zero behind the bytes. */
  function ByteAt(s: seq<byte>, i: nat): byte {
    if i < |s| then s[i] else 0
  }

  lemma BitOf(s: seq<byte>, i: nat, k: nat)
    requires k < 8
    ensures BitAt(s, 8 * i + k) == ByteAt(s, i) / Power2(7 - k) % 2
  {
    assert (8 * i + k) / 8 == i && (8 * i + k) % 8 == k;
    ZeroOver(Power2(7 - k));
    hide Power2;
  }

  lemma ZeroOver(p: nat)
    requires p > 0
    ensures 0 / p == 0
  {
  }

  lemma PowersOf2()
    ensures Power2(0) == 1 && Power2(1) == 2 && Power2(2) == 4 && Power2(3) == 8
    ensures Power2(4) == 16 && Power2(5) == 32 && Power2(6) == 64 && Power2(7) == 128
  {
  }

  /** A byte and its bits, cut where the encoder cuts it. */
  lemma ByteBits(a: byte)
    ensures a / 4 == 32 * (a / 128 % 2) + 16 * (a / 64 % 2) + 8 * (a / 32 % 2) + 4 * (a / 16 % 2) + 2 * (a / 8 % 2)
            + a / 4 % 2
    ensures a % 4 == 2 * (a / 2 % 2) + a % 2
    ensures a / 16 == 8 * (a / 128 % 2) + 4 * (a / 64 % 2) + 2 * (a / 32 % 2) + a / 16 % 2
    ensures a % 16 == 8 * (a / 8 % 2) + 4 * (a / 4 % 2) + 2 * (a / 2 % 2) + a % 2
    ensures a / 64 == 2 * (a / 128 % 2) + a / 64 % 2
    ensures a % 64 == 32 * (a / 32 % 2) + 16 * (a / 16 % 2) + 8 * (a / 8 % 2) + 4 * (a / 4 % 2) + 2 * (a / 2 % 2)
            + a % 2
  {
    Halves(a);
  }

  lemma Halves(a: byte)
    ensures a / 2 / 2 == a / 4 && a / 4 / 2 == a / 8 && a / 8 / 2 == a / 16 && a / 16 / 2 == a / 32
    ensures a / 32 / 2 == a / 64 && a / 64 / 2 == a / 128 && a / 128 / 2 == 0
  {
  }

  /** The bits of one byte in place. */
  lemma BitsAt(s: seq<byte>, i: nat)
    ensures var a := ByteAt(s, i);
            && BitAt(s, 8 * i) == a / 128 % 2 && BitAt(s, 8 * i + 1) == a / 64 % 2
            && BitAt(s, 8 * i + 2) == a / 32 % 2 && BitAt(s, 8 * i + 3) == a / 16 % 2
            && BitAt(s, 8 * i + 4) == a / 8 % 2 && BitAt(s, 8 * i + 5) == a / 4 % 2
            && BitAt(s, 8 * i + 6) == a / 2 % 2 && BitAt(s, 8 * i + 7) == a % 2
  {
    PowersOf2();
    hide BitAt, Power2, ByteAt;
    BitOf(s, i, 0); BitOf(s, i, 1); BitOf(s, i, 2); BitOf(s, i, 3);
    BitOf(s, i, 4); BitOf(s, i, 5); BitOf(s, i, 6); BitOf(s, i, 7);
  }

  /** The four sextets of a group of three bytes, zero where they are missing. */
  lemma GroupSixBits(s: seq<byte>)
    ensures var a, b, c := ByteAt(s, 0), ByteAt(s, 1), ByteAt(s, 2);
            && SixBits(s, 0) == a / 4 && SixBits(s, 6) == a % 4 * 16 + b / 16
            && SixBits(s, 12) == b % 16 * 4 + c / 64 && SixBits(s, 18) == c % 64
  {
    hide BitAt, ByteAt;
    BitsAt(s, 0);
    BitsAt(s, 1);
    BitsAt(s, 2);
    ByteBits(ByteAt(s, 0));
    ByteBits(ByteAt(s, 1));
    ByteBits(ByteAt(s, 2));
  }

  lemma SixBitsLater(s: seq<byte>, j: nat)
    requires |s| >= 3 && j >= 24
    ensures SixBits(s, j) == SixBits(s[3..], j - 24)
  {
    BitLater(s, j);
    BitLater(s, j + 1);
    BitLater(s, j + 2);
    BitLater(s, j + 3);
    BitLater(s, j + 4);
    BitLater(s, j + 5);
    hide BitAt;
  }

  lemma BitLater(s: seq<byte>, j: nat)
    requires |s| >= 3 && j >= 24
    ensures BitAt(s, j) == BitAt(s[3..], j - 24)
  {
    assert (j - 24) / 8 == j / 8 - 3 && (j - 24) % 8 == j % 8;
    hide Power2;
  }

  /** Every character of an encoding: the letter of the alphabet for the next six bits, with zero bits behind the
      bytes, and '=' where no bit of them is left. */
  lemma {:induction false} EncodedBits(s: seq<byte>, k: nat)
    requires k < |Encoded(s)|
    ensures |Encoded(s)| == (|s| + 2) / 3 * 4
    ensures SixBits(s, 6 * k) < 64 && |ALPHABET| == 64
    ensures Encoded(s)[k] as char == if 6 * k < 8 * |s| then ALPHABET[SixBits(s, 6 * k)] else '='
    decreases |s|
  {
    EncodedLength(s);
    EncodedStep(s);
    hide Encoded, SixBits, ALPHABET;
    if |s| >= 3 && k >= 4 {
      EncodedBits(s[3..], k - 4);
      SixBitsLater(s, 6 * k);
    } else {
      GroupBits(s, k);
    }
  }

  lemma BytesOf(s: seq<byte>)
    ensures ByteAt(s, 0) == (if |s| > 0 then s[0] else 0) && ByteAt(s, 1) == (if |s| > 1 then s[1] else 0)
    ensures ByteAt(s, 2) == if |s| > 2 then s[2] else 0
  {
  }

  /** The first four characters. */
  lemma GroupBits(s: seq<byte>, k: nat)
    requires s != [] && k < 4
    ensures SixBits(s, 6 * k) < 64 && |ALPHABET| == 64
    ensures var group := if |s| < 3 then EncodeTail(s) else EncodeGroup(s[0], s[1], s[2]);
            group[k] as char == if 6 * k < 8 * |s| then ALPHABET[SixBits(s, 6 * k)] else '='
  {
    GroupSixBits(s);
    hide SixBits, ALPHABET, BitAt, ByteAt;
    var a, b, c := ByteAt(s, 0), ByteAt(s, 1), ByteAt(s, 2);
    BytesOf(s);
    AlphabetIs(a / 4);
    AlphabetIs(a % 4 * 16 + b / 16);
    AlphabetIs(b % 16 * 4 + c / 64);
    AlphabetIs(c % 64);
    hide Code;
    match k
    case 0 => assert SixBits(s, 6 * k) == a / 4;
    case 1 => assert SixBits(s, 6 * k) == a % 4 * 16 + b / 16;
    case 2 => assert SixBits(s, 6 * k) == b % 16 * 4 + c / 64;
    case 3 => assert SixBits(s, 6 * k) == c % 64;
  }

  /** The characters the decoder reads are the alphabet and '=': any other changes nothing, each of these does. */
  lemma DecoderReads(d: Decoder, c: byte)
    requires Sound(d)
    ensures After(d, [c]) == d && Decoded(d, [c]) == [] <==> c as char !in ALPHABET && c as char != '='
  {
    InAlphabet(c);
    hide ALPHABET, Emit, Inverse, After, Decoded, Power64;
    OneChar(d, c);
  }

  lemma OneChar(d: Decoder, c: byte)
    ensures After(d, [c]) == Step(d, c).0 && Decoded(d, [c]) == Step(d, c).1
  {
    hide Step;
    var next := Step(d, c);
    assert [c][1..] == [];
    assert After(next.0, []) == next.0 && Decoded(next.0, []) == [];
    assert next.1 + [] == next.1;
  }

  lemma InAlphabet(c: byte)
    ensures c as char in ALPHABET <==> Inverse(c) < 64
    ensures Inverse(c) == SKIP <==> c as char !in ALPHABET && c as char != '='
  {
    if Inverse(c) < 64 {
      AlphabetIs(Inverse(c));
      TablesInverse(0, c);
    }
    if c as char in ALPHABET {
      AlphabetIs(0);
      var v :| 0 <= v < |ALPHABET| && ALPHABET[v] == c as char;
      AlphabetIs(v);
      TablesInverse(v, c);
    }
    hide ALPHABET;
  }

  /** The characters of the alphabet and '=', the others left out. */
  function Meant(s: seq<byte>): seq<byte> {
    if s == [] then []
    else (if s[0] as char in ALPHABET || s[0] as char == '=' then [s[0]] else []) + Meant(s[1..])
  }

  lemma {:induction false} MeantLetters(s: seq<byte>)
    ensures Meant(s) == Letters(s)
  {
    if s != [] {
      InAlphabet(s[0]);
      MeantLetters(s[1..]);
    }
    hide ALPHABET, Inverse;
  }

  /** Leaving out all other characters, wherever they stand, changes neither the bytes nor the state. */
  lemma OthersIgnored(d: Decoder, s: seq<byte>)
    ensures Decoded(d, Meant(s)) == Decoded(d, s) && After(d, Meant(s)) == After(d, s)
  {
    MeantLetters(s);
    NoiseIgnored(d, s);
  }

  // ----- decoding, group by group -----

  /** The letters for these values. */
  function Spelled(v: seq<sextet>): (s: seq<byte>)
    ensures |s| == |v|
  {
    if v == [] then [] else [Letter(v[0])] + Spelled(v[1..])
  }

  function Letter(v: sextet): byte {
    AlphabetIs(v);
    ALPHABET[v] as int
  }

  /** The bytes of the full groups of four: 24 bits each; a group that is not full gives nothing. */
  function GroupsOf(v: seq<sextet>): seq<byte> {
    if |v| < 4 then []
    else
      var a: int, b: int, c: int, d: int := v[0], v[1], v[2], v[3];
      [a * 4 + b / 16, b % 16 * 16 + c / 4, c % 4 * 64 + d] + GroupsOf(v[4..])
  }

  /** Letters without any padding are decoded group by group, and a last group that is not full is dropped. */
  lemma {:induction false} DecodedGroups(v: seq<sextet>)
    ensures Decoded(START, Spelled(v)) == GroupsOf(v)
    decreases |v|
  {
    hide Step, ALPHABET, Inverse, Emit;
    if |v| < 4 {
      ShortGroup(START, v);
    } else {
      var four := [Letter(v[0]), Letter(v[1]), Letter(v[2]), Letter(v[3])];
      SpelledFour(v);
      DecodedAppend(START, four, Spelled(v[4..]));
      FourLetters(v[0], v[1], v[2], v[3]);
      DecodedGroups(v[4..]);
    }
  }

  lemma SpelledFour(v: seq<sextet>)
    requires |v| >= 4
    ensures Spelled(v) == [Letter(v[0]), Letter(v[1]), Letter(v[2]), Letter(v[3])] + Spelled(v[4..])
  {
    hide Letter, Spelled;
    var rest := v[2..];
    SpelledTwo(v);
    SpelledTwo(rest);
    assert rest[0] == v[2] && rest[1] == v[3] && rest[2..] == v[4..];
    PairsJoin(Letter(v[0]), Letter(v[1]), Letter(v[2]), Letter(v[3]), Spelled(v[4..]));
  }

  lemma PairsJoin(a: byte, b: byte, c: byte, d: byte, s: seq<byte>)
    ensures [a, b] + ([c, d] + s) == [a, b, c, d] + s
  {
  }

  lemma SpelledTwo(v: seq<sextet>)
    requires |v| >= 2
    ensures Spelled(v) == [Letter(v[0]), Letter(v[1])] + Spelled(v[2..])
  {
    hide Letter, Spelled;
    var rest := v[1..];
    SpelledNext(v);
    SpelledNext(rest);
    assert rest[0] == v[1] && rest[1..] == v[2..];
  }

  lemma SpelledNext(v: seq<sextet>)
    requires v != []
    ensures Spelled(v) == [Letter(v[0])] + Spelled(v[1..])
  {
  }

  lemma LetterIs(v: sextet)
    ensures Letter(v) == Code(v) && Inverse(Letter(v)) == v && Value(Letter(v)) == v && Inverse(Letter(v)) != SKIP
    ensures Spend(3, Letter(v)) == 3
  {
    AlphabetIs(v);
    TablesInverse(v, 0);
    hide ALPHABET;
  }

  lemma FourLetters(a: sextet, b: sextet, c: sextet, d: sextet)
    ensures var four := [Letter(a), Letter(b), Letter(c), Letter(d)];
            && After(START, four) == START
            && Decoded(START, four) == [a * 4 + b / 16, b % 16 * 16 + c / 4, c % 4 * 64 + d]
  {
    LetterIs(a);
    LetterIs(b);
    LetterIs(c);
    LetterIs(d);
    hide Letter, Inverse, Value, Spend, After, Decoded, Emit;
    FourChars(3, Letter(a), Letter(b), Letter(c), Letter(d));
    EmitThree(a, b, c, d);
  }

  lemma EmitThree(a: sextet, b: sextet, c: sextet, d: sextet)
    ensures Emit(((a * 64 + b) * 64 + c) * 64 + d, 3) == [a * 4 + b / 16, b % 16 * 16 + c / 4, c % 4 * 64 + d]
  {
    var t := ((a * 64 + b) * 64 + c) * 64 + d;
    DivModUnique(b, 16, b / 16, b % 16);
    DivModUnique(c, 4, c / 4, c % 4);
    var x, y, z := a * 4 + b / 16, b % 16 * 16 + c / 4, c % 4 * 64 + d;
    assert t == 0x1_0000 * x + (0x100 * y + z);
    DivModUnique(t, 0x1_0000, x, 0x100 * y + z);
    assert t == 0x100 * (0x100 * x + y) + z;
    DivModUnique(t, 0x100, 0x100 * x + y, z);
    DivModUnique(0x100 * x + y, 0x100, x, y);
    DivModUnique(x, 0x100, 0, x);
    EmitParts(t, 3);
  }

  /** Up to three letters are kept back. */
  lemma {:induction false} ShortGroup(d: Decoder, v: seq<sextet>)
    requires d.y + |v| < 4
    ensures Decoded(d, Spelled(v)) == []
    decreases |v|
  {
    if v != [] {
      LetterIs(v[0]);
      var next := Step(d, Letter(v[0]));
      assert next.1 == [] && next.0.y == d.y + 1;
      ShortGroup(next.0, v[1..]);
      assert Spelled(v)[1..] == Spelled(v[1..]);
      hide Step, Letter;
    }
  }
}
