/** Bytes, little-endian 32-bit words and byte sums, as the x86-64 build of the server sees them. */
module Bytes {

  type byte = x: int | 0 <= x < 0x100
  type uint32 = x: int | 0 <= x < 0x1_0000_0000
  type int32 = x: int | -0x8000_0000 <= x < 0x8000_0000
  type uint64 = x: int | 0 <= x < 0x1_0000_0000_0000_0000

  datatype Option<+T> = None | Some(value: T)

  /** The bytes of an ASCII text. */
  function Ascii(text: string): (s: seq<byte>)
    ensures |s| == |text|
  {
    seq(|text|, i requires 0 <= i < |text| => if text[i] < 128 as char then text[i] as int else 63)
  }

  /** Reinterprets an unsigned word as `int`. */
  function ToInt32(v: uint32): int32 {
    if v < 0x8000_0000 then v else v - 0x1_0000_0000
  }

  /** Converts an `int` to `size_t`, as a comparison with a `size_t` does. */
  function ToSizeT(v: int32): uint64 {
    if v >= 0 then v else v + 0x1_0000_0000_0000_0000
  }

  /** Reads the little-endian word stored at `at`. */
  function LoadWord(s: seq<byte>, at: nat): (v: uint32)
    requires at + 4 <= |s|
  {
    var b0: int, b1: int, b2: int, b3: int := s[at], s[at + 1], s[at + 2], s[at + 3];
    b0 + 0x100 * (b1 + 0x100 * (b2 + 0x100 * b3))
  }

  /** The four bytes that storing `v` through an `unsigned int *` leaves in memory. */
  function Word(v: uint32): (b: seq<byte>)
    ensures |b| == 4 && LoadWord(b, 0) == v
  {
    var q1 := v / 0x100;
    var q2 := q1 / 0x100;
    var q3 := q2 / 0x100;
    [v % 0x100, q1 % 0x100, q2 % 0x100, q3]
  }

  /** 256 to the power `k`. */
  function Power256(k: nat): (p: nat)
    ensures p > 0
  {
    if k == 0 then 1 else 256 * Power256(k - 1)
  }

  /** The bytes of a stored word, the least significant first. */
  lemma WordBytes(v: uint32, k: nat)
    requires k < 4
    ensures Word(v)[k] == v / Power256(k) % 256
  {
    assert Power256(1) == 256 && Power256(2) == 0x1_0000 && Power256(3) == 0x100_0000;
    hide Power256;
    assert v / 0x100 / 0x100 == v / 0x1_0000;
    assert v / 0x1_0000 / 0x100 == v / 0x100_0000;
  }

  lemma MulSign(d: int, k: int)
    requires k > 0
    ensures d >= 1 ==> d * k >= k
    ensures d <= -1 ==> d * k <= -k
  {
  }

  lemma DivModUnique(n: nat, k: nat, q: nat, r: nat)
    requires k > 0 && r < k && n == k * q + r
    ensures n / k == q && n % k == r
  {
    var q', r' := n / k, n % k;
    assert n == k * q' + r';
    assert (q' - q) * k == r - r';
    MulSign(q' - q, k);
  }

  /** A word read inside a larger sequence depends on its own four bytes only. */
  lemma LoadWordSlice(s: seq<byte>, at: nat, w: uint32)
    requires at + 4 <= |s| && s[at..at + 4] == Word(w)
    ensures LoadWord(s, at) == w
  {
    var t := s[at..at + 4];
    assert forall k :: 0 <= k < 4 ==> t[k] == s[at + k];
    assert LoadWord(t, 0) == LoadWord(s, at);
  }

  /** Storing a word that was read gives back its bytes. */
  lemma WordOfLoad(b: seq<byte>)
    requires |b| == 4
    ensures Word(LoadWord(b, 0)) == b
  {
    var b0: int, b1: int, b2: int, b3: int := b[0], b[1], b[2], b[3];
    var v := LoadWord(b, 0);
    assert v / 0x100 == b1 + 0x100 * (b2 + 0x100 * b3);
    assert v / 0x100 / 0x100 == b2 + 0x100 * b3;
  }

  /** Two words are equal exactly when their bytes are. */
  lemma LoadWordInjective(s: seq<byte>, t: seq<byte>, at: nat)
    requires at + 4 <= |s| && at + 4 <= |t|
    ensures LoadWord(s, at) == LoadWord(t, at) <==> s[at..at + 4] == t[at..at + 4]
  {
    var a, b := s[at..at + 4], t[at..at + 4];
    assert LoadWord(a, 0) == LoadWord(s, at);
    assert LoadWord(b, 0) == LoadWord(t, at);
    WordOfLoad(a);
    WordOfLoad(b);
    hide LoadWord, Word;
  }

  /** The exact (unbounded) sum of the bytes. */
  function Sum(s: seq<byte>): nat {
    if s == [] then 0 else Sum(s[..|s| - 1]) + s[|s| - 1]
  }

  lemma {:induction false} SumAppend(a: seq<byte>, b: seq<byte>)
    ensures Sum(a + b) == Sum(a) + Sum(b)
  {
    if b == [] {
      assert a + b == a;
    } else {
      var init := b[..|b| - 1];
      assert (a + b)[..|a + b| - 1] == a + init;
      SumAppend(a, init);
    }
  }

  /** The sum is that of the bytes: nothing for none, a byte for itself, and the parts' sums added. */
  lemma SumLaws(a: seq<byte>, b: byte, c: seq<byte>)
    ensures Sum([]) == 0 && Sum([b]) == b && Sum(a + c) == Sum(a) + Sum(c)
  {
    SumAppend(a, c);
    assert [b][..0] == [];
  }

  lemma {:induction false} SumBound(s: seq<byte>)
    ensures Sum(s) <= 255 * |s|
  {
    if s != [] {
      SumBound(s[..|s| - 1]);
    }
  }

  /** Replacing one byte moves the sum by exactly the difference of the two bytes. */
  lemma SumUpdate(s: seq<byte>, i: nat, b: byte)
    requires i < |s|
    ensures Sum(s[i := b]) == Sum(s) - s[i] + b
  {
    var l, r := s[..i], s[i + 1..];
    assert s == l + [s[i]] + r;
    assert s[i := b] == l + [b] + r;
    SumAppend(l + [s[i]], r);
    SumAppend(l, [s[i]]);
    SumAppend(l + [b], r);
    SumAppend(l, [b]);
    assert [s[i]][..0] == [] && [b][..0] == [];
  }

  /** The byte sum kept in an `unsigned int`. */
  function Checksum(s: seq<byte>): uint32 {
    Sum(s) % 0x1_0000_0000
  }

  lemma ChecksumNext(s: seq<byte>, i: nat)
    requires i < |s|
    ensures Checksum(s[..i + 1]) == (Checksum(s[..i]) + s[i]) % 0x1_0000_0000
  {
    assert s[..i + 1][..i] == s[..i];
  }

  /** Up to 16843009 bytes the 32-bit accumulator cannot wrap: the checksum is the exact sum. */
  lemma ChecksumExact(s: seq<byte>)
    requires |s| <= 16843009
    ensures Checksum(s) == Sum(s)
  {
    SumBound(s);
  }

  /** `s` with `w` written over it at `at`. */
  function Splice<T>(s: seq<T>, at: nat, w: seq<T>): (r: seq<T>)
    requires at + |w| <= |s|
    ensures |r| == |s|
  {
    s[..at] + w + s[at + |w|..]
  }

  /** A splice is read back where it was written and leaves every range beside it alone. */
  lemma SpliceRanges<T>(s: seq<T>, at: nat, w: seq<T>, i: nat, j: nat)
    requires at + |w| <= |s| && i <= j <= |s|
    ensures Splice(s, at, w)[at..at + |w|] == w
    ensures j <= at || at + |w| <= i ==> Splice(s, at, w)[i..j] == s[i..j]
  {
    var r := Splice(s, at, w);
    assert forall k | 0 <= k < |s| :: r[k] == if at <= k < at + |w| then w[k - at] else s[k];
    hide Splice;
  }

  /** The concatenation of the parts. */
  function Flatten<T>(parts: seq<seq<T>>): seq<T> {
    if parts == [] then [] else parts[0] + Flatten(parts[1..])
  }
}
