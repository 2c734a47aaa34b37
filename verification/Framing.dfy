/** The wire protocol: checksum, command, data length (little-endian words), then the data. */
module Framing {
  import opened Bytes

  const HEADER_LEN: nat := 12

  /** One parser callback: the command and the data it was called with. */
  datatype Event = Event(command: uint32, data: seq<byte>)

  /** What the parser loop finds at the front of its buffer. */
  datatype Head = NeedMore | BadChecksum(size: nat) | Good(event: Event, size: nat)

  /** The declared data length as the loop compares it: read into an `int`, widened to `size_t`. */
  function DeclaredLength(buf: seq<byte>): uint64
    requires |buf| >= HEADER_LEN
  {
    ToSizeT(ToInt32(LoadWord(buf, 8)))
  }

  function NextFrame(buf: seq<byte>): (h: Head)
    ensures h.BadChecksum? ==> HEADER_LEN <= h.size <= |buf|
    ensures h.Good? ==> h.size == HEADER_LEN + |h.event.data| <= |buf|
  {
    if |buf| < HEADER_LEN || DeclaredLength(buf) > |buf| - HEADER_LEN then
      NeedMore
    else
      var n := DeclaredLength(buf);
      if Checksum(buf[4..HEADER_LEN + n]) != LoadWord(buf, 0) then
        BadChecksum(HEADER_LEN + n)
      else
        Good(Event(LoadWord(buf, 4), buf[HEADER_LEN..HEADER_LEN + n]), HEADER_LEN + n)
  }

  /** The callbacks fired and the bytes kept. */
  datatype Parsed = Parsed(events: seq<Event>, rest: seq<byte>)

  /** One call of the parser loop on a buffer: a bad checksum discards everything buffered. */
  function Drain(buf: seq<byte>): (p: Parsed)
    ensures |p.rest| <= |buf|
    decreases |buf|
  {
    match NextFrame(buf)
    case NeedMore => Parsed([], buf)
    case BadChecksum(_) => Parsed([], [])
    case Good(e, size) =>
      var p := Drain(buf[size..]);
      Parsed([e] + p.events, p.rest)
  }

  /** A sequence of receive calls, the buffer holding `buf` before the first. */
  function Receive(buf: seq<byte>, chunks: seq<seq<byte>>): Parsed
    decreases |chunks|
  {
    if chunks == [] then Parsed([], buf)
    else
      var first := Drain(buf + chunks[0]);
      var later := Receive(first.rest, chunks[1..]);
      Parsed(first.events + later.events, later.rest)
  }

  /** Where in the stream the first frame with a bad checksum ends, if there is one. */
  function BadEnd(s: seq<byte>): (r: Option<nat>)
    ensures r.Some? ==> HEADER_LEN <= r.value <= |s|
    decreases |s|
  {
    match NextFrame(s)
    case NeedMore => None
    case BadChecksum(size) => Some(size)
    case Good(_, size) =>
      match BadEnd(s[size..])
      case None => None
      case Some(k) => Some(size + k)
  }

  lemma WordsStable(buf: seq<byte>, more: seq<byte>)
    requires |buf| >= HEADER_LEN
    ensures LoadWord(buf + more, 0) == LoadWord(buf, 0) && LoadWord(buf + more, 4) == LoadWord(buf, 4)
    ensures LoadWord(buf + more, 8) == LoadWord(buf, 8)
  {
  }

  /** What the front of the buffer says does not change when more bytes arrive, except NeedMore. */
  lemma NextFrameStable(buf: seq<byte>, more: seq<byte>)
    requires !NextFrame(buf).NeedMore?
    ensures NextFrame(buf + more) == NextFrame(buf)
  {
    hide Checksum, LoadWord;
    var all := buf + more;
    WordsStable(buf, more);
    var n := DeclaredLength(buf);
    assert all[4..HEADER_LEN + n] == buf[4..HEADER_LEN + n];
    assert all[HEADER_LEN..HEADER_LEN + n] == buf[HEADER_LEN..HEADER_LEN + n];
  }

  /** Draining a buffer early and going on with what is left is draining it late. */
  lemma {:induction false} DrainInSteps(buf: seq<byte>, more: seq<byte>)
    requires BadEnd(buf).None?
    ensures Drain(buf + more).events == Drain(buf).events + Drain(Drain(buf).rest + more).events
    ensures Drain(buf + more).rest == Drain(Drain(buf).rest + more).rest
    ensures BadEnd(buf + more).Some? <==> BadEnd(Drain(buf).rest + more).Some?
    decreases |buf|
  {
    hide NextFrame;
    if NextFrame(buf).Good? {
      var size := NextFrame(buf).size;
      NextFrameStable(buf, more);
      assert (buf + more)[size..] == buf[size..] + more;
      DrainInSteps(buf[size..], more);
    }
  }

  /** The frames before the first bad checksum, and the verdict on it, are those of any extension. */
  lemma {:induction false} BadEndStable(buf: seq<byte>, more: seq<byte>)
    requires BadEnd(buf).Some?
    ensures BadEnd(buf + more) == BadEnd(buf)
    ensures Drain(buf) == Parsed(Drain(buf + more).events, [])
    decreases |buf|
  {
    hide NextFrame;
    NextFrameStable(buf, more);
    if NextFrame(buf).Good? {
      var size := NextFrame(buf).size;
      assert (buf + more)[size..] == buf[size..] + more;
      BadEndStable(buf[size..], more);
    }
  }

  /** A frame is judged as soon as its last byte is there. */
  lemma NextFramePrefix(s: seq<byte>, k: nat)
    requires !NextFrame(s).NeedMore? && NextFrame(s).size <= k <= |s|
    ensures NextFrame(s[..k]) == NextFrame(s)
  {
    var n := DeclaredLength(s);
    assert s[..k][8..12] == s[8..12];
    LoadWordInjective(s[..k], s, 8);
    assert DeclaredLength(s[..k]) == n;
    assert !NextFrame(s[..k]).NeedMore? by { hide Checksum; }
    NextFrameStable(s[..k], s[k..]);
    assert s[..k] + s[k..] == s;
  }

  /** The bad frame is seen as soon as the byte that ends it has arrived, and not before. */
  lemma {:induction false} BadEndSeenAtEnd(s: seq<byte>, k: nat)
    requires BadEnd(s).Some? && k <= |s|
    ensures BadEnd(s[..k]).Some? <==> BadEnd(s).value <= k
    decreases |s|
  {
    hide NextFrame;
    if NextFrame(s[..k]).NeedMore? {
      if BadEnd(s).value <= k {
        NextFramePrefix(s, k);
      }
    } else {
      NextFrameStable(s[..k], s[k..]);
      assert s[..k] + s[k..] == s;
      if NextFrame(s).Good? {
        var size := NextFrame(s).size;
        assert s[..k][size..] == s[size..][..k - size];
        BadEndSeenAtEnd(s[size..], k - size);
      }
    }
  }

  /** A drained buffer stays as it is until a byte arrives. */
  lemma {:induction false} DrainIdempotent(buf: seq<byte>)
    ensures Drain(Drain(buf).rest) == Parsed([], Drain(buf).rest)
    ensures BadEnd(Drain(buf).rest).None?
    decreases |buf|
  {
    hide NextFrame;
    if NextFrame(buf).Good? {
      DrainIdempotent(buf[NextFrame(buf).size..]);
    }
  }

  /** A receive call without bytes fires nothing and keeps what is buffered. */
  lemma EmptyChunk(buf: seq<byte>, chunks: seq<seq<byte>>)
    ensures Receive(Drain(buf).rest, [[]] + chunks) == Receive(Drain(buf).rest, chunks)
  {
    hide NextFrame, Drain, BadEnd;
    var rest := Drain(buf).rest;
    DrainIdempotent(buf);
    assert rest + [] == rest;
    assert ([[]] + chunks)[1..] == chunks;
    assert [] + Receive(rest, chunks).events == Receive(rest, chunks).events;
  }

  lemma {:induction false} FlattenEmpty(chunks: seq<seq<byte>>)
    requires Flatten(chunks) == []
    ensures Receive([], chunks) == Parsed([], [])
    decreases |chunks|
  {
    if chunks != [] {
      assert |chunks[0]| + |Flatten(chunks[1..])| == 0;
      assert [] + chunks[0] == [];
      FlattenEmpty(chunks[1..]);
    }
  }

  /** With `pre` already received and still good, the remaining chunks bring exactly what a single
      receive of everything would have brought, unless a bad checksum is followed by more bytes. */
  lemma {:induction false} ReceiveFrom(pre: seq<byte>, chunks: seq<seq<byte>>, s: seq<byte>)
    requires s == pre + Flatten(chunks) && BadEnd(pre).None?
    ensures Drain(s).events <= Drain(pre).events + Receive(Drain(pre).rest, chunks).events
    ensures BadEnd(s).None? || BadEnd(s).value == |s| ==>
              Drain(s) == Parsed(Drain(pre).events + Receive(Drain(pre).rest, chunks).events,
                                 Receive(Drain(pre).rest, chunks).rest)
    decreases |chunks|
  {
    hide NextFrame, Drain, BadEnd;
    if chunks == [] {
      assert s == pre;
    } else {
      var now, tail := pre + chunks[0], Flatten(chunks[1..]);
      assert s == now + tail;
      DrainInSteps(pre, chunks[0]);
      if BadEnd(now).None? {
        ReceiveFrom(now, chunks[1..], s);
      } else {
        BadEndStable(now, tail);
        if BadEnd(s).value == |s| {
          assert tail == [];
          assert s == now;
          FlattenEmpty(chunks[1..]);
        }
      }
    }
  }

  /** Chunk invariance: all ways of cutting the stream into receive calls agree. */
  ghost predicate ChunkInvariant(s: seq<byte>) {
    forall chunks: seq<seq<byte>> | Flatten(chunks) == s :: Receive([], chunks) == Receive([], [s])
  }

  lemma ReceiveWhole(s: seq<byte>)
    ensures Flatten([s]) == s && Receive([], [s]) == Drain(s)
  {
    hide NextFrame;
    assert [] + s == s;
    assert [s][1..] == [];
    var p := Drain(s);
    assert Receive(p.rest, []) == Parsed([], p.rest);
  }

  /** The remaining chunks are all of them. */
  lemma ReceiveAll(chunks: seq<seq<byte>>, s: seq<byte>)
    requires Flatten(chunks) == s
    ensures Drain(s).events <= Receive([], chunks).events
    ensures BadEnd(s).None? || BadEnd(s).value == |s| ==> Drain(s) == Receive([], chunks)
  {
    hide NextFrame, Drain, BadEnd, Receive, Flatten;
    assert s == [] + Flatten(chunks);
    EmptyDrain();
    ReceiveFrom([], chunks, s);
    assert [] + Receive([], chunks).events == Receive([], chunks).events;
  }

  lemma EmptyDrain()
    ensures Drain([]) == Parsed([], []) && BadEnd([]).None?
  {
  }

  /** However the stream is cut, the callbacks before the first bad checksum are fired, in order. */
  lemma EventsBeforeBadChecksum(s: seq<byte>, chunks: seq<seq<byte>>)
    requires Flatten(chunks) == s
    ensures Drain(s).events <= Receive([], chunks).events
  {
    hide NextFrame;
    ReceiveAll(chunks, s);
  }

  lemma ShortKept(buf: seq<byte>)
    requires |buf| < HEADER_LEN
    ensures Drain(buf) == Parsed([], buf) && BadEnd(buf).None?
  {
    hide NextFrame;
  }

  /** Cutting one byte before the end shows the difference when bytes follow a bad frame. */
  lemma LastByteApart(s: seq<byte>)
    requires BadEnd(s).Some? && BadEnd(s).value < |s|
    ensures Flatten([s[..|s| - 1], s[|s| - 1..]]) == s
    ensures Receive([], [s[..|s| - 1], s[|s| - 1..]]) == Parsed(Drain(s).events, s[|s| - 1..])
    ensures Receive([], [s]).rest == []
  {
    hide NextFrame, BadEnd, Drain;
    var init, last := s[..|s| - 1], s[|s| - 1..];
    var chunks := [init, last];
    assert init + last == s;
    assert chunks[1..] == [last];
    ReceiveWhole(last);
    ReceiveWhole(s);
    BadEndSeenAtEnd(s, |s| - 1);
    BadEndStable(init, last);
    assert [] + init == init;
    ShortKept(last);
    BadEndStable(s, []);
    assert s + [] == s;
  }

  /** Exactly the streams without a bad checksum, or whose last bytes are the bad frame, are parsed
      the same whatever the cuts. */
  lemma ChunkInvariantExactly(s: seq<byte>)
    ensures ChunkInvariant(s) <==> BadEnd(s).None? || BadEnd(s).value == |s|
  {
    hide NextFrame, Drain, BadEnd, Receive, Flatten;
    ReceiveWhole(s);
    if BadEnd(s).None? || BadEnd(s).value == |s| {
      forall chunks: seq<seq<byte>> | Flatten(chunks) == s
        ensures Receive([], chunks) == Receive([], [s])
      {
        ReceiveAll(chunks, s);
      }
    } else {
      LastByteApart(s);
      assert Receive([], [s]).rest != Receive([], [s[..|s| - 1], s[|s| - 1..]]).rest;
    }
  }

  // ----- building frames -----

  /** The frame of a command: checksum over command, length and data. */
  function Frame(e: Event): (f: seq<byte>)
    requires Sendable(e)
    ensures |f| == HEADER_LEN + |e.data|
  {
    var body := Word(e.command) + Word(|e.data|) + e.data;
    Word(Checksum(body)) + body
  }

  predicate Sendable(e: Event) {
    |e.data| < 0x8000_0000
  }

  function Frames(events: seq<Event>): seq<byte>
    requires forall e | e in events :: Sendable(e)
  {
    if events == [] then [] else Frame(events[0]) + Frames(events[1..])
  }

  /** The words of a built frame, read back. */
  lemma FrameFields(e: Event)
    requires Sendable(e)
    ensures LoadWord(Frame(e), 0) == Checksum(Frame(e)[4..])
    ensures LoadWord(Frame(e), 4) == e.command
    ensures DeclaredLength(Frame(e)) == |e.data|
    ensures Frame(e)[HEADER_LEN..] == e.data
  {
    var f := Frame(e);
    var body := Word(e.command) + Word(|e.data|) + e.data;
    assert f[4..] == body;
    assert f[0..4] == Word(Checksum(body));
    assert f[4..8] == Word(e.command);
    assert f[8..12] == Word(|e.data|);
    LoadWordSlice(f, 0, Checksum(body));
    LoadWordSlice(f, 4, e.command);
    LoadWordSlice(f, 8, |e.data|);
  }

  /** Every byte of a built frame: the byte sum of the rest, the command and the data length, each with its least
      significant byte first, then the data. */
  lemma FrameBytes(e: Event, k: nat)
    requires Sendable(e) && k < |Frame(e)|
    ensures |Frame(e)| == 12 + |e.data|
    ensures Frame(e)[k] ==
            if k < 4 then Sum(Frame(e)[4..]) / Power256(k) % 256
            else if k < 8 then e.command / Power256(k - 4) % 256
            else if k < 12 then |e.data| / Power256(k - 8) % 256
            else e.data[k - 12]
  {
    var body := Word(e.command) + Word(|e.data|) + e.data;
    assert Frame(e)[4..] == body;
    hide Sum, Word;
    if k < 4 {
      WordBytes(Checksum(body), k);
      LowBytes(Sum(body), k);
    } else if k < 8 {
      WordBytes(e.command, k - 4);
    } else if k < 12 {
      WordBytes(|e.data|, k - 8);
    }
    hide Power256, Checksum;
  }

  /** Keeping 32 bits keeps the four low bytes. */
  lemma LowBytes(n: nat, k: nat)
    requires k < 4
    ensures n % 0x1_0000_0000 / Power256(k) % 256 == n / Power256(k) % 256
  {
    assert Power256(0) == 1 && Power256(1) == 256 && Power256(2) == 0x1_0000 && Power256(3) == 0x100_0000;
    hide Power256;
    match k
    case 0 =>
    case 1 => LowByte1(n);
    case 2 => LowByte2(n);
    case 3 => LowByte3(n);
  }

  lemma LowByte1(n: nat)
    ensures n % 0x1_0000_0000 / 256 % 256 == n / 256 % 256
  {
    var q, r := n / 0x1_0000_0000, n % 0x1_0000_0000;
    var a, b := r / 256, r % 256;
    var c, d := a / 256, a % 256;
    DivModUnique(n, 256, 0x100_0000 * q + a, b);
    DivModUnique(0x100_0000 * q + a, 256, 0x1_0000 * q + c, d);
  }

  lemma LowByte2(n: nat)
    ensures n % 0x1_0000_0000 / 0x1_0000 % 256 == n / 0x1_0000 % 256
  {
    var q, r := n / 0x1_0000_0000, n % 0x1_0000_0000;
    var a, b := r / 0x1_0000, r % 0x1_0000;
    var c, d := a / 256, a % 256;
    DivModUnique(n, 0x1_0000, 0x1_0000 * q + a, b);
    DivModUnique(0x1_0000 * q + a, 256, 256 * q + c, d);
  }

  lemma LowByte3(n: nat)
    ensures n % 0x1_0000_0000 / 0x100_0000 % 256 == n / 0x100_0000 % 256
  {
    var q, r := n / 0x1_0000_0000, n % 0x1_0000_0000;
    var a, b := r / 0x100_0000, r % 0x100_0000;
    var c, d := a / 256, a % 256;
    DivModUnique(n, 0x100_0000, 256 * q + a, b);
    DivModUnique(256 * q + a, 256, 1 * q + c, d);
  }

  /** A built frame at the front of the buffer is recognised, whatever follows it. */
  lemma FrameRecognised(e: Event, more: seq<byte>)
    requires Sendable(e)
    ensures NextFrame(Frame(e) + more) == Good(e, |Frame(e)|)
  {
    FrameFields(e);
    var f := Frame(e);
    assert f[4..|f|] == f[4..] && f[HEADER_LEN..|f|] == f[HEADER_LEN..];
    NextFrameStable(f, more);
  }

  /** Frame round trip: parsing built frames fires exactly them and keeps exactly the tail. */
  lemma {:induction false} FramesRoundTrip(events: seq<Event>, tail: seq<byte>)
    requires forall e | e in events :: Sendable(e)
    requires NextFrame(tail).NeedMore?
    ensures Drain(Frames(events) + tail) == Parsed(events, tail)
    ensures BadEnd(Frames(events) + tail).None?
    decreases |events|
  {
    if events == [] {
      assert Frames(events) + tail == tail;
    } else {
      var f, more := Frame(events[0]), Frames(events[1..]) + tail;
      assert Frames(events) + tail == f + more;
      FrameRecognised(events[0], more);
      assert (f + more)[|f|..] == more;
      FramesRoundTrip(events[1..], tail);
    }
  }

  /** The same over the network: any list of built frames, any incomplete tail, any cuts. */
  lemma FramesRoundTripChunked(events: seq<Event>, tail: seq<byte>, chunks: seq<seq<byte>>)
    requires forall e | e in events :: Sendable(e)
    requires NextFrame(tail).NeedMore?
    requires Flatten(chunks) == Frames(events) + tail
    ensures Receive([], chunks) == Parsed(events, tail)
  {
    hide NextFrame;
    var s := Frames(events) + tail;
    FramesRoundTrip(events, tail);
    ReceiveWhole(s);
    ChunkInvariantExactly(s);
  }

  // ----- what the checksum detects -----

  /** A wrong byte in the checksum word or in the summed bytes breaks their agreement. */
  lemma WrongByteBreaksSum(f: seq<byte>, i: nat, b: byte)
    requires 4 <= |f| && i < |f| && b != f[i]
    requires LoadWord(f, 0) == Checksum(f[4..])
    ensures LoadWord(f[i := b], 0) != Checksum(f[i := b][4..])
  {
    var g := f[i := b];
    LoadWordInjective(f, g, 0);
    if i < 4 {
      assert g[4..] == f[4..];
      assert g[0..4][i] != f[0..4][i];
    } else {
      assert g[0..4] == f[0..4];
      assert g[4..] == f[4..][i - 4 := b];
      SumUpdate(f[4..], i - 4, b);
    }
  }

  /** A wrong byte outside the length word is caught, whatever follows the frame. */
  lemma WrongByteDetected(e: Event, i: nat, b: byte, more: seq<byte>)
    requires Sendable(e) && i < |Frame(e)| && b != Frame(e)[i]
    requires i < 8 || HEADER_LEN <= i
    ensures NextFrame(Frame(e)[i := b] + more) == BadChecksum(|Frame(e)|)
  {
    FrameFields(e);
    var f := Frame(e);
    var g := f[i := b];
    WrongByteBreaksSum(f, i, b);
    assert DeclaredLength(g) == |e.data| by {
      assert g[8..12] == f[8..12];
      LoadWordInjective(f, g, 8);
    }
    hide Frame, Checksum, LoadWord;
    assert g[4..HEADER_LEN + |e.data|] == g[4..];
    assert NextFrame(g) == BadChecksum(|f|);
    NextFrameStable(g, more);
  }

  /** A length word that shrinks takes more out of the sum than the 32 bits can hide. */
  lemma ShorterLengthDetected(f: seq<byte>, i: nat, b: byte, n: nat)
    requires 8 <= i < HEADER_LEN + n < |f| <= 16843013
    requires i < HEADER_LEN && b < f[i]
    requires LoadWord(f, 0) == Checksum(f[4..])
    ensures LoadWord(f[i := b], 0) != Checksum(f[i := b][4..HEADER_LEN + n])
  {
    var g := f[i := b];
    var kept, cut := g[4..HEADER_LEN + n], g[HEADER_LEN + n..];
    assert g[4..] == f[4..][i - 4 := b];
    SumUpdate(f[4..], i - 4, b);
    assert g[4..] == kept + cut;
    SumAppend(kept, cut);
    ChecksumExact(f[4..]);
    ChecksumExact(kept);
    assert g[0..4] == f[0..4];
    LoadWordInjective(f, g, 0);
  }

  /** A length word that grows adds the difference and the bytes it swallows to the sum. */
  lemma LongerLengthDetected(f: seq<byte>, i: nat, b: byte, swallowed: seq<byte>)
    requires 8 <= i < HEADER_LEN <= |f| && |f| + |swallowed| <= 16843013 && f[i] < b
    requires LoadWord(f, 0) == Checksum(f[4..])
    ensures LoadWord(f[i := b] + swallowed, 0) != Checksum((f[i := b] + swallowed)[4..])
  {
    var g := f[i := b];
    assert g[4..] == f[4..][i - 4 := b];
    SumUpdate(f[4..], i - 4, b);
    assert (g + swallowed)[4..] == g[4..] + swallowed;
    SumAppend(g[4..], swallowed);
    SumBound(swallowed);
    ChecksumExact(f[4..]);
    ChecksumExact(g[4..] + swallowed);
    assert (g + swallowed)[0..4] == f[0..4];
    LoadWordInjective(f, g + swallowed, 0);
  }

  /** After one byte of a word changed, the word is smaller or larger as the byte is. */
  lemma WordFollowsByte(f: seq<byte>, i: nat, b: byte)
    requires |f| >= HEADER_LEN && 8 <= i < HEADER_LEN
    ensures LoadWord(f[i := b], 8) < LoadWord(f, 8) <==> b < f[i]
    ensures LoadWord(f[i := b], 8) == LoadWord(f, 8) <==> b == f[i]
  {
  }

  /** The length that a wrong byte declares, if it fits, takes a wrong sum. */
  lemma WrongLengthBreaksSum(f: seq<byte>, i: nat, b: byte, more: seq<byte>, n: nat)
    requires HEADER_LEN <= |f| && |f| + |more| <= 16843013 && 8 <= i < HEADER_LEN && b != f[i]
    requires LoadWord(f, 0) == Checksum(f[4..]) && LoadWord(f, 8) == |f| - HEADER_LEN
    requires LoadWord(f[i := b], 8) == n <= |f| + |more| - HEADER_LEN
    ensures LoadWord(f[i := b], 0) != Checksum((f[i := b] + more)[4..HEADER_LEN + n])
  {
    hide Checksum, LoadWord;
    var g := f[i := b];
    WordFollowsByte(f, i, b);
    if n < |f| - HEADER_LEN {
      ShorterLengthDetected(f, i, b, n);
      assert (g + more)[4..HEADER_LEN + n] == g[4..HEADER_LEN + n];
    } else {
      var swallowed := more[..HEADER_LEN + n - |f|];
      LongerLengthDetected(f, i, b, swallowed);
      assert (g + more)[4..HEADER_LEN + n] == (g + swallowed)[4..];
      WordsStable(g, swallowed);
    }
  }

  /** A wrong byte in the length word: the length it declares is waited for or fails the checksum. */
  lemma WrongLengthDetected(e: Event, i: nat, b: byte, more: seq<byte>)
    requires Sendable(e) && |Frame(e)| + |more| <= 16843013
    requires 8 <= i < HEADER_LEN && b != Frame(e)[i]
    ensures !NextFrame(Frame(e)[i := b] + more).Good?
  {
    hide Frame, Checksum, LoadWord;
    var f := Frame(e);
    var m := f[i := b] + more;
    FrameFields(e);
    WordsStable(f[i := b], more);
    var n := DeclaredLength(m);
    if n <= |m| - HEADER_LEN {
      WrongLengthBreaksSum(f, i, b, more, n);
    }
  }

  /** A wrong byte anywhere, whatever follows in the buffer: the damaged frame is never delivered, as long
      as all of it is short enough for an exact byte sum. */
  lemma WrongByteNeverDelivered(e: Event, i: nat, b: byte, more: seq<byte>)
    requires Sendable(e) && |Frame(e)| + |more| <= 16843013
    requires i < |Frame(e)| && b != Frame(e)[i]
    ensures !NextFrame(Frame(e)[i := b] + more).Good?
  {
    if i < 8 || HEADER_LEN <= i {
      WrongByteDetected(e, i, b, more);
    } else {
      WrongLengthDetected(e, i, b, more);
    }
  }
}
