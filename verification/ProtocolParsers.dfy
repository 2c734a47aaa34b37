/** CProtocolParser: the stream parser over the growable buffer, the frame builder, and the heartbeat
    frame that the event loop builds by hand. */
module ProtocolParsers {
  import opened Bytes
  import opened Framing
  import opened SmartBuffers

  /** Copies `src` into `output + at`. */
  method MemCpy(output: array<byte>, at: nat, src: seq<byte>)
    requires at + |src| <= output.Length
    modifies output
    ensures output[..] == Splice(old(output[..]), at, src)
  {
    forall i | 0 <= i < |src| {
      output[at + i] := src[i];
    }
  }

  /** Stores a word through an `unsigned int *` into `output + at`. */
  method StoreWord(output: array<byte>, at: nat, v: uint32)
    requires at + 4 <= output.Length
    modifies output
    ensures output[..] == Splice(old(output[..]), at, Word(v))
  {
    MemCpy(output, at, Word(v));
  }

  /** The 32-bit accumulator loop of getCheckSum. */
  method GetCheckSum(recvbuf: seq<byte>, recvlen: nat) returns (checksum: uint32)
    requires recvlen <= |recvbuf|
    ensures checksum == Checksum(recvbuf[..recvlen])
    ensures recvlen == |recvbuf| ==> checksum == Checksum(recvbuf)
  {
    checksum := 0;
    var i := 0;
    while i < recvlen
      invariant i <= recvlen
      invariant checksum == Checksum(recvbuf[..i])
    {
      ChecksumNext(recvbuf, i);
      checksum := (checksum + recvbuf[i]) % 0x1_0000_0000;
      i := i + 1;
    }
    assert recvlen == |recvbuf| ==> recvbuf[..recvlen] == recvbuf;
  }

  /** Compares the first word with the byte sum of what follows; too short or missing input fails. */
  method CheckCheckSum(recvbuf: Option<seq<byte>>, recvlen: nat) returns (ok: bool)
    requires recvbuf.Some? ==> recvlen <= |recvbuf.value|
    ensures ok <==> recvbuf.Some? && recvlen >= HEADER_LEN
                    && Checksum(recvbuf.value[4..recvlen]) == LoadWord(recvbuf.value, 0)
  {
    if recvbuf.None? {
      return false;
    }
    if recvlen < HEADER_LEN {
      return false;
    }
    var data := recvbuf.value;
    var checksum := LoadWord(data, 0);
    var tmpsum: uint32 := 0;
    var i := 0;
    while i < recvlen - 4
      invariant i <= recvlen - 4
      invariant tmpsum == Checksum(data[4..4 + i])
    {
      assert data[4..4 + i + 1][..i] == data[4..4 + i];
      tmpsum := (tmpsum + data[4 + i]) % 0x1_0000_0000;
      i := i + 1;
    }
    return tmpsum == checksum;
  }

  /** A buffer too short for the frame it declares fires nothing and is kept. */
  lemma Incomplete(data: seq<byte>)
    requires |data| < HEADER_LEN || ToSizeT(ToInt32(LoadWord(data, 8))) > |data| - HEADER_LEN
    ensures Drain(data) == Parsed([], data)
  {
    hide Checksum, LoadWord;
  }

  /** Once the declared length fits, the checksum alone decides what stands at the front. */
  lemma Complete(data: seq<byte>, n: int32)
    requires |data| >= HEADER_LEN && n == ToInt32(LoadWord(data, 8))
    requires ToSizeT(n) <= |data| - HEADER_LEN < 0x8000_0000
    ensures 0 <= n <= |data| - HEADER_LEN
    ensures Checksum(data[4..HEADER_LEN + n]) != LoadWord(data, 0) ==> Drain(data) == Parsed([], [])
    ensures Checksum(data[4..HEADER_LEN + n]) == LoadWord(data, 0) ==>
              var e := Event(LoadWord(data, 4), data[HEADER_LEN..HEADER_LEN + n]);
              var later := Drain(data[HEADER_LEN + n..]);
              Drain(data) == Parsed([e] + later.events, later.rest)
  {
    hide Checksum, LoadWord;
  }

  class ProtocolParser {
    const sBuffer: SmartBuffer
    var events: seq<Event>   // the callbacks made so far

    ghost predicate Valid()
      reads this, sBuffer
    {
      sBuffer.Valid() && sBuffer.stepSize == 1024
    }

    constructor ()
      ensures Valid() && fresh(sBuffer) && fresh(sBuffer.buffer)
      ensures sBuffer.Contents() == [] && events == []
    {
      sBuffer := new SmartBuffer(0, 1024);
      events := [];
    }

    lemma OneMoreEvent(fired: seq<Event>, e: Event, later: seq<Event>)
      ensures fired + [e] + later == fired + ([e] + later)
    {
    }

    /** Feeds one received chunk: fires a callback for every complete frame, keeps the incomplete
        rest, and drops the whole buffer at a bad checksum. */
    method ParseSocketProtocol(recvbuf: seq<byte>)
      requires Valid()
      requires sBuffer.dataSize + |recvbuf| + 1024 < 0x8000_0000
      modifies this, sBuffer, sBuffer.buffer
      ensures Valid() && (sBuffer.buffer == old(sBuffer.buffer) || fresh(sBuffer.buffer))
      ensures events == old(events) + Drain(old(sBuffer.Contents()) + recvbuf).events
      ensures sBuffer.Contents() == Drain(old(sBuffer.Contents()) + recvbuf).rest
    {
      hide Drain, Checksum, LoadWord, ToInt32, ToSizeT;
      sBuffer.Append(recvbuf);
      ghost var all := sBuffer.Contents();
      ghost var before := events;
      while sBuffer.dataSize >= HEADER_LEN
        invariant Valid() && (sBuffer.buffer == old(sBuffer.buffer) || fresh(sBuffer.buffer))
        invariant sBuffer.dataSize < 0x8000_0000
        invariant before + Drain(all).events == events + Drain(sBuffer.Contents()).events
        invariant Drain(all).rest == Drain(sBuffer.Contents()).rest
        decreases sBuffer.dataSize
      {
        var data := sBuffer.Contents();
        var packetDataLen := ToInt32(LoadWord(data, 8));
        if ToSizeT(packetDataLen) <= sBuffer.dataSize - HEADER_LEN {
          Complete(data, packetDataLen);
          var ok := CheckCheckSum(Some(data), packetDataLen + HEADER_LEN);
          if !ok {
            sBuffer.Empty();
            break;
          } else {
            var wEvent := LoadWord(data, 4);
            var e := Event(wEvent, data[HEADER_LEN..HEADER_LEN + packetDataLen]);
            ghost var fired := events;
            events := events + [e];
            sBuffer.Truncate(packetDataLen + HEADER_LEN);
            assert sBuffer.Contents() == data[packetDataLen + HEADER_LEN..];
            OneMoreEvent(fired, e, Drain(sBuffer.Contents()).events);
          }
        } else {
          break;
        }
      }
      Incomplete(sBuffer.Contents());
    }
  }

  /** Any run of receive calls on a fresh parser does what Framing.Receive says. */
  method ParseChunks(chunks: seq<seq<byte>>) returns (parser: ProtocolParser)
    requires |Flatten(chunks)| + 1024 < 0x8000_0000
    ensures parser.Valid()
    ensures Parsed(parser.events, parser.sBuffer.Contents()) == Receive([], chunks)
  {
    hide Drain;
    parser := new ProtocolParser();
    var i := 0;
    while i < |chunks|
      invariant i <= |chunks|
      invariant fresh(parser) && fresh(parser.sBuffer) && fresh(parser.sBuffer.buffer) && parser.Valid()
      invariant parser.sBuffer.dataSize + |Flatten(chunks[i..])| <= |Flatten(chunks)|
      invariant Receive([], chunks).events == parser.events + Receive(parser.sBuffer.Contents(), chunks[i..]).events
      invariant Receive([], chunks).rest == Receive(parser.sBuffer.Contents(), chunks[i..]).rest
    {
      assert chunks[i..][1..] == chunks[i + 1..];
      parser.ParseSocketProtocol(chunks[i]);
      i := i + 1;
    }
  }

  /** A frame lies over memory `s` when its words and data stand where the header says. */
  lemma FrameLayout(s: seq<byte>, e: Event)
    requires Sendable(e) && |s| >= HEADER_LEN + |e.data|
    requires s[4..8] == Word(e.command) && s[8..12] == Word(|e.data|)
    requires s[HEADER_LEN..HEADER_LEN + |e.data|] == e.data
    requires s[0..4] == Word(Checksum(s[4..HEADER_LEN + |e.data|]))
    ensures s[..HEADER_LEN + |e.data|] == Frame(e)
  {
    hide Word, Checksum;
    var n := HEADER_LEN + |e.data|;
    var body := Word(e.command) + Word(|e.data|) + e.data;
    FourParts(s, 4, 8, HEADER_LEN, n);
    assert s[4..n] == body;
    TwoParts(s, 4, n);
  }

  lemma FourParts(s: seq<byte>, a: nat, b: nat, c: nat, d: nat)
    requires a <= b <= c <= d <= |s|
    ensures s[a..d] == s[a..b] + s[b..c] + s[c..d]
  {
  }

  lemma TwoParts(s: seq<byte>, a: nat, d: nat)
    requires a <= d <= |s|
    ensures s[..d] == s[0..a] + s[a..d]
  {
  }

  /** What the stores of MakeProtocolForSocket leave in memory. */
  lemma StoresMakeFrame(m: seq<byte>, e: Event, stored: seq<byte>, result: seq<byte>)
    requires Sendable(e) && |m| >= HEADER_LEN + |e.data|
    requires stored == Splice(Splice(Splice(m, 4, Word(e.command)), HEADER_LEN, e.data), 8, Word(|e.data|))
    requires result == Splice(stored, 0, Word(Checksum(stored[4..HEADER_LEN + |e.data|])))
    ensures result[..HEADER_LEN + |e.data|] == Frame(e)
    ensures result[HEADER_LEN + |e.data|..] == m[HEADER_LEN + |e.data|..]
  {
    hide Splice, Checksum, Word;
    var n := HEADER_LEN + |e.data|;
    var m1 := Splice(m, 4, Word(e.command));
    var m2 := Splice(m1, HEADER_LEN, e.data);
    var cs := Word(Checksum(stored[4..n]));
    SpliceRanges(m, 4, Word(e.command), n, |m|);
    SpliceRanges(m1, HEADER_LEN, e.data, 4, 8);
    SpliceRanges(m1, HEADER_LEN, e.data, n, |m|);
    SpliceRanges(m2, 8, Word(|e.data|), 4, 8);
    SpliceRanges(m2, 8, Word(|e.data|), HEADER_LEN, n);
    SpliceRanges(m2, 8, Word(|e.data|), n, |m|);
    SpliceRanges(stored, 0, cs, 4, 8);
    SpliceRanges(stored, 0, cs, 8, 12);
    SpliceRanges(stored, 0, cs, HEADER_LEN, n);
    SpliceRanges(stored, 0, cs, 4, n);
    SpliceRanges(stored, 0, cs, n, |m|);
    FrameLayout(result, e);
  }

  /** Builds a frame in place in `output`. A null or empty input leaves the data bytes alone. */
  method MakeProtocolForSocket(command: uint32, input: Option<seq<byte>>, inputlen: nat, output: array<byte>)
    returns (outputlen: nat)
    requires inputlen + HEADER_LEN < 0x8000_0000
    requires output.Length >= inputlen + HEADER_LEN
    requires input.Some? ==> |input.value| >= inputlen
    modifies output
    ensures outputlen == inputlen + HEADER_LEN
    ensures output[..outputlen] ==
            Frame(Event(command, if input.Some? then input.value[..inputlen]
                                 else old(output[HEADER_LEN..HEADER_LEN + inputlen])))
    ensures output[outputlen..] == old(output[outputlen..])
  {
    hide Frame, Checksum, Word, Splice;
    ghost var m := output[..];
    ghost var data := if input.Some? then input.value[..inputlen] else m[HEADER_LEN..HEADER_LEN + inputlen];
    StoreWord(output, 4, command);
    ghost var m1 := output[..];
    if input.Some? && inputlen != 0 {
      MemCpy(output, HEADER_LEN, input.value[..inputlen]);
    } else {
      SpliceRanges(m, 4, Word(command), HEADER_LEN, HEADER_LEN + inputlen);
      SpliceSame(m1, HEADER_LEN, data);
    }
    assert output[..] == Splice(m1, HEADER_LEN, data);
    StoreWord(output, 8, inputlen);
    ghost var stored := output[..];
    var checksum := GetCheckSum(output[4..HEADER_LEN + inputlen], inputlen + 8);
    StoreWord(output, 0, checksum);
    outputlen := inputlen + HEADER_LEN;
    StoresMakeFrame(m, Event(command, data), stored, output[..]);
    assert output[..outputlen] == output[..][..outputlen] && output[outputlen..] == output[..][outputlen..];
  }

  /** Writing what is already there changes nothing. */
  lemma SpliceSame<T>(s: seq<T>, at: nat, w: seq<T>)
    requires at + |w| <= |s| && s[at..at + |w|] == w
    ensures Splice(s, at, w) == s
  {
  }

  const WIS_CMD_HEART_BEAT: uint32 := 0x8000

  /** The stores of timer_cb, the time before the checksum. */
  lemma HeartbeatStores(m: seq<byte>, seconds: uint32, stored: seq<byte>, result: seq<byte>)
    requires |m| == 16
    requires stored == Splice(Splice(Splice(m, 4, Word(WIS_CMD_HEART_BEAT)), 8, Word(4)), 12, Word(seconds))
    requires result == Splice(stored, 0, Word(Checksum(stored[4..16])))
    ensures result == Frame(Event(WIS_CMD_HEART_BEAT, Word(seconds)))
    ensures result[4..8] == Word(WIS_CMD_HEART_BEAT) && result[8..12] == Word(4)
  {
    hide Splice, Checksum, Word;
    var m1 := Splice(m, 4, Word(WIS_CMD_HEART_BEAT));
    var m2 := Splice(m1, 8, Word(4));
    var cs := Word(Checksum(stored[4..16]));
    SpliceRanges(m, 4, Word(WIS_CMD_HEART_BEAT), 0, 0);
    SpliceRanges(m1, 8, Word(4), 4, 8);
    SpliceRanges(m2, 12, Word(seconds), 4, 8);
    SpliceRanges(m2, 12, Word(seconds), 8, 12);
    SpliceRanges(stored, 0, cs, 4, 8);
    SpliceRanges(stored, 0, cs, 8, 12);
    SpliceRanges(stored, 0, cs, 12, 16);
    SpliceRanges(stored, 0, cs, 4, 16);
    FrameLayout(result, Event(WIS_CMD_HEART_BEAT, Word(seconds)));
    assert result[..16] == result;
  }

  /** The heartbeat frame timer_cb assembles itself, without the frame builder. */
  method HeartbeatFrame(seconds: uint32) returns (buf: array<byte>)
    ensures fresh(buf)
    ensures buf[..] == Frame(Event(WIS_CMD_HEART_BEAT, Word(seconds)))
    ensures buf[4..12] == [0x00, 0x80, 0, 0, 4, 0, 0, 0]
  {
    HeartbeatWords();
    hide Word, Frame, Checksum, Splice;
    buf := new byte[16](_ => 0);
    ghost var m := buf[..];
    StoreWord(buf, 4, WIS_CMD_HEART_BEAT);
    StoreWord(buf, 8, 4);
    StoreWord(buf, 12, seconds);
    ghost var stored := buf[..];
    ghost var body := stored[4..16];
    assert Checksum(body[..0]) == 0 by { ChecksumExact([]); }
    var checkSum: uint32 := 0;
    var i := 0;
    while i < 12
      invariant i <= 12
      invariant checkSum == Checksum(body[..i])
      invariant buf[..] == stored
    {
      ChecksumNext(body, i);
      assert buf[4 + i] == stored[4 + i] == body[i];
      checkSum := (checkSum + buf[4 + i]) % 0x1_0000_0000;
      i := i + 1;
    }
    assert body[..12] == body;
    StoreWord(buf, 0, checkSum);
    HeartbeatStores(m, seconds, stored, buf[..]);
    TwoWords(buf[..]);
    assert buf[4..12] == buf[..][4..12];
  }

  lemma TwoWords(s: seq<byte>)
    requires |s| >= 12
    ensures s[4..12] == s[4..8] + s[8..12]
  {
  }

  lemma HeartbeatWords()
    ensures Word(WIS_CMD_HEART_BEAT) == [0x00, 0x80, 0, 0] && Word(4) == [4, 0, 0, 0]
  {
  }
}
