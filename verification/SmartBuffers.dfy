/** The growable byte buffer CSmartBuffer. */
module SmartBuffers {
  import opened Bytes

  /** Whether `pattern` stands in `s` at index `at`. */
  predicate MatchesAt(s: seq<byte>, pattern: seq<byte>, at: int) {
    0 <= at && at + |pattern| <= |s| && s[at..at + |pattern|] == pattern
  }

  class SmartBuffer {
    var buffer: array<byte>   // its length is the allocated size
    var dataSize: nat
    var stepSize: nat

    ghost predicate Valid()
      reads this
    {
      dataSize <= buffer.Length
    }

    /** The bytes the buffer holds. */
    function Contents(): (s: seq<byte>)
      requires Valid()
      reads this, buffer
      ensures |s| == dataSize
    {
      buffer[..dataSize]
    }

    constructor (allocatedSize: nat, step: nat)
      ensures Valid() && fresh(buffer)
      ensures Contents() == [] && stepSize == step && buffer.Length == allocatedSize
    {
      buffer := new byte[allocatedSize](_ => 0);
      dataSize := 0;
      stepSize := step;
    }

    /** Appends `buf`, moving the data to a larger block when the allocated one is too small. */
    method Append(buf: seq<byte>)
      requires Valid()
      requires dataSize + |buf| + stepSize < 0x8000_0000
      modifies this, buffer
      ensures Valid() && (buffer == old(buffer) || fresh(buffer))
      ensures Contents() == old(Contents()) + buf
      ensures stepSize == old(stepSize)
      ensures buffer.Length == if old(dataSize) + |buf| <= old(buffer.Length) then old(buffer.Length)
                               else old(dataSize) + |buf| + stepSize
    {
      if dataSize + |buf| > buffer.Length {
        var temp := new byte[dataSize + |buf| + stepSize](_ => 0);
        forall i | 0 <= i < dataSize {
          temp[i] := buffer[i];
        }
        buffer := temp;
      }
      forall i | 0 <= i < |buf| {
        buffer[dataSize + i] := buf[i];
      }
      dataSize := dataSize + |buf|;
    }

    /** Forgets the contents and keeps the allocated block. */
    method Empty()
      requires Valid()
      modifies this
      ensures Valid() && buffer == old(buffer) && stepSize == old(stepSize)
      ensures Contents() == []
    {
      dataSize := 0;
    }

    /** Drops the first `length` bytes; dropping more than there are empties the buffer. */
    method Truncate(length: nat)
      requires Valid()
      modifies this, buffer
      ensures Valid() && buffer == old(buffer) && stepSize == old(stepSize)
      ensures Contents() == if old(dataSize) <= length then [] else old(Contents())[length..]
    {
      if dataSize <= length {
        dataSize := 0;
        return;
      }
      var left := dataSize - length;
      forall i | 0 <= i < left {
        buffer[i] := buffer[length + i];
      }
      dataSize := left;
    }

    /** The least index at or after `from` where `data` occurs, or -1. */
    method Find(data: seq<byte>, from: int32) returns (index: int)
      requires Valid() && dataSize < 0x8000_0000
      ensures index == -1 || (index >= from && MatchesAt(Contents(), data, index))
      ensures index >= 0 ==> forall k :: from <= k < index ==> !MatchesAt(Contents(), data, k)
      ensures index == -1 <==> data == [] || from < 0 || forall k :: k >= from ==> !MatchesAt(Contents(), data, k)
    {
      if |data| == 0 || ToSizeT(from) >= dataSize || |data| > dataSize {
        return -1;
      }
      var depth := dataSize - |data|;
      var i: int := from;
      while i <= depth
        invariant 0 <= from <= i
        invariant forall k :: from <= k < i ==> !MatchesAt(Contents(), data, k)
      {
        if data[0] != buffer[i] {
          assert buffer[i] == Contents()[i] == Contents()[i..i + |data|][0];
          i := i + 1;
          continue;
        }
        if Contents()[i..i + |data|] == data {
          return i;
        }
        i := i + 1;
      }
      return -1;
    }

    /** The least index holding `value`, or -1. */
    method FindByte(value: byte) returns (index: int)
      requires Valid() && dataSize < 0x8000_0000
      ensures index == -1 || (0 <= index < dataSize && Contents()[index] == value && value !in Contents()[..index])
      ensures index == -1 <==> value !in Contents()
    {
      var i := 0;
      while i < dataSize
        invariant 0 <= i <= dataSize
        invariant value !in Contents()[..i]
      {
        if value == buffer[i] {
          assert Contents()[i] == value;
          return i;
        }
        i := i + 1;
      }
      assert Contents()[..dataSize] == Contents();
      return -1;
    }
  }
}
