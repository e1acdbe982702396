/** The byte buffer that wraps around, and the transactional view on it. */
module RingBuffers {
  import opened Sequences

  type Byte = b: int | 0 <= b < 256

  datatype Error = NoError | Recoverable | Critical {
    predicate Failed() {
      this != NoError
    }
  }

  /** Numbers of type size_t are below this. */
  const WORD: nat := 0x1_0000_0000_0000_0000

  /** A vector of bytes is shorter than this, so that no position in it wraps around. */
  const VECTOR_LIMIT: nat := 0x8000_0000_0000_0000

  function Min(a: nat, b: nat): nat {
    if a < b then a else b
  }

  /** The sequence with some of its elements replaced, from an offset on. */
  function Overwrite<T>(s: seq<T>, offset: nat, data: seq<T>): (r: seq<T>)
    requires offset + |data| <= |s|
    ensures |r| == |s|
    ensures forall i :: 0 <= i < |r| ==> r[i] == if offset <= i < offset + |data| then data[i - offset] else s[i]
  {
    seq(|s|, i requires 0 <= i < |s| => if offset <= i < offset + |data| then data[i - offset] else s[i])
  }

  lemma OverwriteFront<T>(s: seq<T>, offset: nat, data: seq<T>)
    requires offset + |data| <= |s|
    ensures Overwrite(s, offset, data)[..offset + |data|] == s[..offset] + data
    ensures Overwrite(s, offset, data)[offset + |data|..] == s[offset + |data|..]
  {
  }

  lemma OverwriteNext<T>(s: seq<T>, done: nat, data: seq<T>)
    requires done + |data| <= |s|
    ensures Overwrite(s[done..], 0, data)[..|data|] == data
    ensures Overwrite(s[done..], 0, data)[|data|..] == s[done + |data|..]
  {
  }

  /** Consecutive elements from a position on, continuing at the beginning after the end. */
  function Window<T>(s: seq<T>, start: nat, n: nat): (r: seq<T>)
    requires n <= |s| && start <= |s|
    ensures |r| == n
    ensures forall i :: 0 <= i < n ==> r[i] == if start + i < |s| then s[start + i] else s[start + i - |s|]
  {
    seq(n, i requires 0 <= i < n => if start + i < |s| then s[start + i] else s[start + i - |s|])
  }

  /** Overwriting a stretch that lies in a window without a wrap overwrites the window. */
  lemma OverwriteWindow<T>(s: seq<T>, start: nat, n: nat, offset: nat, position: nat, data: seq<T>)
    requires start <= |s| && n <= |s| && offset + |data| <= n && position + |data| <= |s|
    requires position == if start + offset >= |s| then start + offset - |s| else start + offset
    ensures Window(Overwrite(s, position, data), start, n) == Overwrite(Window(s, start, n), offset, data)
  {
  }

  /** Overwriting a stretch beside a window leaves the window alone. */
  lemma OverwriteBeside<T>(s: seq<T>, start: nat, n: nat, position: nat, data: seq<T>)
    requires start <= |s| && n <= |s| && position + |data| <= |s|
    requires if start + n <= |s| then position + |data| <= start || start + n <= position || |data| == 0
             else start + n - |s| <= position && position + |data| <= start
    ensures Window(Overwrite(s, position, data), start, n) == Window(s, start, n)
  {
  }

  class RingBuffer {
    const buffer: array<Byte>
    var readPosition: nat
    var writePosition: nat
    var writeReachedRead: bool

    constructor (size: nat)
      requires size < 0x8000_0000_0000_0000
      ensures Valid() && Size() == size && fresh(buffer)
      ensures Contents() == [] && |Spare()| == size && readPosition == writePosition == 0
    {
      buffer := new Byte[size];
      readPosition, writePosition, writeReachedRead := 0, 0, false;
    }

    ghost predicate Valid()
      reads this
    {
      && Size() < VECTOR_LIMIT
      && (if Size() == 0 then readPosition == writePosition == 0
          else readPosition < Size() && writePosition < Size())
      && (writeReachedRead ==> readPosition == writePosition && Size() > 0)
    }

    function Size(): nat {
      buffer.Length
    }

    /** A position past the end of the vector continues at its beginning. */
    function Wrap(position: nat): nat {
      if position >= Size() then position - Size() else position
    }

    function ReadCompositeLength(): nat
      requires Valid()
      reads this
    {
      if writePosition < readPosition then Size() - (readPosition - writePosition)
      else if writeReachedRead then Size()
      else writePosition - readPosition
    }

    function WriteCompositeLength(): nat
      requires Valid()
      reads this
    {
      if readPosition > writePosition then readPosition - writePosition
      else if writeReachedRead then 0
      else Size() - (writePosition - readPosition)
    }

    /** The readable bytes, oldest first. */
    ghost function Contents(): (r: seq<Byte>)
      requires Valid()
      reads this, buffer
      ensures |r| == ReadCompositeLength()
    {
      Window(buffer[..], readPosition, ReadCompositeLength())
    }

    /** The bytes of the free space, in the order in which they will be written. */
    ghost function Spare(): (r: seq<Byte>)
      requires Valid()
      reads this, buffer
      ensures |r| == WriteCompositeLength()
    {
      Window(buffer[..], writePosition, WriteCompositeLength())
    }

    /** Every byte is either readable or free. */
    lemma LengthsAddUp()
      requires Valid()
      ensures |Contents()| + |Spare()| == Size() < VECTOR_LIMIT
    {
    }

    method Read(i: nat) returns (b: Byte)
      requires Valid() && i < ReadCompositeLength()
      ensures b == Contents()[i]
    {
      b := buffer[Wrap(readPosition + i)];
    }

    method Write(i: nat, b: Byte)
      requires Valid() && i < WriteCompositeLength()
      modifies buffer
      ensures Contents() == old(Contents()) && Spare() == old(Spare())[i := b]
    {
      buffer[Wrap(writePosition + i)] := b;
    }

    method ReadAdvance(bytes: nat)
      requires Valid() && bytes <= ReadCompositeLength()
      modifies this
      ensures Valid() && Contents() == old(Contents())[bytes..]
      ensures Spare() == old(Spare()) + old(Contents())[..bytes]
    {
      readPosition := Wrap(readPosition + bytes);
      writeReachedRead := if bytes > 0 then false else writeReachedRead;
    }

    /** Makes the next bytes of the free space readable.  Advancing a full ring by
        nothing instead drops everything it holds. */
    method WriteAdvance(bytes: nat)
      requires Valid() && bytes <= WriteCompositeLength()
      modifies this
      ensures Valid()
      ensures Contents() == old(Contents()) + old(Spare())[..bytes] <==> !(bytes == 0 && old(writeReachedRead))
      ensures !(bytes == 0 && old(writeReachedRead)) ==> Spare() == old(Spare())[bytes..]
      ensures bytes == 0 && old(writeReachedRead) ==> Contents() == [] && |Spare()| == Size()
    {
      writePosition := Wrap(writePosition + bytes);
      writeReachedRead := writePosition == readPosition && bytes > 0;
    }

    function ReadSegmentLength(offset: nat): nat
      requires Valid() && offset <= ReadCompositeLength()
      reads this
    {
      var remaining := ReadCompositeLength() - offset;
      var position := Wrap(readPosition + offset);
      if writePosition < position then Size() - position
      else if writePosition == position then if remaining > 0 then Size() - position else 0
      else writePosition - position
    }

    function WriteSegmentLength(offset: nat): nat
      requires Valid() && offset <= WriteCompositeLength()
      reads this
    {
      var position := Wrap(writePosition + offset);
      if readPosition > position then readPosition - position
      else if writeReachedRead then 0
      else Size() - position
    }

    /** The contiguous readable run at an offset. */
    lemma ReadSegmentIsExact(offset: nat)
      requires Valid() && offset <= ReadCompositeLength()
      ensures ReadSegmentLength(offset) ==
              Min(Size() - Wrap(readPosition + offset), ReadCompositeLength() - offset)
    {
    }

    /** The contiguous free run at an offset: reported correctly exactly unless the
        offset is at the end of the free space of a ring that still has some. */
    lemma WriteSegmentIsExactIff(offset: nat)
      requires Valid() && offset <= WriteCompositeLength()
      ensures WriteSegmentLength(offset) ==
              Min(Size() - Wrap(writePosition + offset), WriteCompositeLength() - offset)
              <==> offset < WriteCompositeLength() || WriteCompositeLength() == 0
    {
    }

    /** Fails exactly if the bytes do not fit the free space. */
    method WriteRequireLength(bytes: nat) returns (error: Error)
      requires Valid()
      ensures error == NoError <==> bytes <= |Spare()|
      ensures error.Failed() ==> error == Recoverable
    {
      error := if bytes > WriteCompositeLength() then Recoverable else NoError;
    }

    /** One memcpy into the vector: the bytes must fit the contiguous run. */
    method CopyIn(offset: nat, data: seq<Byte>)
      requires Valid() && offset <= WriteCompositeLength()
      requires |data| <= Min(WriteSegmentLength(offset), WriteCompositeLength() - offset)
      modifies buffer
      ensures Contents() == old(Contents()) && Spare() == Overwrite(old(Spare()), offset, data)
    {
      hide Window, Overwrite;
      var position := Wrap(writePosition + offset);
      OverwriteWindow(buffer[..], writePosition, WriteCompositeLength(), offset, position, data);
      OverwriteBeside(buffer[..], readPosition, ReadCompositeLength(), position, data);
      forall j | 0 <= j < |data| {
        buffer[position + j] := data[j];
      }
      assert buffer[..] == Overwrite(old(buffer[..]), position, data);
    }

    /** One memcpy out of the vector. */
    method CopyOut(offset: nat, bytes: nat) returns (data: seq<Byte>)
      requires Valid() && offset <= ReadCompositeLength() && bytes <= ReadSegmentLength(offset)
      ensures offset + bytes <= |Contents()| && data == Contents()[offset..offset + bytes]
    {
      var position := Wrap(readPosition + offset);
      data := buffer[position..position + bytes];
    }

    /** One round of a push: fills the contiguous free run, as far as there are bytes. */
    method PushSegment(data: seq<Byte>) returns (segment: nat)
      requires Valid() && 0 < |data| <= |Spare()|
      modifies this, buffer
      ensures Valid() && 0 < segment <= |data|
      ensures Contents() == old(Contents()) + data[..segment] && Spare() == old(Spare())[segment..]
    {
      hide Contents, Spare, Overwrite;
      segment := Min(WriteSegmentLength(0), |data|);
      OverwriteNext(Spare(), 0, data[..segment]);
      CopyIn(0, data[..segment]);
      WriteAdvance(segment);
    }

    /** Appends all bytes, one contiguous segment at a time, or none. */
    method Push(data: seq<Byte>) returns (error: Error)
      requires Valid()
      modifies this, buffer
      ensures Valid() && (error == Recoverable <==> |data| > |old(Spare())|)
      ensures error.Failed() ==> error == Recoverable && unchanged(this) && unchanged(buffer)
      ensures !error.Failed() ==> Contents() == old(Contents()) + data && Spare() == old(Spare())[|data|..]
    {
      hide Contents, Spare, Valid;
      error := WriteRequireLength(|data|);
      if error.Failed() {
        return;
      }
      ghost var contents, spare := Contents(), Spare();
      var done := 0;
      while done < |data|
        invariant Valid() && done <= |data| <= |spare|
        invariant Contents() == contents + data[..done] && Spare() == spare[done..]
      {
        var segment := PushSegment(data[done..]);
        AppendPiece(contents, data, done, segment);
        assert data[done..][..segment] == data[done..done + segment];
        DropTwice(spare, done, segment);
        done := done + segment;
      }
      assert data[..done] == data;
    }

    /** Takes the given number of bytes from the front, segment by segment, or none. */
    method Pop(bytes: nat) returns (error: Error, data: seq<Byte>)
      requires Valid()
      modifies this
      ensures Valid() && (error == Recoverable <==> bytes > |old(Contents())|)
      ensures error.Failed() ==> error == Recoverable && unchanged(this)
      ensures !error.Failed() ==> data == old(Contents())[..bytes] && Contents() == old(Contents())[bytes..]
    {
      data := [];
      if ReadCompositeLength() < bytes {
        return Recoverable, data;
      }
      while |data| < bytes
        invariant Valid() && |data| <= bytes <= |old(Contents())|
        invariant data == old(Contents())[..|data|] && Contents() == old(Contents())[|data|..]
        decreases bytes - |data|
      {
        var segment := Min(ReadSegmentLength(0), bytes - |data|);
        var copied := CopyOut(0, segment);
        ReadAdvance(segment);
        data := data + copied;
      }
      return NoError, data;
    }
  }

  /** A transaction on a ring: reads and writes move the offsets of the view only. */
  class BufferView {
    const ring: RingBuffer
    var readOffset: nat
    var writeOffset: nat

    constructor (ring: RingBuffer)
      requires ring.Valid()
      ensures this.ring == ring && Valid() && readOffset == writeOffset == 0
      ensures Contents() == ring.Contents() && Written() == []
    {
      this.ring := ring;
      readOffset, writeOffset := 0, 0;
    }

    ghost predicate Valid()
      reads this, ring
    {
      ring.Valid() && readOffset <= ring.ReadCompositeLength() && writeOffset <= ring.WriteCompositeLength()
    }

    function ReadCompositeLength(): nat
      requires Valid()
      reads this, ring
    {
      ring.ReadCompositeLength() - readOffset
    }

    function WriteCompositeLength(): nat
      requires Valid()
      reads this, ring
    {
      ring.WriteCompositeLength() - writeOffset
    }

    /** The bytes still to be read through the view. */
    ghost function Contents(): (r: seq<Byte>)
      requires Valid()
      reads this, ring, ring.buffer
      ensures |r| == ReadCompositeLength()
    {
      ring.Contents()[readOffset..]
    }

    /** The bytes written through the view and not yet committed to the ring. */
    ghost function Written(): (r: seq<Byte>)
      requires Valid()
      reads this, ring, ring.buffer
      ensures |r| == writeOffset
    {
      ring.Spare()[..writeOffset]
    }

    /** Everything written lies at the front of the free space of the ring. */
    lemma WrittenIsSpare()
      requires Valid()
      ensures Written() == ring.Spare()[..writeOffset]
    {
    }

    function ReadSegmentLength(offset: nat): nat
      requires Valid() && offset <= ReadCompositeLength()
      reads this, ring
    {
      ring.ReadSegmentLength(offset + readOffset)
    }

    function WriteSegmentLength(offset: nat): nat
      requires Valid() && offset <= WriteCompositeLength()
      reads this, ring
    {
      ring.WriteSegmentLength(offset + writeOffset)
    }

    /** Segments seen through a view end where the vector or the view's share ends. */
    lemma SegmentsAreExact(offset: nat)
      requires Valid()
      ensures offset <= ReadCompositeLength() ==>
        ReadSegmentLength(offset) ==
          Min(ring.Size() - ring.Wrap(ring.readPosition + readOffset + offset), ReadCompositeLength() - offset)
      ensures offset < WriteCompositeLength() ==>
        WriteSegmentLength(offset) ==
          Min(ring.Size() - ring.Wrap(ring.writePosition + writeOffset + offset), WriteCompositeLength() - offset)
    {
    }

    method WriteRequireLength(bytes: nat) returns (error: Error)
      requires Valid()
      ensures error == if bytes > WriteCompositeLength() then Recoverable else NoError
    {
      error := ring.WriteRequireLength(bytes + writeOffset);
    }

    method Read(i: nat) returns (b: Byte)
      requires Valid() && i < ReadCompositeLength()
      ensures b == Contents()[i]
    {
      b := ring.Read(i + readOffset);
    }

    method ReadAdvance(bytes: nat)
      requires Valid() && bytes <= ReadCompositeLength()
      modifies this`readOffset
      ensures Valid() && readOffset == old(readOffset) + bytes && Contents() == old(Contents())[bytes..]
    {
      readOffset := readOffset + bytes;
    }

    /** Puts a byte behind what has been written; it counts once the view advances. */
    method Write(i: nat, b: Byte)
      requires Valid() && i < WriteCompositeLength()
      modifies ring.buffer
      ensures Valid() && ring.Contents() == old(ring.Contents())
      ensures ring.Spare() == old(ring.Spare())[writeOffset + i := b]
    {
      ring.Write(i + writeOffset, b);
    }

    method WriteAdvance(bytes: nat)
      requires Valid() && bytes <= WriteCompositeLength()
      modifies this`writeOffset
      ensures Valid() && writeOffset == old(writeOffset) + bytes
      ensures ring.Spare() == old(ring.Spare())
    {
      writeOffset := writeOffset + bytes;
    }

    /** Writes all bytes through the view, segment by segment, or none. */
    method Push(data: seq<Byte>) returns (error: Error)
      requires Valid()
      modifies this`writeOffset, ring.buffer
      ensures Valid() && ring.Contents() == old(ring.Contents())
      ensures error == if |data| > old(WriteCompositeLength()) then Recoverable else NoError
      ensures error.Failed() ==> unchanged(this) && unchanged(ring.buffer)
      ensures !error.Failed() ==> Written() == old(Written()) + data
    {
      hide RingBuffer.Contents, RingBuffer.Spare, Overwrite;
      error := WriteRequireLength(|data|);
      if error.Failed() {
        return;
      }
      var done := 0;
      while done < |data|
        invariant Valid() && done <= |data| <= old(WriteCompositeLength())
        invariant writeOffset == old(writeOffset) + done
        invariant ring.Contents() == old(ring.Contents()) && Written() == old(Written()) + data[..done]
      {
        var segment := Min(WriteSegmentLength(0), |data| - done);
        OverwriteFront(ring.Spare(), writeOffset, data[done..done + segment]);
        AppendPiece(old(Written()), data, done, segment);
        ring.CopyIn(writeOffset, data[done..done + segment]);
        WriteAdvance(segment);
        done := done + segment;
      }
    }

    method Pop(bytes: nat) returns (error: Error, data: seq<Byte>)
      requires Valid()
      modifies this`readOffset
      ensures Valid() && error == (if bytes > |old(Contents())| then Recoverable else NoError)
      ensures error.Failed() ==> readOffset == old(readOffset)
      ensures !error.Failed() ==> readOffset == old(readOffset) + bytes && data == old(Contents())[..bytes]
    {
      hide RingBuffer.Contents, RingBuffer.Spare;
      data := [];
      if ReadCompositeLength() < bytes {
        return Recoverable, data;
      }
      while |data| < bytes
        invariant Valid() && |data| <= bytes <= |old(Contents())|
        invariant readOffset == old(readOffset) + |data| && data == old(Contents())[..|data|]
        decreases bytes - |data|
      {
        var segment := Min(ReadSegmentLength(0), bytes - |data|);
        var copied := ring.CopyOut(readOffset, segment);
        ReadAdvance(segment);
        data := data + copied;
      }
      return NoError, data;
    }
  }
}
