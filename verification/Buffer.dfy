/** The growing byte buffer of a connection: an array with a read index and a write index. */
module Buffers {
  import opened Bytes
  import opened Results

  const INITIAL_SIZE := 1024
  const PREPEND_SIZE := 8
  const MAX_BUFFER_SIZE := 64 * 1024 * 1024
  const EXTRA_SIZE := 65536

  /** What readv does: it fails, or the system hands over at most take of the bytes that wait. */
  datatype Incoming = Failed(errno: int) | Ready(wire: Data, take: nat)

  function Min(a: nat, b: nat): (m: nat)
    ensures m <= a && m <= b && (m == a || m == b)
  {
    if a < b then a else b
  }

  class Buffer {
    var buffer: array<byte>
    var readerIndex: nat
    var writerIndex: nat

    ghost predicate Valid()
      reads this
    {
      readerIndex <= writerIndex <= buffer.Length && PREPEND_SIZE <= buffer.Length
    }

    /** The readable bytes: the queue that every operation is specified on. */
    ghost function Contents(): (s: Data)
      requires Valid()
      reads this, buffer
      ensures |s| == ReadableBytes()
    {
      buffer[readerIndex..writerIndex]
    }

    function ReadableBytes(): nat
      requires Valid()
      reads this
    {
      writerIndex - readerIndex
    }

    function WritableBytes(): (n: nat)
      requires Valid()
      reads this
      ensures PrependableBytes() + ReadableBytes() + n == Capacity()
    {
      buffer.Length - writerIndex
    }

    function PrependableBytes(): nat
      reads this
    {
      readerIndex
    }

    function Capacity(): nat
      reads this
    {
      buffer.Length
    }

    /** Even moved to the front, the readable bytes leave no room for len more. */
    predicate IsShort(len: nat): (short: bool)
      requires Valid()
      reads this
      ensures short <==> 8 + ReadableBytes() + len > Capacity()
    {
      WritableBytes() + PrependableBytes() < len + PREPEND_SIZE
    }

    /** Making room for len bytes enlarges the array, rather than fit as is or after a move. */
    predicate Grows(len: nat): (grows: bool)
      requires Valid()
      reads this
      ensures grows <==> WritableBytes() < len && 8 + ReadableBytes() + len > Capacity()
    {
      WritableBytes() < len && IsShort(len)
    }

    constructor (initialSize: nat)
      ensures Valid() && fresh(buffer)
      ensures Contents() == [] && Capacity() == PREPEND_SIZE + initialSize
      ensures PrependableBytes() == PREPEND_SIZE
    {
      buffer := new byte[PREPEND_SIZE + initialSize](_ => 0);
      readerIndex := PREPEND_SIZE;
      writerIndex := PREPEND_SIZE;
    }

    method Retrieve(len: nat)
      requires Valid()
      modifies this`readerIndex, this`writerIndex
      ensures Valid() && Contents() == old(Contents())[Min(len, |old(Contents())|)..]
      ensures readerIndex == if len < old(ReadableBytes()) then old(readerIndex) + len else PREPEND_SIZE
      ensures readerIndex >= PREPEND_SIZE || readerIndex >= old(readerIndex)
    {
      if len < ReadableBytes() {
        readerIndex := readerIndex + len;
      } else {
        RetrieveAll();
      }
    }

    method RetrieveAll()
      requires Valid()
      modifies this`readerIndex, this`writerIndex
      ensures Valid() && Contents() == [] && readerIndex == PREPEND_SIZE
    {
      readerIndex := PREPEND_SIZE;
      writerIndex := PREPEND_SIZE;
    }

    method RetrieveAsVector(len: nat) returns (result: Data)
      requires Valid()
      modifies this`readerIndex, this`writerIndex
      ensures Valid()
      ensures result == old(Contents())[..Min(len, |old(Contents())|)]
      ensures Contents() == old(Contents())[|result|..]
      ensures result + Contents() == old(Contents())
    {
      var n := Min(len, ReadableBytes());
      ghost var before := Contents();
      result := buffer[readerIndex..readerIndex + n];
      SliceFront(buffer[..], readerIndex, n, writerIndex);
      Retrieve(n);
      hide Contents;
      assert before[..n] + before[n..] == before;
    }

    method PeekInt(width: nat) returns (r: Result<nat>)
      requires Valid()
      ensures r == if |Contents()| < width then Err(InsufficientData)
                   else Ok(FromBigEndian(Contents()[..width]))
    {
      if ReadableBytes() < width {
        return Err(InsufficientData);
      }
      SliceFront(buffer[..], readerIndex, width, writerIndex);
      r := Ok(FromBigEndian(buffer[readerIndex..readerIndex + width]));
    }

    method ReadInt(width: nat) returns (r: Result<nat>)
      requires Valid()
      modifies this`readerIndex, this`writerIndex
      ensures Valid()
      ensures r == if |old(Contents())| < width then Err(InsufficientData)
                   else Ok(FromBigEndian(old(Contents())[..width]))
      ensures Contents() == if r.Ok? then old(Contents())[width..] else old(Contents())
    {
      r := PeekInt(width);
      if r.Ok? {
        Retrieve(width);
      }
    }

    /** std::vector::resize to a greater size: a new block, the old bytes, zeros. */
    method Resize(size: nat)
      requires Valid() && size >= writerIndex && size >= PREPEND_SIZE
      modifies this`buffer
      ensures Valid() && fresh(buffer) && Capacity() == size
      ensures Contents() == old(Contents())
      ensures buffer[..writerIndex] == old(buffer[..writerIndex])
    {
      var block := new byte[size](_ => 0);
      forall i | 0 <= i < Min(size, buffer.Length) {
        block[i] := buffer[i];
      }
      assert block[..writerIndex] == buffer[..writerIndex];
      buffer := block;
    }

    /** memmove of the readable bytes to just behind the prepend area. */
    method MoveToFront()
      requires Valid() && PREPEND_SIZE + ReadableBytes() <= Capacity()
      modifies this`readerIndex, this`writerIndex, buffer
      ensures Valid() && Contents() == old(Contents())
      ensures readerIndex == PREPEND_SIZE
    {
      var readable := ReadableBytes();
      ghost var kept := Contents();
      forall i | 0 <= i < readable {
        buffer[PREPEND_SIZE + i] := buffer[readerIndex + i];
      }
      readerIndex := PREPEND_SIZE;
      writerIndex := readerIndex + readable;
      assert Contents() == kept;
    }

    /** Grows the array when free space and prepend area together are short, else moves the bytes. */
    method MakeSpace(len: nat) returns (r: Result<()>)
      requires Valid() && WritableBytes() < len
      modifies this, buffer
      ensures Valid() && (buffer == old(buffer) || fresh(buffer))
      ensures Contents() == old(Contents())
      ensures r.Ok? ==> WritableBytes() >= len
      ensures r == if old(IsShort(len)) && old(writerIndex) + len > MAX_BUFFER_SIZE
                   then Err(BufferTooLarge) else Ok(())
      ensures r.Err? ==> buffer == old(buffer) && readerIndex == old(readerIndex)
      ensures Capacity() == if old(IsShort(len)) && r.Ok? then old(writerIndex) + len else old(Capacity())
      ensures readerIndex == if old(IsShort(len)) then old(readerIndex) else PREPEND_SIZE
    {
      if IsShort(len) {
        var size := writerIndex + len;
        if size > MAX_BUFFER_SIZE {
          return Err(BufferTooLarge);
        }
        Resize(size);
      } else {
        MoveToFront();
      }
      r := Ok(());
    }

    method EnsureWritableBytes(len: nat) returns (r: Result<()>)
      requires Valid()
      modifies this, buffer
      ensures Valid() && (buffer == old(buffer) || fresh(buffer))
      ensures Contents() == old(Contents())
      ensures r.Ok? ==> WritableBytes() >= len
      ensures r == if old(Grows(len)) && old(writerIndex) + len > MAX_BUFFER_SIZE
                   then Err(BufferTooLarge) else Ok(())
      ensures Capacity() == if old(Grows(len)) && r.Ok? then old(writerIndex) + len else old(Capacity())
    {
      if WritableBytes() < len {
        r := MakeSpace(len);
      } else {
        r := Ok(());
      }
    }

    /** All of the data goes behind the readable bytes, or the call throws and nothing is added. */
    method Append(data: Data) returns (r: Result<()>)
      requires Valid()
      modifies this, buffer
      ensures Valid() && (buffer == old(buffer) || fresh(buffer))
      ensures r == if old(Grows(|data|)) && old(writerIndex) + |data| > MAX_BUFFER_SIZE
                   then Err(BufferTooLarge) else Ok(())
      ensures Contents() == if r.Ok? then old(Contents()) + data else old(Contents())
      ensures Capacity() ==
        if old(Grows(|data|)) && r.Ok? then old(writerIndex) + |data| else old(Capacity())
    {
      r := EnsureWritableBytes(|data|);
      if r.Ok? {
        Write(data);
      }
    }

    /** memcpy to beginWrite(), then hasWritten. */
    method Write(data: Data)
      requires Valid() && |data| <= WritableBytes()
      modifies this`writerIndex, buffer
      ensures Valid() && Contents() == old(Contents()) + data
      ensures writerIndex == old(writerIndex) + |data|
    {
      ghost var before := Contents();
      forall i | 0 <= i < |data| {
        buffer[writerIndex + i] := data[i];
      }
      assert buffer[readerIndex..writerIndex] == before;
      assert buffer[writerIndex..writerIndex + |data|] == data;
      writerIndex := writerIndex + |data|;
    }

    method AppendInt(value: nat, width: nat) returns (r: Result<()>)
      requires Valid()
      modifies this, buffer
      ensures Valid() && (buffer == old(buffer) || fresh(buffer))
      ensures r == if old(Grows(width)) && old(writerIndex) + width > MAX_BUFFER_SIZE
                   then Err(BufferTooLarge) else Ok(())
      ensures Contents() == old(Contents()) + (if r.Ok? then BigEndian(value, width) else [])
    {
      r := Append(BigEndian(value, width));
    }

    /** Writes in front of the readable bytes, into the space already read or reserved. */
    method Prepend(data: Data) returns (r: Result<()>)
      requires Valid()
      modifies this`readerIndex, buffer
      ensures Valid()
      ensures r == if |data| > old(PrependableBytes()) then Err(NoPrependSpace) else Ok(())
      ensures Contents() == if r.Ok? then data + old(Contents()) else old(Contents())
    {
      if |data| > PrependableBytes() {
        return Err(NoPrependSpace);
      }
      ghost var before := Contents();
      readerIndex := readerIndex - |data|;
      forall i | 0 <= i < |data| {
        buffer[readerIndex + i] := data[i];
      }
      Overwritten(old(buffer[..]), buffer[..], readerIndex, data);
      SameTail(old(buffer[..]), buffer[..], readerIndex + |data|, writerIndex);
      assert before == buffer[..][readerIndex + |data|..writerIndex];
      InTwo(buffer[..], readerIndex, readerIndex + |data|, writerIndex);
      r := Ok(());
    }

    /**
     Keeps the readable bytes and gives back the rest of the block. The move writes PREPEND_SIZE +
     readable bytes into the old block, so that much must fit; see ShrinkNeedsRoom.
     */
    method Shrink(reserve: nat)
      requires Valid() && PREPEND_SIZE + ReadableBytes() <= Capacity()
      modifies this, buffer
      ensures Valid() && (buffer == old(buffer) || fresh(buffer))
      ensures Contents() == old(Contents())
      ensures readerIndex == PREPEND_SIZE && WritableBytes() == reserve
      ensures Capacity() == PREPEND_SIZE + |old(Contents())| + reserve
    {
      MoveToFront();
      Resize(PREPEND_SIZE + ReadableBytes() + reserve);
    }

    /** Fills the free space and appends what does not fit: the tail of a read that spilled. */
    method Spill(data: Data) returns (r: Result<()>)
      requires Valid() && |data| > WritableBytes()
      modifies this, buffer
      ensures Valid() && (buffer == old(buffer) || fresh(buffer))
      ensures r == if old(SpillThrows(|data|)) then Err(BufferTooLarge) else Ok(())
      ensures Contents() == old(Contents()) + if r.Ok? then data else data[..old(WritableBytes())]
      ensures Capacity() ==
        if r.Ok? && old(PrependableBytes()) < |data| - old(WritableBytes()) + PREPEND_SIZE
        then old(Capacity()) + (|data| - old(WritableBytes())) else old(Capacity())
    {
      var writable := WritableBytes();
      ghost var before := Contents();
      Write(data[..writable]);
      r := Append(data[writable..]);
      SplitAgain(before, data, writable);
    }

    /** The append of the spilled bytes needs a greater block than the limit allows. */
    predicate SpillThrows(n: nat)
      requires Valid()
      reads this
    {
      && n > WritableBytes()
      && PrependableBytes() < n - WritableBytes() + PREPEND_SIZE
      && Capacity() + (n - WritableBytes()) > MAX_BUFFER_SIZE
    }

    /**
     One readv into the free space and a 64 KiB side buffer, the side buffer only when the free
     space is smaller than it; then whatever went to the side is appended.
     */
    method ReadFromFd(incoming: Incoming) returns (n: int, r: Result<()>)
      requires Valid()
      modifies this, buffer
      ensures Valid() && (buffer == old(buffer) || fresh(buffer))
      ensures incoming.Failed? ==> n == -1 && r.Ok? && Contents() == old(Contents())
      ensures incoming.Failed? ==> Capacity() == old(Capacity())
      ensures incoming.Ready? ==>
        0 <= n == Min(Min(incoming.take, |incoming.wire|), ReadLimit(old(WritableBytes())))
      ensures incoming.Ready? ==>
        r == if old(SpillThrows(n)) then Err(BufferTooLarge) else Ok(())
      ensures incoming.Ready? && r.Ok? ==> Contents() == old(Contents()) + incoming.wire[..n]
      ensures r.Err? ==> Contents() == old(Contents()) + incoming.wire[..old(WritableBytes())]
      ensures Capacity() == old(Capacity())
        || GrownBySpill(|old(Contents())|, old(Capacity()), Capacity())
    {
      if incoming.Failed? {
        return -1, Ok(());
      }
      var writable := WritableBytes();
      n := Min(Min(incoming.take, |incoming.wire|), ReadLimit(writable));
      var data := incoming.wire[..n];
      if n <= writable {
        Write(data);
        r := Ok(());
      } else {
        assert data[..writable] == incoming.wire[..writable];
        r := Spill(data);
      }
    }
  }

  /** A block after data was copied into it at a place. */
  lemma Overwritten(block: Data, block': Data, at: nat, data: Data)
    requires |block'| == |block| && at + |data| <= |block|
    requires forall i | 0 <= i < |data| :: block'[at + i] == data[i]
    requires forall i | 0 <= i < |block| && !(at <= i < at + |data|) :: block'[i] == block[i]
    ensures block'[at..at + |data|] == data
    ensures block'[..at] == block[..at]
    ensures block'[at + |data|..] == block[at + |data|..]
  {
  }

  lemma SliceFront(block: Data, from: nat, n: nat, to: nat)
    requires from + n <= to <= |block|
    ensures block[from..to][..n] == block[from..from + n]
  {
  }

  lemma SameTail(block: Data, block': Data, from: nat, to: nat)
    requires from <= to <= |block| == |block'| && block[from..] == block'[from..]
    ensures block[from..to] == block'[from..to]
  {
    SliceFront(block, from, to - from, |block|);
    SliceFront(block', from, to - from, |block|);
    assert block[from..|block|] == block[from..] && block'[from..|block|] == block'[from..];
  }

  lemma InTwo(block: Data, from: nat, mid: nat, to: nat)
    requires from <= mid <= to <= |block|
    ensures block[from..to] == block[from..mid] + block[mid..to]
  {
  }

  lemma SplitAgain(before: Data, data: Data, k: nat)
    requires k <= |data|
    ensures (before + data[..k]) + data[k..] == before + data
  {
  }

  /** The two iovecs together: never less than 64 KiB, however full the block is. */
  function ReadLimit(writable: nat): (limit: nat)
    ensures limit >= 65536
    ensures limit == writable + 65536 || (limit == writable && writable >= 65536)
  {
    if writable < EXTRA_SIZE then writable + EXTRA_SIZE else writable
  }

  /** A read that enlarges the array started with little unread and spilled at most 64 KiB. */
  ghost predicate GrownBySpill(unread: nat, before: nat, after: nat) {
    && before < after <= before + EXTRA_SIZE
    && before < unread + 2 * EXTRA_SIZE + PREPEND_SIZE
  }

  /** Shrink has no room after a prepend into a full block: one byte too few. */
  method ShrinkNeedsRoom() returns (b: Buffer)
    ensures b.Valid() && PREPEND_SIZE + b.ReadableBytes() > b.Capacity()
  {
    b := new Buffer(0);
    var r := b.Prepend([7]);
  }
}
