/** The file kept in memory, src/lmodem_buffer.c. */
module RamFile {
  import opened Bytes

  class RamFile {
    var buffer: array<byte>
    var readOffset: nat
    var writeOffset: nat
    var maxSize: nat

    ghost predicate Valid()
      reads this
    {
      maxSize <= buffer.Length && readOffset <= maxSize && writeOffset <= maxSize
    }

    /** What has been written so far. */
    ghost function Contents(): seq<byte>
      requires Valid()
      reads this, buffer
    {
      buffer[..writeOffset]
    }

    /** What is still to be read. */
    ghost function Unread(): seq<byte>
      requires Valid()
      reads this, buffer
    {
      if readOffset <= writeOffset then buffer[readOffset..writeOffset] else []
    }

    constructor Init(data: array<byte>, size: nat)
      requires size <= data.Length
      ensures Valid() && buffer == data && maxSize == size
      ensures readOffset == writeOffset == 0 && Contents() == [] == Unread()
    {
      buffer, maxSize := data, size;
      readOffset, writeOffset := 0, 0;
    }

    method GetRemainingCapacity() returns (r: int)
      requires Valid()
      ensures r == maxSize - writeOffset
    {
      r := maxSize - writeOffset;
    }

    /** All or nothing; an exact fit is refused. */
    method Write(data: array<byte>, offset: nat, size: nat) returns (written: int)
      requires Valid() && data != buffer && offset + size <= data.Length
      modifies this`writeOffset, buffer
      ensures Valid()
      ensures written == (if size < maxSize - old(writeOffset) then size else 0)
      ensures Contents() == old(Contents()) + data[offset..offset + written]
      ensures buffer[writeOffset..] == old(buffer[..])[writeOffset..]
    {
      var remaining := GetRemainingCapacity();
      var nbToCopy: int;
      if remaining > size {
        nbToCopy := size;
      } else {
        nbToCopy := remaining - size;
        if nbToCopy < 0 {
          nbToCopy := 0;
        }
      }
      forall i | 0 <= i < nbToCopy {
        buffer[writeOffset + i] := data[offset + i];
      }
      writeOffset := writeOffset + nbToCopy;
      written := nbToCopy;
    }

    method GetSize() returns (r: int)
      requires Valid()
      ensures r == writeOffset - readOffset
      ensures readOffset <= writeOffset ==> r == |Unread()|
    {
      r := writeOffset - readOffset;
    }

    /** Moves up to size unread bytes into data; a negative count would make the copy undefined. */
    method Read(data: array<byte>, offset: nat, size: nat) returns (n: nat)
      requires Valid() && readOffset <= writeOffset
      requires data != buffer && offset + size <= data.Length
      modifies this`readOffset, data
      ensures Valid() && readOffset <= writeOffset
      ensures n == (if |old(Unread())| < size then |old(Unread())| else size)
      ensures data[offset..offset + n] == old(Unread())[..n]
      ensures data[..offset] == old(data[..offset]) && data[offset + n..] == old(data[offset + n..])
      ensures Unread() == old(Unread())[n..]
    {
      var currentSize := GetSize();
      n := if currentSize < size then currentSize else size;
      ghost var unread, behind := Unread(), data[offset + n..];
      forall i | 0 <= i < n {
        data[offset + i] := buffer[readOffset + i];
      }
      readOffset := readOffset + n;
      assert data[offset..offset + n] == unread[..n];
      assert data[offset + n..] == behind;
    }

    /** Cuts the file to a known size, or fails beyond the buffer and changes nothing. */
    method SetWriteOffset(newWriteOffset: nat) returns (ok: bool)
      requires Valid()
      modifies this`writeOffset
      ensures Valid() && ok == (newWriteOffset <= maxSize)
      ensures ok && newWriteOffset <= old(writeOffset) ==> Contents() == old(Contents())[..newWriteOffset]
      ensures writeOffset == if ok then newWriteOffset else old(writeOffset)
    {
      ok := true;
      if newWriteOffset <= maxSize {
        writeOffset := newWriteOffset;
      } else {
        ok := false;
      }
    }
  }
}
