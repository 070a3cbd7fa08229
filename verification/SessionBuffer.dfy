/** The receive buffer of a session: bytes are appended at the write position and
    removed from the front. */
module SessionBuffer {
  import opened Serial

  const TWO64: int := 0x1_0000_0000_0000_0000

  class Buffer {
    const data: array<byte>
    var writeSize: nat

    ghost predicate Valid()
      reads this
    {
      writeSize <= data.Length < TWO64
    }

    ghost function Contents(): seq<byte>
      requires Valid()
      reads this, data
    {
      data[..writeSize]
    }

    constructor (size: nat)
      requires size < TWO64
      ensures Valid() && Contents() == [] && data.Length == size && fresh(data)
    {
      data := new byte[size];
      writeSize := 0;
    }

    /** `set_write_data`; the sum of the two sizes is one of 64-bit numbers. */
    method SetWriteData(length: nat) returns (ok: bool)
      requires Valid() && length < TWO64
      modifies `writeSize
      ensures Valid()
      ensures ok <==> (old(writeSize) + length) % TWO64 <= data.Length
      ensures writeSize == if ok then (old(writeSize) + length) % TWO64 else old(writeSize)
      ensures length <= data.Length - old(writeSize) ==> ok && writeSize == old(writeSize) + length
    {
      var sum := (writeSize + length) % TWO64;
      if sum > data.Length {
        return false;
      } else {
        writeSize := sum;
        return true;
      }
    }

    method FreeSpace() returns (n: nat)
      requires Valid()
      ensures n + |Contents()| == data.Length
    {
      return data.Length - writeSize;
    }

    /** Bytes that the network puts at the write position, and their announcement. */
    method Fill(chunk: seq<byte>)
      requires Valid() && writeSize + |chunk| <= data.Length
      modifies this, data
      ensures Valid() && Contents() == old(Contents()) + chunk
    {
      forall i | 0 <= i < |chunk| {
        data[writeSize + i] := chunk[i];
      }
      var ok := SetWriteData(|chunk|);
    }

    /** `move`: drop bytes at the front and close the gap. */
    method Move(length: nat)
      requires Valid()
      modifies this, data
      ensures Valid()
      ensures Contents() == if length >= |old(Contents())| then [] else old(Contents())[length..]
    {
      if length >= writeSize {
        writeSize := 0;
      } else {
        var kept := writeSize - length;
        forall i | 0 <= i < kept {
          data[i] := data[length + i];
        }
        writeSize := kept;
      }
    }
  }
}
