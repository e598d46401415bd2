/** The byte stream that generated code reads from and writes to. A failed access is an exception,
    here a None result; the cursor never leaves the buffer. */
module DataStreams {
  import opened Bytes

  datatype Mode = Read | Write

  class DataStream {
    var buffer: seq<Byte>
    const mode: Mode
    var ptr: nat

    ghost predicate Valid()
      reads this
    {
      ptr <= |buffer|
    }

    /** The bytes not yet read. */
    ghost function Left(): seq<Byte>
      reads this
      requires Valid()
    {
      buffer[ptr..]
    }

    /** A stream over a buffer, at its front. */
    constructor (buffer: seq<Byte>, mode: Mode)
      ensures Valid() && this.buffer == buffer && this.mode == mode && ptr == 0
    {
      this.buffer, this.mode, this.ptr := buffer, mode, 0;
    }

    function RemainingBytes(): nat
      reads this
      requires Valid()
    {
      |buffer| - ptr
    }

    predicate AtEnd()
      reads this
      requires Valid()
    {
      ptr == |buffer|
    }

    method ReadRawData(size: nat) returns (data: Option<seq<Byte>>)
      requires Valid()
      modifies `ptr
      ensures Valid()
      ensures mode == Read && size <= |old(Left())| ==>
                data == Some(old(Left())[..size]) && Left() == old(Left())[size..]
      ensures mode == Write || size > |old(Left())| ==> data == None && ptr == old(ptr)
    {
      if mode == Write {
        return None;
      }
      var remaining := |buffer| - ptr;
      if remaining < size {
        return None;
      }
      assert buffer[ptr..ptr + size] == Left()[..size] && buffer[ptr + size..] == Left()[size..];
      data := Some(buffer[ptr..ptr + size]);
      ptr := ptr + size;
    }

    method WriteRawData(data: seq<Byte>) returns (ok: bool)
      requires Valid()
      modifies `buffer, `ptr
      ensures Valid() && ok == (mode == Write)
      ensures buffer == if ok then old(buffer[..ptr]) + data + old(buffer[ptr..]) else old(buffer)
      ensures ptr == if ok then |buffer| else old(ptr)
      ensures ok && old(AtEnd()) ==> buffer == old(buffer) + data
    {
      if mode == Read {
        return false;
      }
      buffer := buffer[..ptr] + data + buffer[ptr..];
      ptr := |buffer|;
      ok := true;
    }
  }
}
