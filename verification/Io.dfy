/**
 The shared error object (lib/error.h) and buffer input and output (lib/io_buffer.c, lib/io.h).
 */
module Io {
  import opened Bytes

  datatype Code =
    | Ok
    | InvalidParameter
    | OutOfRange
    | Truncated
    | NoDmadata
    | Deleted
    | DecompressError
    | CompressError
    | InvalidRom
    | UnsupportedCic

  class Error {
    var result: Code

    constructor ()
      ensures result == Ok
    {
      result := Ok;
    }

    method Set(code: Code)
      requires code != Ok
      modifies this
      ensures result == code
    {
      result := code;
    }

    method Clear()
      modifies this
      ensures result == Ok
    {
      result := Ok;
    }
  }

  // How many of `size` bytes at `offset` exist in a store of `length` bytes.
  function Available(length: nat, size: nat, offset: nat): (n: nat)
    ensures n <= size && (n > 0 ==> offset + n <= length)
    ensures offset + size <= length ==> n == size
    ensures offset <= length < offset + size ==> n == length - offset
  {
    if offset >= length then 0 else Min(size, length - offset)
  }

  class Buffer {
    const data: array<byte>

    constructor (data: array<byte>)
      ensures this.data == data
    {
      this.data := data;
    }

    function Bytes(): (b: bytes)
      reads data
      ensures |b| == data.Length
    {
      data[..]
    }

    // A short read is not an error; the rest of dst keeps its bytes.
    method Read(dst: array<byte>, size: nat, offset: nat) returns (n: nat)
      requires size <= dst.Length && dst != data
      modifies dst
      ensures n == Available(data.Length, size, offset)
      ensures n > 0 ==> dst[..n] == Bytes()[offset..offset + n]
      ensures dst[n..] == old(dst[n..])
    {
      if offset >= data.Length {
        return 0;
      }
      n := Min(size, data.Length - offset);
      forall i | 0 <= i < n {
        dst[i] := data[offset + i];
      }
    }

    // An error that is already set stays set, and a short read sets Truncated.
    method ReadExact(dst: array<byte>, size: nat, offset: nat, error: Error) returns (n: nat)
      requires size <= dst.Length && dst != data
      modifies dst, error
      ensures old(error.result) != Ok ==> n == 0 && error.result == old(error.result)
      ensures old(error.result) == Ok && size > 0 && offset + size <= data.Length ==>
        error.result == Ok && n == size && dst[..size] == Bytes()[offset..offset + size]
      ensures old(error.result) == Ok && size > 0 && offset + size > data.Length ==>
        error.result == Truncated && n == 0
    {
      n := Read(dst, size, offset);
      if error.result != Ok {
        return 0;
      }
      if n != size {
        error.Set(Truncated);
        return 0;
      }
    }

    // All or nothing.
    method Write(src: array<byte>, size: nat, offset: nat, error: Error) returns (n: nat)
      requires size <= src.Length && src != data
      modifies data, error
      ensures offset + size <= data.Length ==>
        n == size && error.result == old(error.result)
        && Bytes() == Splice(old(Bytes()), offset, src[..size])
      ensures offset + size > data.Length ==>
        n == 0 && error.result == OutOfRange && Bytes() == old(Bytes())
    {
      if offset > data.Length || size > data.Length - offset {
        error.Set(OutOfRange);
        return 0;
      }
      forall i | 0 <= i < size {
        data[offset + i] := src[i];
      }
      n := size;
      assert forall k :: 0 <= k < data.Length ==> Bytes()[k] == Splice(old(Bytes()), offset, src[..size])[k];
    }
  }
}
