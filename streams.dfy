/**
 * The two files of the filter, in place of `FILE *`: an input file read
 * sequentially with `fread`, and an output file written sequentially with
 * `fwrite` on a device that accepts at most `capacity` bytes.
 */
module Streams {
  import opened CArith
  import opened Wrappers
  import opened LittleEndian

  /** A file opened with mode "rb": fixed contents and a read position. */
  class InputFile {
    const data: seq<Byte>
    var pos: nat

    ghost predicate Valid()
      reads this
    {
      pos <= |data|
    }

    /** The bytes not yet read. */
    function Remaining(): (r: seq<Byte>)
      reads this
      requires Valid()
      ensures data == data[..pos] + r
    {
      data[pos..]
    }

    constructor (contents: seq<Byte>)
      ensures Valid() && data == contents && pos == 0
    {
      data := contents;
      pos := 0;
    }

    /**
     * `fread` of one item of `n` bytes: the item when `n` bytes remain;
     * otherwise nothing, and whatever remained is consumed.
     */
    method Read(n: nat) returns (item: Option<seq<Byte>>)
      requires Valid()
      modifies this
      ensures Valid()
      ensures old(pos) + n <= |data| ==> item == Some(data[old(pos)..old(pos) + n]) && pos == old(pos) + n
      ensures old(pos) + n > |data| ==> item == None && pos == |data|
    {
      if pos + n <= |data| {
        item := Some(data[pos..pos + n]);
        pos := pos + n;
      } else {
        item := None;
        pos := |data|;
      }
    }

    /** `fread(&field, sizeof(short int), 1, f)` into an `unsigned short`. */
    method ReadU16() returns (v: Option<U16>)
      requires Valid()
      modifies this
      ensures Valid()
      ensures old(pos) + 2 <= |data| ==> v == Some(DecodeU16(data[old(pos)..old(pos) + 2])) && pos == old(pos) + 2
      ensures old(pos) + 2 > |data| ==> v == None && pos == |data|
    {
      var item := Read(2);
      v := if item.Some? then Some(DecodeU16(item.value)) else None;
    }

    /** `fread(&field, sizeof(int), 1, f)` into an `unsigned int`. */
    method ReadU32() returns (v: Option<U32>)
      requires Valid()
      modifies this
      ensures Valid()
      ensures old(pos) + 4 <= |data| ==> v == Some(DecodeU32(data[old(pos)..old(pos) + 4])) && pos == old(pos) + 4
      ensures old(pos) + 4 > |data| ==> v == None && pos == |data|
    {
      var item := Read(4);
      v := if item.Some? then Some(DecodeU32(item.value)) else None;
    }

    /** `fread(&field, sizeof(int), 1, f)` into an `int`. */
    method ReadI32() returns (v: Option<I32>)
      requires Valid()
      modifies this
      ensures Valid()
      ensures old(pos) + 4 <= |data| ==> v == Some(DecodeI32(data[old(pos)..old(pos) + 4])) && pos == old(pos) + 4
      ensures old(pos) + 4 > |data| ==> v == None && pos == |data|
    {
      var item := Read(4);
      v := if item.Some? then Some(DecodeI32(item.value)) else None;
    }
  }

  /** What one `fwrite` of `item` leaves in a file holding `out`: all of it or nothing. */
  function Put(out: seq<Byte>, item: seq<Byte>, capacity: nat): (r: seq<Byte>)
    ensures |r| <= |out| + |item|
    ensures |out| <= capacity ==> |r| <= capacity
    ensures |out| + |item| <= capacity ==> r == out + item
  {
    if |out| + |item| <= capacity then out + item else out
  }

  /** A file opened with mode "wb": empty at first, on a device of bounded room. */
  class OutputFile {
    const capacity: nat
    var bytes: seq<Byte>

    ghost predicate Valid()
      reads this
    {
      |bytes| <= capacity
    }

    constructor (room: nat)
      ensures Valid() && capacity == room && bytes == []
    {
      capacity := room;
      bytes := [];
    }

    /** `fwrite(item, |item|, 1, f)`: reports whether the one item was written. */
    method Write(item: seq<Byte>) returns (ok: bool)
      requires Valid()
      modifies this
      ensures Valid()
      ensures ok <==> |old(bytes)| + |item| <= capacity
      ensures bytes == Put(old(bytes), item, capacity)
    {
      ok := |bytes| + |item| <= capacity;
      if ok {
        bytes := bytes + item;
      }
    }
  }
}
