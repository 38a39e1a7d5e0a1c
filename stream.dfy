/**
 * In-memory streams: a writer that appends to a byte vector and a reader
 * that hands out the bytes of a private copy from a cursor onwards.
 */
module Stream {
  import opened Wrappers
  import opened Utf8
  import opened Vector

  /** `MemoryStreamWriter`: every write lands at the end of `data`. */
  class MemoryStreamWriter {
    var data: Vec<u8>
    ghost var Repr: set<object>

    /** The writer wraps a `Vec<u8>` just as `String` does, so their invariants coincide. */
    ghost predicate Valid()
      reads this, Repr
      ensures Valid() ==> this in Repr
    {
      this in Repr && data in Repr && data.Repr <= Repr && this !in data.Repr &&
      Repr == {this} + data.Repr &&
      data.Valid()
    }

    /** The bytes written so far, in order. */
    ghost function Contents(): seq<u8>
      reads this, data
    {
      data.Contents
    }

    /** `new`: an empty stream. */
    constructor New()
      ensures Valid() && fresh(Repr)
      ensures Contents() == []
    {
      data := new Vec.New();
      new;
      Repr := {this} + data.Repr;
    }

    /** `data`: the vector written to. */
    function Data(): (v: Vec<u8>)
      requires Valid()
      reads Repr
      ensures v.Valid() && v.Contents == Contents()
    {
      data
    }

    /** `tell`: a writer is always positioned at its end. */
    function Tell(): (n: nat)
      requires Valid()
      reads Repr
      ensures n == |Contents()|
    {
      data.Len()
    }

    /** `size`: the number of bytes written. */
    function Size(): (n: nat)
      requires Valid()
      reads Repr
      ensures n == |Contents()|
    {
      data.Len()
    }

    /** `write`: appends all of `buff` and reports its length; it never fails. */
    method Write(buff: seq<u8>) returns (r: Result<nat>)
      requires Valid()
      modifies Repr
      ensures Valid() && fresh(Repr - old(Repr))
      ensures Contents() == old(Contents()) + buff
      ensures r == Ok(|buff|)
    {
      data.Append(buff);
      Repr := {this} + data.Repr;
      return Ok(|buff|);
    }
  }

  /**
   * How many bytes a read of a `buffLen`-byte buffer takes from a stream of
   * `size` bytes positioned at `cursor`: as many as fit, and no more than
   * remain.
   */
  function ReadLength(buffLen: nat, size: nat, cursor: nat): (n: nat)
    requires cursor <= size
    ensures n <= buffLen && cursor + n <= size
    ensures n == buffLen || cursor + n == size
  {
    if buffLen > size - cursor then size - cursor else buffLen
  }

  /** `MemoryStreamReader`: a copy of the source bytes and a read position. */
  class MemoryStreamReader {
    var data: Vec<u8>
    var cursor: nat
    ghost var Repr: set<object>

    ghost predicate Valid()
      reads this, Repr
      ensures Valid() ==> this in Repr
    {
      this in Repr && data in Repr && data.Repr <= Repr && this !in data.Repr &&
      Repr == {this} + data.Repr &&
      data.Valid() &&
      cursor <= |data.Contents|
    }

    /** The bytes of the stream, read or not. */
    ghost function Contents(): seq<u8>
      reads this, data
    {
      data.Contents
    }

    /** `from`: a stream over a copy of `src`, positioned at its start. */
    constructor From(src: seq<u8>)
      ensures Valid() && fresh(Repr)
      ensures Contents() == src && cursor == 0
    {
      var v := new Vec.New();
      v.Append(src);
      data := v;
      cursor := 0;
      new;
      Repr := {this} + data.Repr;
    }

    /** `tell`: the read position. */
    function Tell(): (n: nat)
      requires Valid()
      reads Repr
      ensures n == cursor && n <= |Contents()|
    {
      cursor
    }

    /** `size`: the number of bytes in the stream. */
    function Size(): (n: nat)
      requires Valid()
      reads Repr
      ensures n == |Contents()|
    {
      data.Len()
    }

    /** `isEOF`: every byte has been read. */
    function IsEOF(): (b: bool)
      requires Valid()
      reads Repr
      ensures b <==> cursor == |Contents()|
    {
      cursor == data.Len()
    }

    /**
     * `read`: copies the next `ReadLength` bytes into the front of `buff`,
     * leaves the rest of `buff` alone and moves the cursor past them. It never
     * fails; at the end of the stream it reads nothing.
     */
    method Read(buff: array<u8>) returns (r: Result<nat>)
      requires Valid() && buff !in Repr
      modifies this, buff
      ensures Valid() && Repr == old(Repr) && data == old(data)
      ensures Contents() == old(Contents())
      ensures r.Ok? && r.value == ReadLength(buff.Length, |Contents()|, old(cursor))
      ensures cursor == old(cursor) + r.value
      ensures buff[..r.value] == Contents()[old(cursor)..cursor]
      ensures buff[r.value..] == old(buff[r.value..])
    {
      var readLen :=
        if buff.Length > data.Len() - cursor then
          data.Len() - cursor
        else
          buff.Length;
      for c := 0 to readLen
        invariant Valid() && data == old(data) && cursor == old(cursor)
        invariant cursor + readLen <= |data.Contents|
        invariant buff[..c] == data.Contents[cursor..cursor + c]
        invariant buff[readLen..] == old(buff[readLen..])
      {
        buff[c] := data.Get(cursor + c);
      }
      cursor := cursor + readLen;
      return Ok(readLen);
    }
  }

  /**
   * `testMemoryWriteStream`: one write of `src` to a new writer; it reports
   * `|src|` bytes written, `tell` and `size` are `|src|`, and the data read
   * back is `src`.
   */
  method WriteOnce(src: seq<u8>) returns (r: Result<nat>, tell: nat, size: nat, data: seq<u8>)
    ensures r == Ok(|src|) && tell == size == |src|
    ensures data == src
  {
    var w := new MemoryStreamWriter.New();
    r := w.Write(src);
    tell, size := w.Tell(), w.Size();
    data := w.Data().AsArray();
  }

  /**
   * `testMemoryReadStream`: a reader over `src` starts at 0 with size
   * `|src|`, and one read into a buffer of `|src|` bytes fills it with `src`
   * and reaches the end.
   */
  method ReadOnce(src: seq<u8>) returns (tell: nat, size: nat, r: Result<nat>, got: seq<u8>, eof: bool)
    ensures tell == 0 && size == |src|
    ensures r == Ok(|src|) && got == src && eof
  {
    var rd := new MemoryStreamReader.From(src);
    tell, size := rd.Tell(), rd.Size();
    var buff := new u8[|src|];
    r := rd.Read(buff);
    got := buff[..];
    eof := rd.IsEOF();
  }

  /**
   * Reads a stream over `src` in chunks of `chunk` bytes until the end: the
   * chunks put back together are `src`, and a read at the end takes nothing.
   */
  method ReadAll(src: seq<u8>, chunk: nat) returns (out: seq<u8>, last: Result<nat>)
    requires chunk > 0
    ensures out == src
    ensures last == Ok(0)
  {
    var rd := new MemoryStreamReader.From(src);
    var buff := new u8[chunk];
    out := [];
    while !rd.IsEOF()
      invariant rd.Valid() && fresh(rd.Repr) && buff !in rd.Repr
      invariant rd.Contents() == src
      invariant out == src[..rd.cursor]
      decreases |src| - rd.cursor
    {
      ghost var before := rd.cursor;
      var r := rd.Read(buff);
      out := out + buff[..r.value];
      assert src[..rd.cursor] == src[..before] + src[before..rd.cursor];
    }
    assert out == src;
    last := rd.Read(buff);
  }

  /** Bytes written to a writer and handed to a reader come back out unchanged. */
  method WriteThenRead(src: seq<u8>) returns (out: seq<u8>)
    ensures out == src
  {
    var _, _, _, written := WriteOnce(src);
    var _, _, _, got, _ := ReadOnce(written);
    out := got;
  }
}
