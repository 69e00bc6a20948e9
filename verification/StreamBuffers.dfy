/** A seekable `std::streambuf` over bytes in memory, as the adapters use it. */
module StreamBuffers {
  import opened Basics

  /** Overwrites `data` with `s` from `at` on, growing it if `s` reaches past its end. */
  function Overwrite(data: seq<byte>, at: nat, s: seq<byte>): (r: seq<byte>)
    requires at <= |data|
    ensures |r| == Max(|data|, at + |s|)
    ensures forall i :: 0 <= i < |r| ==> r[i] == if at <= i < at + |s| then s[i - at] else data[i]
  {
    data[..at] + s + data[Min(at + |s|, |data|)..]
  }

  /** One cursor stands for the get or the put position, whichever the adapter
      uses. A buffer cannot grow past `limit` bytes, like a full disk. */
  class StreamBuffer {
    var data: seq<byte>
    var cursor: nat
    const limit: nat

    ghost predicate Valid()
      reads this
    {
      cursor <= |data| <= limit <= MAX_OFFSET
    }

    constructor (data: seq<byte>, cursor: nat, limit: nat)
      requires cursor <= |data| <= limit <= MAX_OFFSET
      ensures Valid() && this.data == data && this.cursor == cursor && this.limit == limit
    {
      this.data, this.cursor, this.limit := data, cursor, limit;
    }

    /** `pubseekoff(0, cur)`. */
    method Tell() returns (position: nat)
      ensures position == cursor
    {
      position := cursor;
    }

    /** `pubseekoff(0, end)`: measuring the stream moves the cursor to its end. */
    method SeekToEnd() returns (position: nat)
      requires Valid()
      modifies this`cursor
      ensures Valid() && cursor == |data| == position
    {
      cursor := |data|;
      position := cursor;
    }

    /** `pubseekpos`: refuses, without moving, a position outside the stream. */
    method SeekTo(position: int) returns (ok: bool)
      requires Valid()
      modifies this`cursor
      ensures Valid() && ok == (0 <= position <= |data|)
      ensures cursor == if ok then position else old(cursor)
    {
      ok := 0 <= position <= |data|;
      if ok {
        cursor := position;
      }
    }

    /** `sgetn`: reads up to `len` bytes. */
    method Get(len: nat) returns (bytes: seq<byte>)
      requires Valid()
      modifies this`cursor
      ensures Valid() && cursor == Min(old(cursor) + len, |data|)
      ensures bytes == data[old(cursor)..cursor]
    {
      var next := Min(cursor + len, |data|);
      bytes := data[cursor..next];
      cursor := next;
    }

    /** `sputn`: writes all of `s`, or only some first part of it when the buffer is full. */
    method Put(s: seq<byte>) returns (written: nat)
      requires Valid()
      modifies this`data, this`cursor
      ensures Valid() && written <= |s|
      ensures written == |s| <==> old(cursor) + |s| <= limit
      ensures data == Overwrite(old(data), old(cursor), s[..written])
      ensures cursor == old(cursor) + written
    {
      written := |s|;
      if limit < cursor + |s| {
        written :| 0 <= written && cursor + written <= limit;
      }
      data := Overwrite(data, cursor, s[..written]);
      cursor := cursor + written;
    }
  }
}
