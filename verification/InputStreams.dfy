/**
 The input adapter. It makes a stream buffer that cannot be positioned past its
 end behave like a file, with positions relative to where the buffer stood when
 the adapter was made.
 */
module InputStreams {
  import opened Basics
  import opened Seeking
  import opened StreamBuffers

  /** What the adapter stands for: the bytes from its start on, and a position
      that may lie past their end. */
  datatype File = File(content: seq<byte>, pos: nat)

  /** The bytes a read of `len` delivers: nothing at or past the end. */
  function BytesAt(f: File, len: nat): (bytes: seq<byte>)
  {
    if f.pos >= |f.content| then [] else f.content[f.pos..Min(f.pos + len, |f.content|)]
  }

  function AfterRead(f: File, len: nat): File
  {
    f.(pos := f.pos + |BytesAt(f, len)|)
  }

  predicate SeekSucceeds(f: File, to: SeekFrom)
  {
    Representable(ExactTarget(to, f.pos, |f.content|))
  }

  /** Refused seeks do not move a file; they leave the adapter no earlier than
      the end, because it has measured the stream by then. A `Start` that does
      not fit an `i64` is refused before the adapter is reached. */
  function AfterRefusedSeek(f: File, to: SeekFrom): File
  {
    if to.Start? then f else f.(pos := Max(f.pos, |f.content|))
  }

  lemma SliceOfSuffix(data: seq<byte>, start: nat, a: nat, b: nat)
    requires start <= a <= b <= |data|
    ensures data[a..b] == data[start..][a - start..b - start]
  {
  }

  class InputStream {
    const buffer: StreamBuffer
    const start: nat
    var pastEnd: Option<int64>

    ghost predicate Valid()
      reads this, buffer
    {
      && buffer.Valid()
      && start <= buffer.cursor
      && (pastEnd.Some? ==> |buffer.data| - start < pastEnd.value as int)
    }

    ghost function AsFile(): (f: File)
      requires Valid()
      reads this, buffer
    {
      File(buffer.data[start..], if pastEnd.Some? then pastEnd.value as nat else buffer.cursor - start)
    }

    constructor (buffer: StreamBuffer)
      requires buffer.Valid()
      ensures Valid() && this.buffer == buffer && start == buffer.cursor && pastEnd.None?
      ensures AsFile() == File(buffer.data[buffer.cursor..], 0)
    {
      this.buffer := buffer;
      start := buffer.cursor;
      pastEnd := None;
    }

    /** The `read` callback. */
    method Read(len: nat) returns (bytes: seq<byte>)
      requires Valid()
      modifies buffer`cursor
      ensures Valid() && bytes == BytesAt(old(AsFile()), len)
      ensures AsFile() == AfterRead(old(AsFile()), len)
    {
      if pastEnd.Some? {
        bytes := [];
      } else {
        bytes := buffer.Get(len);
        SliceOfSuffix(buffer.data, start, old(buffer.cursor), buffer.cursor);
      }
    }

    /** The `seek` callback. */
    method SeekCallback(offset: int64, origin: Origin) returns (position: Option<uint64>)
      requires Valid()
      modifies this`pastEnd, buffer`cursor
      ensures Valid()
      ensures var f := old(AsFile());
              var target := SeekTarget(offset, origin, f.pos as int64, |f.content| as int64);
              match target
              case Some(t) => position == Some(t as uint64) && AsFile() == f.(pos := t as nat)
                              && (pastEnd.Some? <==> t as int > |f.content|)
              case None => position.None? && AsFile() == f.(pos := Max(f.pos, |f.content|))
                           && pastEnd == old(pastEnd)
    {
      var now := buffer.Tell();
      var last := buffer.SeekToEnd();
      var current: int64 := if pastEnd.Some? then pastEnd.value else (now - start) as int64;
      var end: int64 := (last - start) as int64;
      var target := SeekTarget(offset, origin, current, end);
      if target.None? {
        return None;
      }
      if target.value > end {
        pastEnd := target;
      } else {
        pastEnd := None;
        var ok := buffer.SeekTo(start + target.value as int);
        if !ok {
          return None;
        }
      }
      return Some(target.value as uint64);
    }

    /** `Seek::seek` of the Rust side, through `seek_with`. */
    method Seek(to: SeekFrom) returns (position: Option<uint64>)
      requires Valid()
      modifies this`pastEnd, buffer`cursor
      ensures Valid()
      ensures position.Some? <==> SeekSucceeds(old(AsFile()), to)
      ensures position.Some? ==> position.value as int == ExactTarget(to, old(AsFile()).pos, |old(AsFile()).content|)
      ensures position.Some? ==> AsFile() == old(AsFile()).(pos := position.value as nat)
      ensures position.Some? ==> (pastEnd.Some? <==> position.value as int > |AsFile().content|)
      ensures position.None? ==> AsFile() == AfterRefusedSeek(old(AsFile()), to)
    {
      ghost var resolved := Resolve(to, AsFile().pos as int64, |AsFile().content| as int64);
      var request := SeekRequest(to);
      match request {
        case None => return None;
        case Some((offset, origin)) => position := SeekCallback(offset, origin);
      }
    }

    /** `Read::read_exact` over `read`: on a short stream everything left is consumed. */
    method ReadExact(len: nat) returns (bytes: Option<seq<byte>>)
      requires Valid()
      modifies buffer`cursor
      ensures Valid()
      ensures var f := old(AsFile());
              && (bytes.Some? <==> f.pos + len <= |f.content| || len == 0)
              && (bytes.Some? ==> bytes.value == BytesAt(f, len) && |bytes.value| == len)
              && AsFile() == AfterRead(f, len)
    {
      var filled := [];
      while |filled| < len
        invariant Valid() && |filled| <= len
        invariant filled == BytesAt(old(AsFile()), |filled|)
        invariant AsFile() == AfterRead(old(AsFile()), |filled|)
      {
        var more := Read(len - |filled|);
        if |more| == 0 {
          return None;
        }
        filled := filled + more;
      }
      return Some(filled);
    }
  }
}
