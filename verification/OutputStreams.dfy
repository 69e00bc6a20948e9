/**
 The output adapter. Seeking past the end fills the gap with zeros at once, in
 chunks; a file would leave a hole and fill it when something is written there.
 */
module OutputStreams {
  import opened Basics
  import opened Seeking
  import opened StreamBuffers
  import opened InputStreams

  const CHUNK: nat := 4096

  /** The adapter's write, seen as a file that always reaches its position. */
  function EagerWrite(f: File, s: seq<byte>): (r: File)
    requires f.pos <= |f.content|
    ensures r.pos <= |r.content|
  {
    File(Overwrite(f.content, f.pos, s), f.pos + |s|)
  }

  /** The adapter's seek to a resolved target. */
  function EagerSeek(f: File, target: nat): (r: File)
    ensures r.pos <= |r.content|
  {
    File(f.content + Zeros(Max(target - |f.content|, 0)), target)
  }

  lemma SeekInsideOnlyMoves(f: File, target: nat)
    requires target <= |f.content|
    ensures EagerSeek(f, target) == f.(pos := target)
  {
    assert f.content + Zeros(0) == f.content;
  }

  /** A seek with no representable target has only measured the stream. */
  function AtEnd(f: File): File
  {
    f.(pos := |f.content|)
  }

  lemma SeekFromEnd(f: File, target: nat)
    ensures EagerSeek(AtEnd(f), target) == EagerSeek(f, target)
  {
  }

  /** A write that fails on a full stream has written some first part of its bytes. */
  ghost predicate PartlyWritten(f: File, s: seq<byte>, after: File)
    requires f.pos <= |f.content|
  {
    f.pos <= after.pos < f.pos + |s| && after == EagerWrite(f, s[..after.pos - f.pos])
  }

  /** A seek that fails on a full stream has filled some first part of the gap. */
  ghost predicate PartlyFilled(f: File, target: int, after: File)
  {
    |f.content| <= |after.content| < target && after == EagerSeek(f, |after.content|)
  }

  class OutputStream {
    const buffer: StreamBuffer
    const start: nat

    ghost predicate Valid()
      reads this, buffer
    {
      buffer.Valid() && start <= buffer.cursor
    }

    ghost function AsFile(): (f: File)
      requires Valid()
      reads this, buffer
      ensures f.pos <= |f.content|
    {
      File(buffer.data[start..], buffer.cursor - start)
    }

    /** What stood in the stream before the adapter was made. */
    ghost function Before(): seq<byte>
      requires Valid()
      reads this, buffer
    {
      buffer.data[..start]
    }

    /** How many bytes the adapter's part of the stream may hold. */
    ghost function Room(): nat
      requires Valid()
      reads this, buffer
    {
      buffer.limit - start
    }

    constructor (buffer: StreamBuffer)
      requires buffer.Valid()
      ensures Valid() && this.buffer == buffer && start == buffer.cursor
      ensures AsFile() == File(buffer.data[buffer.cursor..], 0)
    {
      this.buffer := buffer;
      start := buffer.cursor;
    }

    /** The `write` callback. */
    method Write(s: seq<byte>) returns (ok: bool)
      requires Valid()
      modifies buffer`data, buffer`cursor
      ensures Valid() && Before() == old(Before())
      ensures ok <==> old(AsFile()).pos + |s| <= Room()
      ensures ok ==> AsFile() == EagerWrite(old(AsFile()), s)
      ensures !ok ==> PartlyWritten(old(AsFile()), s, AsFile())
    {
      var written := buffer.Put(s);
      ok := written == |s|;
      assert s[..|s|] == s;
      assert buffer.data[start..] == Overwrite(old(buffer.data[start..]), old(buffer.cursor) - start, s[..written]);
    }

    /** The zero-fill loop. */
    method FillZeros(gap: nat) returns (ok: bool)
      requires Valid() && buffer.cursor == |buffer.data|
      modifies buffer`data, buffer`cursor
      ensures Valid() && Before() == old(Before())
      ensures ok <==> |old(AsFile()).content| + gap <= Room()
      ensures forall i :: 0 <= i < |AsFile().content| ==>
                AsFile().content[i] == if i < |old(AsFile()).content| then old(AsFile()).content[i] else 0
      ensures ok ==> AsFile() == EagerSeek(old(AsFile()), |old(AsFile()).content| + gap)
      ensures !ok ==> PartlyFilled(old(AsFile()), |old(AsFile()).content| + gap, AsFile())
    {
      var left := gap;
      while left > 0
        invariant 0 <= left <= gap
        invariant Valid() && buffer.cursor == |buffer.data|
        invariant buffer.data == old(buffer.data) + Zeros(gap - left)
      {
        var chunk := Min(left, CHUNK);
        var written := buffer.Put(Zeros(chunk));
        if written != chunk {
          assert buffer.data == old(buffer.data) + Zeros(gap - left + written);
          assert AsFile() == EagerSeek(old(AsFile()), |old(AsFile()).content| + (gap - left + written));
          return false;
        }
        left := left - chunk;
      }
      return true;
    }

    /** The `seek` callback. */
    method SeekCallback(offset: int64, origin: Origin) returns (position: Option<uint64>)
      requires Valid()
      modifies buffer`data, buffer`cursor
      ensures Valid() && Before() == old(Before())
      ensures forall i :: 0 <= i < |AsFile().content| ==>
                AsFile().content[i] == if i < |old(AsFile()).content| then old(AsFile()).content[i] else 0
      ensures var f := old(AsFile());
              match SeekTarget(offset, origin, f.pos as int64, |f.content| as int64)
              case Some(t) =>
                && (position.Some? <==> t as int <= Max(|f.content|, Room()))
                && (position.Some? ==> position.value as int == t as int && AsFile() == EagerSeek(f, t as nat))
                && (position.None? ==> PartlyFilled(f, t as int, AsFile()))
              case None => position.None? && AsFile() == AtEnd(f)
    {
      ghost var f := AsFile();
      var now := buffer.Tell();
      var last := buffer.SeekToEnd();
      assert AsFile() == AtEnd(f);
      var current: int64 := (now - start) as int64;
      var end: int64 := (last - start) as int64;
      var target := SeekTarget(offset, origin, current, end);
      if target.None? {
        return None;
      }
      ghost var t := target.value as nat;
      if target.value > end {
        SeekFromEnd(f, t);
        var ok := FillZeros((target.value - end) as nat);
        if !ok {
          return None;
        }
      } else {
        SeekInsideOnlyMoves(f, t);
        var ok := buffer.SeekTo(start + target.value as int);
        if !ok {
          return None;
        }
      }
      return Some(target.value as uint64);
    }

    /** `Seek::seek` of the Rust side, through `seek_with`. */
    method Seek(to: SeekFrom) returns (position: Option<uint64>)
      requires Valid()
      modifies buffer`data, buffer`cursor
      ensures Valid() && Before() == old(Before())
      ensures forall i :: 0 <= i < |AsFile().content| ==>
                AsFile().content[i] == if i < |old(AsFile()).content| then old(AsFile()).content[i] else 0
      ensures var f := old(AsFile());
              var target := ExactTarget(to, f.pos, |f.content|);
              && (position.Some? <==> Representable(target) && target <= Max(|f.content|, Room()))
              && (position.Some? ==> position.value as int == target && AsFile() == EagerSeek(f, target))
              && (position.None? ==> if Representable(target) then PartlyFilled(f, target, AsFile())
                                      else AsFile() == AfterRefusedSeek(f, to))
    {
      ghost var resolved := Resolve(to, AsFile().pos as int64, |AsFile().content| as int64);
      var request := SeekRequest(to);
      match request {
        case None => return None;
        case Some((offset, origin)) => position := SeekCallback(offset, origin);
      }
    }
  }
}
