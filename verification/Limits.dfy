/**
 The checks made on a file before las-rs allocates from the sizes it declares:
 its EVLRs must lie inside the stream (LAS 1.4 R15, section 2.7), and its LAZ
 chunk table must not declare more chunks than the compressed data can hold.
 */
module Limits {
  import opened Basics
  import opened Seeking
  import opened StreamBuffers
  import opened InputStreams
  import opened InputRuns

  const EVLR_HEADER_SIZE: uint64 := 60
  const EVLR_RECORD_LENGTH_OFFSET: uint64 := 20
  const MIN_LAZ_CHUNK_SIZE: uint64 := 20

  datatype Evlr = Evlr(startOfFirst: uint64, count: uint32)

  /** The fields of the raw header that the checks look at. */
  datatype RawHeader = RawHeader(evlr: Option<Evlr>, pointFormat: byte, offsetToPointData: uint32)

  /** How a check ends; all but `Accepted` are errors. */
  datatype Verdict = Accepted | PastEnd | TooManyChunks | SeekFailed | ShortRead | BadHeader

  /** A parser of raw headers is any consumer of the stream. */
  type HeaderParser = seq<Outcome> -> Action<Option<RawHeader>>

  function CheckedAdd(a: uint64, b: uint64): (sum: Option<uint64>)
    ensures sum == if a as int + b as int <= U64_MAX then Some((a as int + b as int) as uint64) else None
  {
    if b <= 0xFFFF_FFFF_FFFF_FFFF - a then Some(a + b) else None
  }

  function SaturatingAdd(a: uint64, b: uint64): (sum: uint64)
    ensures sum as int == Min(a as int + b as int, U64_MAX)
  {
    if b <= 0xFFFF_FFFF_FFFF_FFFF - a then a + b else 0xFFFF_FFFF_FFFF_FFFF
  }

  function SaturatingMul(a: uint64, b: uint64): (product: uint64)
    ensures product as int == Min(a as int * b as int, U64_MAX)
  {
    Min(a as int * b as int, U64_MAX) as uint64
  }

  /** A seek followed by `read_exact`: succeeds exactly when all the bytes are there. */
  method ReadAt(input: InputStream, to: SeekFrom, len: nat) returns (bytes: seq<byte>, verdict: Verdict)
    requires input.Valid() && len > 0
    modifies input`pastEnd, input.buffer`cursor
    ensures input.Valid() && input.AsFile().content == old(input.AsFile()).content
    ensures var content := old(input.AsFile()).content;
            var at := ExactTarget(to, old(input.AsFile()).pos, |content|);
            && (verdict == if !Representable(at) then SeekFailed else if at + len > |content| then ShortRead else Accepted)
            && (verdict.Accepted? ==> bytes == content[at..at + len])
  {
    var reached := input.Seek(to);
    if reached.None? {
      return [], SeekFailed;
    }
    var read := input.ReadExact(len);
    if read.None? {
      return [], ShortRead;
    }
    return read.value, Accepted;
  }

  // ----- EVLRs -----

  /** Where record `k` of a chain of records with the given data lengths starts. */
  ghost function RecordStart(first: nat, lens: seq<nat>, k: nat): nat
    requires k <= |lens|
  {
    first + 60 * k + SumOf(lens[..k])
  }

  /** The records lie back to back inside `content`, each declaring its own length. */
  ghost predicate LaidOut(content: seq<byte>, first: nat, lens: seq<nat>)
  {
    && (forall k :: 0 <= k <= |lens| ==> RecordStart(first, lens, k) <= |content|)
    && (forall k :: 0 <= k < |lens| ==>
          lens[k] <= U64_MAX && StoredAt(content, RecordStart(first, lens, k) + 20, 8, lens[k]))
  }

  ghost predicate HasLayout(content: seq<byte>, first: nat, n: nat)
  {
    exists lens :: |lens| == n && LaidOut(content, first, lens)
  }

  /** The chain of `n` records from `first` stays inside `content`. */
  ghost predicate ChainFits(content: seq<byte>, first: nat, n: nat)
    decreases n
  {
    first <= |content| &&
    (n > 0 ==> first + 28 <= |content| && ChainFits(content, first + 60 + Le64At(content, first + 20), n - 1))
  }

  lemma ChainStep(content: seq<byte>, first: nat, n: nat)
    requires n > 0
    ensures first + 28 > |content| ==> !ChainFits(content, first, n)
    ensures first + 28 <= |content| ==>
              var next := first + 60 + Le64At(content, first + 20);
              && (ChainFits(content, first, n) <==> ChainFits(content, next, n - 1))
              && (next > |content| ==> !ChainFits(content, first, n))
  {
  }

  lemma LaterRecord(first: nat, lens: seq<nat>, k: nat)
    requires 0 < k <= |lens|
    ensures RecordStart(first, lens, k) == RecordStart(first + 60 + lens[0], lens[1..], k - 1)
  {
    assert lens[..k][1..] == lens[1..][..k - 1];
  }

  lemma LayoutHead(content: seq<byte>, first: nat, lens: seq<nat>)
    requires lens != [] && LaidOut(content, first, lens)
    ensures first + 28 <= |content| && Le64At(content, first + 20) == lens[0]
    ensures LaidOut(content, first + 60 + lens[0], lens[1..])
  {
    var next, rest := first + 60 + lens[0], lens[1..];
    assert RecordStart(first, lens, 0) == first;
    Decodes64(content, first + 20, lens[0] as uint64);
    forall k | 0 <= k <= |rest|
      ensures RecordStart(next, rest, k) == RecordStart(first, lens, k + 1)
    {
      LaterRecord(first, lens, k + 1);
    }
  }

  lemma LayoutCons(content: seq<byte>, first: nat, lens: seq<nat>)
    requires lens != [] && first + 28 <= |content| && Le64At(content, first + 20) == lens[0]
    requires LaidOut(content, first + 60 + lens[0], lens[1..])
    ensures LaidOut(content, first, lens)
  {
    var next, rest := first + 60 + lens[0], lens[1..];
    assert RecordStart(first, lens, 0) == first;
    forall k | 0 < k <= |lens|
      ensures RecordStart(first, lens, k) == RecordStart(next, rest, k - 1)
    {
      LaterRecord(first, lens, k);
    }
  }

  lemma {:induction false} LayoutFits(content: seq<byte>, first: nat, lens: seq<nat>)
    requires LaidOut(content, first, lens)
    ensures ChainFits(content, first, |lens|)
    decreases |lens|
  {
    if lens == [] {
      assert RecordStart(first, lens, 0) == first;
    } else {
      LayoutHead(content, first, lens);
      LayoutFits(content, first + 60 + lens[0], lens[1..]);
    }
  }

  lemma {:induction false} FitHasLayout(content: seq<byte>, first: nat, n: nat) returns (lens: seq<nat>)
    requires ChainFits(content, first, n)
    ensures |lens| == n && LaidOut(content, first, lens)
    decreases n
  {
    if n == 0 {
      lens := [];
      assert RecordStart(first, lens, 0) == first;
    } else {
      var len := Le64At(content, first + 20);
      var rest := FitHasLayout(content, first + 60 + len, n - 1);
      lens := [len] + rest;
      assert lens[1..] == rest;
      LayoutCons(content, first, lens);
    }
  }

  /** A chain fits exactly when its records can be laid out inside the data, and
      then headers and record data together are no longer than the data. */
  lemma ChainFitsMeansLaidOut(content: seq<byte>, first: nat, n: nat)
    ensures ChainFits(content, first, n) <==> HasLayout(content, first, n)
    ensures forall lens :: |lens| == n && LaidOut(content, first, lens) ==> 60 * n + SumOf(lens) <= |content| - first
  {
    if ChainFits(content, first, n) {
      var lens := FitHasLayout(content, first, n);
    }
    forall lens | |lens| == n && LaidOut(content, first, lens)
      ensures ChainFits(content, first, n) && 60 * n + SumOf(lens) <= |content| - first
    {
      LayoutFits(content, first, lens);
      assert lens[..n] == lens;
      assert RecordStart(first, lens, n) <= |content|;
    }
  }

  /** One turn of the loop: from the start of a record to the start of the next. */
  method NextRecord(input: InputStream, position: uint64, end: uint64) returns (next: uint64, verdict: Verdict)
    requires input.Valid() && position <= end && end as int == |input.AsFile().content|
    modifies input`pastEnd, input.buffer`cursor
    ensures input.Valid() && input.AsFile().content == old(input.AsFile()).content
    ensures var content, at := old(input.AsFile()).content, position as nat;
            && (verdict.Accepted? <==> at + 28 <= |content| && at + 60 + Le64At(content, at + 20) <= |content|)
            && (verdict.Accepted? ==> next as nat == at + 60 + Le64At(content, at + 20))
            && (verdict.Accepted? ==> StoredAt(content, at + 20, 8, next as int - at - 60))
  {
    var recordLength;
    recordLength, verdict := ReadAt(input, Start(position + EVLR_RECORD_LENGTH_OFFSET), 8);
    if !verdict.Accepted? {
      return 0, verdict;
    }
    var sum := CheckedAdd(position, EVLR_HEADER_SIZE);
    if sum.Some? {
      sum := CheckedAdd(sum.value, FromLe64(recordLength));
    }
    if sum.None? || sum.value > end {
      return 0, PastEnd;
    }
    return sum.value, Accepted;
  }

  /** Accepts exactly the chains that fit; whatever count the file declares, the
      loop is entered at most once more than records fit into the data. */
  method CheckEvlrs(input: InputStream, evlr: Evlr, end: uint64) returns (verdict: Verdict, ghost entered: nat)
    requires input.Valid() && end as int == |input.AsFile().content|
    modifies input`pastEnd, input.buffer`cursor
    ensures input.Valid() && input.AsFile().content == old(input.AsFile()).content
    ensures verdict.Accepted? <==> HasLayout(old(input.AsFile()).content, evlr.startOfFirst as nat, evlr.count as nat)
    ensures entered <= evlr.count as nat
    ensures if evlr.startOfFirst > end then entered == 0 else entered <= (end - evlr.startOfFirst) as nat / 60 + 1
  {
    ghost var content, left := input.AsFile().content, evlr.count as nat;
    ghost var fits := ChainFits(content, evlr.startOfFirst as nat, left);
    assert fits <==> HasLayout(content, evlr.startOfFirst as nat, left) by {
      ChainFitsMeansLaidOut(content, evlr.startOfFirst as nat, left);
    }
    entered := 0;
    var position := evlr.startOfFirst;
    if position > end {
      return PastEnd, entered;
    }
    var i: uint32 := 0;
    while i < evlr.count
      invariant 0 <= i <= evlr.count && entered == i as nat && left == evlr.count as nat - i as nat
      invariant input.Valid() && input.AsFile().content == content
      invariant evlr.startOfFirst as int + 60 * i as int <= position as int <= end as int
      invariant fits <==> ChainFits(content, position as nat, left)
    {
      entered := entered + 1;
      ChainStep(content, position as nat, left);
      position, verdict := NextRecord(input, position, end);
      if !verdict.Accepted? {
        return;
      }
      i, left := i + 1, left - 1;
    }
    return Accepted, entered;
  }

  // ----- LAZ chunk table -----

  /** Where the chunk table is said to be: at the offset stored at the start of
      the point data or, if that does not point behind itself, at the one in the last 8 bytes. */
  ghost function TableFrom(dataStart: nat, first: int64, last: int64): (table: int)
    ensures first as int > dataStart ==> table == first as int
    ensures first as int <= dataStart ==> table == last as int
  {
    if first as int > dataStart then first as int else last as int
  }

  ghost function ChunkTable(content: seq<byte>, dataStart: nat): (offset: int)
    requires dataStart + 8 <= |content|
  {
    TableFrom(dataStart, AsSigned(Le64At(content, dataStart) as uint64), AsSigned(Le64At(content, |content| - 8) as uint64))
  }

  /** The check does not hold for a table inside the data that declares more
      chunks than fit before it. */
  ghost predicate ChunksFit(content: seq<byte>, dataStart: nat)
    requires dataStart + 8 <= |content|
  {
    var table := ChunkTable(content, dataStart);
    dataStart < table <= |content| - 8 ==> 20 * Le32At(content, table + 4) <= table - dataStart
  }

  /** The same on the numbers themselves, whatever content stores them: the
      offsets at the start of the point data and in the last 8 bytes, and the count in the table. */
  lemma ChunksFitStored(content: seq<byte>, dataStart: nat, first: int64, last: int64, count: uint32)
    requires StoredAt(content, dataStart, 8, first as int) && StoredAt(content, |content| - 8, 8, last as int)
    ensures var table := TableFrom(dataStart, first, last);
            if !(dataStart < table <= |content| - 8) then ChunksFit(content, dataStart)
            else StoredAt(content, table + 4, 4, count as int) ==>
                   (ChunksFit(content, dataStart) <==> 20 * count as int <= table - dataStart)
  {
    DecodesSigned(content, dataStart, first);
    DecodesSigned(content, |content| - 8, last);
    var table := TableFrom(dataStart, first, last);
    if dataStart < table <= |content| - 8 {
      Decodes32(content, table + 4, count);
    }
  }

  /** The offsets stored at the start of the point data and in the last 8 bytes. */
  ghost predicate OffsetsAt(content: seq<byte>, dataStart: int, first: int64, last: int64)
  {
    StoredAt(content, dataStart, 8, first as int) && StoredAt(content, |content| - 8, 8, last as int)
  }

  /** The number of chunks stored in a table. */
  ghost predicate CountAt(content: seq<byte>, table: int, count: uint32)
  {
    StoredAt(content, table + 4, 4, count as int)
  }

  /** A verdict on a chunk table, in terms of the numbers that the data encode. */
  ghost predicate JudgedAsStored(content: seq<byte>, dataStart: nat, verdict: Verdict)
  {
    forall first, last :: OffsetsAt(content, dataStart, first, last) ==>
      var table := TableFrom(dataStart, first, last);
      if !(dataStart < table <= |content| - 8) then verdict == Accepted
      else forall count :: CountAt(content, table, count) ==>
             verdict == if 20 * count as int <= table - dataStart then Accepted else TooManyChunks
  }

  lemma ChunksFitJudges(content: seq<byte>, dataStart: nat)
    requires dataStart + 8 <= |content|
    ensures JudgedAsStored(content, dataStart, if ChunksFit(content, dataStart) then Accepted else TooManyChunks)
  {
    forall first, last | OffsetsAt(content, dataStart, first, last)
      ensures var table := TableFrom(dataStart, first, last);
              if !(dataStart < table <= |content| - 8) then ChunksFit(content, dataStart)
              else forall count :: CountAt(content, table, count) ==>
                     (ChunksFit(content, dataStart) <==> 20 * count as int <= table - dataStart)
    {
      var table := TableFrom(dataStart, first, last);
      ChunksFitStored(content, dataStart, first, last, 0);
      if dataStart < table <= |content| - 8 {
        forall count | CountAt(content, table, count)
          ensures ChunksFit(content, dataStart) <==> 20 * count as int <= table - dataStart
        {
          ChunksFitStored(content, dataStart, first, last, count);
        }
      }
    }
  }

  /** Starts of chunks of at least 20 bytes each, one after the other between `lo` and `hi`. */
  ghost predicate Chunks(starts: seq<int>, lo: int, hi: int)
  {
    && (forall i :: 0 <= i < |starts| ==> lo <= starts[i] && starts[i] + 20 <= hi)
    && (forall i, j :: 0 <= i < j < |starts| ==> starts[i] + 20 <= starts[j])
  }

  lemma {:induction false} ChunksNeedRoom(starts: seq<int>, lo: int, hi: int)
    requires Chunks(starts, lo, hi) && lo <= hi
    ensures 20 * |starts| <= hi - lo
  {
    if starts == [] {
    } else {
      var last := |starts| - 1;
      ChunksNeedRoom(starts[..last], lo, starts[last]);
    }
  }

  /** The bound is the right one: `n` chunks can be placed in a region exactly
      when it has 20 bytes for each. */
  lemma RoomForChunks(n: nat, lo: int, hi: int)
    requires lo <= hi
    ensures (exists starts :: |starts| == n && Chunks(starts, lo, hi)) <==> 20 * n <= hi - lo
  {
    forall starts | |starts| == n && Chunks(starts, lo, hi)
      ensures 20 * n <= hi - lo
    {
      ChunksNeedRoom(starts, lo, hi);
    }
    if 20 * n <= hi - lo {
      var starts := seq(n, i requires 0 <= i < n => lo + 20 * i);
      assert Chunks(starts, lo, hi);
    }
  }

  /** Reads the offset of the chunk table; once the first read succeeds, the second one does. */
  method FindChunkTable(input: InputStream, dataStart: uint64) returns (chunkTable: int64, verdict: Verdict)
    requires input.Valid() && dataStart < 0x1_0000_0000
    modifies input`pastEnd, input.buffer`cursor
    ensures input.Valid() && input.AsFile().content == old(input.AsFile()).content
    ensures verdict == if dataStart as int + 8 > |old(input.AsFile()).content| then ShortRead else Accepted
    ensures verdict.Accepted? ==> chunkTable as int == ChunkTable(old(input.AsFile()).content, dataStart as nat)
  {
    var offset;
    offset, verdict := ReadAt(input, Start(dataStart), 8);
    if !verdict.Accepted? {
      return 0, verdict;
    }
    chunkTable := AsSigned(FromLe64(offset));
    if chunkTable <= dataStart as int64 {
      offset, verdict := ReadAt(input, End(-8), 8);
      if !verdict.Accepted? {
        return;
      }
      chunkTable := AsSigned(FromLe64(offset));
    }
  }

  /** Fails only if the first offset cannot be read; otherwise rejects exactly
      the tables that declare too much. */
  method CheckLazChunkCount(input: InputStream, offsetToPointData: uint32, end: uint64) returns (verdict: Verdict)
    requires input.Valid() && end as int == |input.AsFile().content|
    modifies input`pastEnd, input.buffer`cursor
    ensures input.Valid() && input.AsFile().content == old(input.AsFile()).content
    ensures var content, dataStart := old(input.AsFile()).content, offsetToPointData as nat;
            verdict == if dataStart + 8 > |content| then ShortRead
                       else if ChunksFit(content, dataStart) then Accepted
                       else TooManyChunks
    ensures var content, dataStart := old(input.AsFile()).content, offsetToPointData as nat;
            dataStart + 8 <= |content| ==> JudgedAsStored(content, dataStart, verdict)
  {
    if offsetToPointData as nat + 8 <= |input.AsFile().content| {
      ChunksFitJudges(input.AsFile().content, offsetToPointData as nat);
    }
    var dataStart := offsetToPointData as uint64;
    var chunkTable;
    chunkTable, verdict := FindChunkTable(input, dataStart);
    if !verdict.Accepted? {
      return;
    }
    if chunkTable < 0 {
      return Accepted;
    }
    var table := chunkTable as uint64;
    if table <= dataStart || SaturatingAdd(table, 8) > end {
      return Accepted;
    }
    var count;
    count, verdict := ReadAt(input, Start(table + 4), 4);
    if !verdict.Accepted? {
      return;
    }
    var chunks := FromLe32(count) as uint64;
    var dataSize := table - dataStart;
    if SaturatingMul(chunks, MIN_LAZ_CHUNK_SIZE) > dataSize {
      return TooManyChunks;
    }
    return Accepted;
  }

  // ----- The whole check -----

  /** Bit 7 of the point format marks compressed points. */
  predicate IsCompressed(pointFormat: byte): (compressed: bool)
    ensures compressed <==> pointFormat as int >= 128
  {
    pointFormat as bv8 & 0x80 != 0
  }

  /** The sizes that `header` declares are sizes the data can have. */
  ghost predicate SizesHold(content: seq<byte>, header: RawHeader)
  {
    && (header.evlr.Some? ==>
          HasLayout(content, header.evlr.value.startOfFirst as nat, header.evlr.value.count as nat))
    && (IsCompressed(header.pointFormat) ==>
          && header.offsetToPointData as nat + 8 <= |content|
          && ChunksFit(content, header.offsetToPointData as nat))
  }

  /** What las-rs allocates for from an accepted header is bounded by the data:
      all EVLRs with their headers, and 20 bytes for every chunk of a table that
      lies inside the stream. */
  lemma AcceptedSizesAreBounded(content: seq<byte>, header: RawHeader)
    requires SizesHold(content, header)
    ensures header.evlr.Some? ==>
              var first, n := header.evlr.value.startOfFirst as nat, header.evlr.value.count as nat;
              exists lens :: |lens| == n && LaidOut(content, first, lens) && 60 * n + SumOf(lens) <= |content| - first
    ensures IsCompressed(header.pointFormat) ==>
              var dataStart := header.offsetToPointData as nat;
              dataStart + 8 <= |content| &&
              var table := ChunkTable(content, dataStart);
              dataStart < table <= |content| - 8 ==> 20 * Le32At(content, table + 4) <= |content| - 8
  {
    if header.evlr.Some? {
      var first, n := header.evlr.value.startOfFirst as nat, header.evlr.value.count as nat;
      ChainFitsMeansLaidOut(content, first, n);
      var lens :| |lens| == n && LaidOut(content, first, lens);
    }
  }

  /** The parser finds a header at the file's position, and its sizes hold. */
  ghost predicate Acceptable(f: File, parser: HeaderParser, steps: nat)
  {
    var parsed: Option<Option<RawHeader>> := Consume(f, parser, [], steps).1;
    parsed.Some? && parsed.value.Some? && SizesHold(f.content, parsed.value.value)
  }

  /** The part between the two seeks to `start`: reads the header, checks its sizes. */
  method CheckHeader(input: InputStream, end: uint64, parser: HeaderParser, steps: nat) returns (verdict: Verdict)
    requires input.Valid() && end as int == |input.AsFile().content|
    modifies input`pastEnd, input.buffer`cursor
    ensures input.Valid() && input.AsFile().content == old(input.AsFile()).content
    ensures verdict.Accepted? <==> Acceptable(old(input.AsFile()), parser, steps)
    ensures var content, parsed := old(input.AsFile()).content, Consume(old(input.AsFile()), parser, [], steps).1;
            verdict.Accepted? <==>
            parsed.Some? && parsed.value.Some? &&
            var header := parsed.value.value;
            && (header.evlr.Some? ==>
                  HasLayout(content, header.evlr.value.startOfFirst as nat, header.evlr.value.count as nat))
            && (header.pointFormat as int >= 128 ==>
                  && header.offsetToPointData as nat + 8 <= |content|
                  && ChunksFit(content, header.offsetToPointData as nat))
  {
    ConsumeKeepsContent(input.AsFile(), parser, [], steps);
    var parsed: Option<Option<RawHeader>> := RunConsumer(input, parser, steps);
    var found: Option<RawHeader> := if parsed.Some? then parsed.value else None;
    if found.None? {
      return BadHeader;
    }
    var header := found.value;
    if header.evlr.Some? {
      ghost var entered;
      verdict, entered := CheckEvlrs(input, header.evlr.value, end);
      if !verdict.Accepted? {
        return;
      }
    }
    if IsCompressed(header.pointFormat) {
      verdict := CheckLazChunkCount(input, header.offsetToPointData, end);
      if !verdict.Accepted? {
        return;
      }
    }
    return Accepted;
  }

  /** Whatever the verdict, the stream is left where it was. */
  method CheckDeclaredSizes(input: InputStream, parser: HeaderParser, steps: nat) returns (verdict: Verdict)
    requires input.Valid()
    modifies input`pastEnd, input.buffer`cursor
    ensures input.Valid() && input.AsFile() == old(input.AsFile())
    ensures input.pastEnd.Some? <==> old(input.AsFile()).pos > |old(input.AsFile()).content|
    ensures verdict.Accepted? <==> Acceptable(old(input.AsFile()), parser, steps)
  {
    var start := input.Seek(Current(0));
    if start.None? {
      return SeekFailed;
    }
    var end := input.Seek(End(0));
    if end.None? {
      return SeekFailed;
    }
    var back := input.Seek(Start(start.value));
    if back.None? {
      return SeekFailed;
    }
    verdict := CheckHeader(input, end.value, parser, steps);
    back := input.Seek(Start(start.value));
    if back.None? {
      return SeekFailed;
    }
  }

  /** Data that starts inside a stream is judged as if it stood alone, and the
      adapter is left at its start. */
  method CheckEmbedded(prefix: seq<byte>, body: seq<byte>, parser: HeaderParser, steps: nat)
    returns (verdict: Verdict, position: nat)
    requires |prefix + body| <= MAX_OFFSET
    ensures verdict.Accepted? <==> Acceptable(File(body, 0), parser, steps)
    ensures position == |prefix|
  {
    var buffer := new StreamBuffer(prefix + body, |prefix|, |prefix + body|);
    var input := new InputStream(buffer);
    assert (prefix + body)[|prefix|..] == body;
    verdict := CheckDeclaredSizes(input, parser, steps);
    position := buffer.Tell();
  }
}
