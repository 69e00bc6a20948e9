/**
 Reading points in batches, and sessions of a reader. The foreign reader is
 known only by its contract: it delivers some of the next records, at least one
 if any was asked for and is left, and puts exactly those into the target.
 */
module PointReading {
  import opened Basics

  const BATCH_POINTS: uint64 := 0x10_0000

  /** Bytes cut into records of one length. */
  ghost function RecordsIn(bytes: seq<byte>, len: nat): (records: seq<Record>)
    requires 0 < len
    decreases |bytes|
  {
    if |bytes| < len then [] else [bytes[..len]] + RecordsIn(bytes[len..], len)
  }

  /** Points as raw records: `raw_bytes` is their concatenation. */
  class PointData {
    const recordLen: nat
    var bytes: seq<byte>

    /** The points themselves. */
    ghost function Records(): seq<Record>
      requires 0 < recordLen
      reads this
    {
      RecordsIn(bytes, recordLen)
    }

    constructor (recordLen: nat, bytes: seq<byte>)
      ensures this.recordLen == recordLen && this.bytes == bytes
    {
      this.recordLen, this.bytes := recordLen, bytes;
    }
  }

  /** The foreign reader, over the records of its file. */
  class FileReader {
    const recordLen: nat
    const records: seq<Record>
    var cursor: nat

    /** How many points were asked for, call by call. */
    ghost var asked: seq<uint64>

    ghost predicate Valid()
      reads this
    {
      && 0 < recordLen && AllOfLength(records, recordLen)
      && cursor <= |records| <= U64_MAX
    }

    constructor (records: seq<Record>, recordLen: nat)
      requires 0 < recordLen && AllOfLength(records, recordLen) && |records| <= U64_MAX
      ensures Valid() && this.records == records && this.recordLen == recordLen && cursor == 0
    {
      this.records, this.recordLen, cursor, asked := records, recordLen, 0, [];
    }

    /** How many records are left. */
    ghost function Left(): nat
      requires Valid()
      reads this
    {
      |records| - cursor
    }

    method FillPoints(n: uint64, target: PointData) returns (read: uint64)
      requires Valid() && target.recordLen == recordLen
      modifies this`cursor, this`asked, target
      ensures Valid() && cursor == old(cursor) + read as nat && asked == old(asked) + [n]
      ensures read as int <= Min(n as int, old(Left()))
      ensures read == 0 ==> Min(n as int, old(Left())) == 0
      ensures target.bytes == Flatten(records[old(cursor)..cursor])
    {
      var most := Min(n as int, |records| - cursor);
      var count: int := 0;
      if most > 0 {
        count :| 1 <= count <= most;
      }
      target.bytes := Flatten(records[cursor..cursor + count]);
      cursor := cursor + count;
      asked := asked + [n];
      read := count as uint64;
    }

    method SeekTo(position: uint64)
      requires Valid() && position as int <= |records|
      modifies this`cursor
      ensures Valid() && cursor == position as nat
    {
      cursor := position as nat;
    }
  }

  lemma JoinSlices(records: seq<Record>, a: nat, b: nat, c: nat)
    requires a <= b <= c <= |records|
    ensures Flatten(records[a..c]) == Flatten(records[a..b]) + Flatten(records[b..c])
  {
    FlattenConcat(records[a..b], records[b..c]);
    assert records[a..b] + records[b..c] == records[a..c];
  }

  /** Records of one length can be read off their concatenation. */
  lemma {:induction false} RecordsInFlatten(records: seq<Record>, len: nat)
    requires 0 < len && AllOfLength(records, len)
    ensures RecordsIn(Flatten(records), len) == records
  {
    if records == [] {
    } else {
      var whole := Flatten(records);
      RecordsInFlatten(records[1..], len);
      assert whole[..len] == records[0] && whole[len..] == Flatten(records[1..]);
      assert records == [records[0]] + records[1..];
    }
  }

  lemma SliceOfRecords(records: seq<Record>, len: nat, a: nat, b: nat)
    requires 0 < len && AllOfLength(records, len) && a <= b <= |records|
    ensures |Flatten(records[a..b])| == (b - a) * len
    ensures RecordsIn(Flatten(records[a..b]), len) == records[a..b]
  {
    var slice := records[a..b];
    forall i | 0 <= i < |slice|
      ensures |slice[i]| == len
    {
      assert slice[i] == records[a + i];
    }
    FlattenLength(slice, len);
    RecordsInFlatten(slice, len);
  }

  lemma ProductIsZero(a: nat, b: nat)
    requires 0 < b
    ensures a * b == 0 <==> a == 0
  {
  }

  /** The batching loop: whatever the batches turn out to be, the bytes gathered
      are exactly the next `n` records, or all that are left. */
  method ReadBatches(reader: FileReader, n: uint64) returns (bytes: seq<byte>)
    requires reader.Valid()
    modifies reader`cursor, reader`asked
    ensures reader.Valid() && reader.cursor == old(reader.cursor) + Min(n as int, old(reader.Left()))
    ensures bytes == Flatten(reader.records[old(reader.cursor)..reader.cursor])
    ensures |old(reader.asked)| <= |reader.asked|
    ensures forall i :: |old(reader.asked)| <= i < |reader.asked| ==> 0 < reader.asked[i] as int <= 1_048_576
  {
    ghost var first := reader.cursor;
    var batch := new PointData(reader.recordLen, []);
    bytes := [];
    var remaining := n;
    while remaining > 0
      invariant reader.Valid() && first <= reader.cursor
      invariant remaining as int == n as int - (reader.cursor - first)
      invariant bytes == Flatten(reader.records[first..reader.cursor])
      invariant |old(reader.asked)| <= |reader.asked|
      invariant forall i :: |old(reader.asked)| <= i < |reader.asked| ==> 0 < reader.asked[i] as int <= 1_048_576
      invariant fresh(batch) && batch.recordLen == reader.recordLen
    {
      var request := if remaining <= BATCH_POINTS then remaining else BATCH_POINTS;
      ghost var before := reader.cursor;
      var read := reader.FillPoints(request, batch);
      if read == 0 {
        break;
      }
      JoinSlices(reader.records, first, before, reader.cursor);
      bytes := bytes + batch.bytes;
      remaining := remaining - read;
    }
  }

  /** Reads up to `n` points: the bytes gathered are whole records, so point data can be built from them. */
  method ReadPoints(reader: FileReader, n: uint64) returns (points: PointData)
    requires reader.Valid()
    modifies reader`cursor, reader`asked
    ensures reader.Valid() && reader.cursor == old(reader.cursor) + Min(n as int, old(reader.Left()))
    ensures fresh(points) && points.recordLen == reader.recordLen
    ensures points.Records() == reader.records[old(reader.cursor)..reader.cursor]
    ensures points.bytes == Flatten(reader.records[old(reader.cursor)..reader.cursor])
    ensures |points.bytes| == (reader.cursor - old(reader.cursor)) * reader.recordLen
    ensures points.bytes == [] <==> reader.cursor == old(reader.cursor)
    ensures |old(reader.asked)| <= |reader.asked|
    ensures forall i :: |old(reader.asked)| <= i < |reader.asked| ==> 0 < reader.asked[i] as int <= 1_048_576
  {
    ghost var first := reader.cursor;
    var bytes := ReadBatches(reader, n);
    SliceOfRecords(reader.records, reader.recordLen, first, reader.cursor);
    ProductIsZero(reader.cursor - first, reader.recordLen);
    points := new PointData(reader.recordLen, bytes);
  }

  // ----- Sessions -----

  datatype Call = ReadCall(n: uint64) | ReadAllCall | FillCall(n: uint64) | SeekCall(position: uint64)

  /** What a call did: gave out some bytes, or moved the cursor. */
  datatype Event = Delivered(bytes: seq<byte>) | Sought(position: nat)

  /** Does `bytes` hold the records from `c` up to `c'`? */
  ghost predicate Holds(records: seq<Record>, c: nat, c': nat, bytes: seq<byte>)
  {
    c <= c' <= |records| && bytes == Flatten(records[c..c'])
  }

  /** An event that takes the cursor from `c` to `c'`. */
  ghost predicate Fits(records: seq<Record>, c: nat, c': nat, event: Event)
  {
    match event
    case Delivered(bytes) => Holds(records, c, c', bytes)
    case Sought(position) => c' == Min(position, |records|)
  }

  /** The events of a session that stood at the given cursors before, between and after them. */
  ghost predicate Session(records: seq<Record>, cursors: seq<nat>, events: seq<Event>)
  {
    && |cursors| == |events| + 1
    && (forall i :: 0 <= i < |cursors| ==> cursors[i] <= |records|)
    && (forall i {:trigger events[i]} :: 0 <= i < |events| ==> Fits(records, cursors[i], cursors[i + 1], events[i]))
  }

  /** What the calls from `i` up to `j` gave out, together. */
  ghost function DeliveredBytes(events: seq<Event>, i: nat, j: nat): seq<byte>
    requires i <= j <= |events|
    decreases j
  {
    if i == j then [] else
      DeliveredBytes(events, i, j - 1) + (if events[j - 1].Delivered? then events[j - 1].bytes else [])
  }

  lemma HoldsJoin(records: seq<Record>, a: nat, b: nat, c: nat, left: seq<byte>, right: seq<byte>)
    requires Holds(records, a, b, left) && Holds(records, b, c, right)
    ensures Holds(records, a, c, left + right)
  {
    JoinSlices(records, a, b, c);
  }

  lemma DeliveryAt(records: seq<Record>, cursors: seq<nat>, events: seq<Event>, k: nat)
    requires Session(records, cursors, events) && k < |events| && events[k].Delivered?
    ensures Holds(records, cursors[k], cursors[k + 1], events[k].bytes)
  {
    assert Fits(records, cursors[k], cursors[k + 1], events[k]);
  }

  /** Everything delivered between two seeks is one contiguous slice of the file. */
  lemma {:induction false} DeliveriesAreContiguous(records: seq<Record>, cursors: seq<nat>, events: seq<Event>, i: nat, j: nat)
    requires Session(records, cursors, events) && i <= j <= |events|
    requires forall k :: i <= k < j ==> events[k].Delivered?
    ensures Holds(records, cursors[i], cursors[j], DeliveredBytes(events, i, j))
    decreases j
  {
    if i == j {
      assert records[cursors[i]..cursors[j]] == [];
    } else {
      DeliveriesAreContiguous(records, cursors, events, i, j - 1);
      DeliveryAt(records, cursors, events, j - 1);
      HoldsJoin(records, cursors[i], cursors[j - 1], cursors[j],
                DeliveredBytes(events, i, j - 1), events[j - 1].bytes);
    }
  }

  /** What `call` asks of its event, which takes the cursor from `c` to `c'` in a
      file of `total` points. A fill may stop early, but not before its first point. */
  ghost predicate Answers(call: Call, total: nat, c: nat, c': nat, event: Event)
  {
    match call
    case ReadCall(n) => event.Delivered? && c' == Min(c + n as int, total)
    case ReadAllCall => event.Delivered? && c' == total
    case FillCall(n) => event.Delivered? && c' <= c + n as int && (c' == c ==> n == 0 || c == total)
    case SeekCall(position) => event == Sought(position as nat)
  }

  /** The reader as the C interface drives it. */
  class Reader {
    const file: FileReader

    ghost predicate Valid()
      reads this, file
    {
      file.Valid()
    }

    constructor (file: FileReader)
      requires file.Valid()
      ensures this.file == file && Valid()
    {
      this.file := file;
    }

    /** Asks for as many points as the whole file has; from any cursor that is exactly the rest. */
    method ReadAll() returns (points: PointData)
      requires Valid()
      modifies file`cursor, file`asked
      ensures Valid() && file.cursor == |file.records|
      ensures fresh(points) && points.recordLen == file.recordLen
      ensures points.bytes == Flatten(file.records[old(file.cursor)..])
      ensures points.Records() == file.records[old(file.cursor)..]
    {
      points := ReadPoints(file, |file.records| as uint64);
      assert file.records[old(file.cursor)..file.cursor] == file.records[old(file.cursor)..];
    }

    /** A seek past the last point is clamped. */
    method Seek(position: uint64)
      requires Valid()
      modifies file`cursor, file`asked
      ensures Valid() && file.cursor == Min(position as int, |file.records|)
    {
      var clamped := if position as int <= |file.records| then position else |file.records| as uint64;
      file.SeekTo(clamped);
    }

    method Perform(call: Call) returns (event: Event)
      requires Valid()
      modifies file`cursor, file`asked
      ensures Valid()
      ensures Fits(file.records, old(file.cursor), file.cursor, event)
      ensures Answers(call, |file.records|, old(file.cursor), file.cursor, event)
    {
      match call {
        case ReadCall(n) =>
          var points := ReadPoints(file, n);
          event := Delivered(points.bytes);
        case ReadAllCall =>
          var points := ReadAll();
          assert file.records[old(file.cursor)..] == file.records[old(file.cursor)..file.cursor];
          event := Delivered(points.bytes);
        case FillCall(n) =>
          var target := new PointData(file.recordLen, []);
          var read := file.FillPoints(n, target);
          event := Delivered(target.bytes);
        case SeekCall(position) =>
          Seek(position);
          event := Sought(position as nat);
      }
    }
  }

  /** Any sequence of calls on a newly opened reader is a session. */
  method RunSession(records: seq<Record>, recordLen: nat, calls: seq<Call>)
    returns (cursors: seq<nat>, events: seq<Event>)
    requires 0 < recordLen && AllOfLength(records, recordLen) && |records| <= U64_MAX
    ensures |events| == |calls| && Session(records, cursors, events) && cursors[0] == 0
    ensures forall i {:trigger calls[i]} :: 0 <= i < |calls| ==>
              Answers(calls[i], |records|, cursors[i], cursors[i + 1], events[i])
  {
    var file := new FileReader(records, recordLen);
    var reader := new Reader(file);
    cursors, events := [0], [];
    for i := 0 to |calls|
      invariant reader.Valid() && |events| == i && Session(records, cursors, events)
      invariant file.cursor == cursors[i] && cursors[0] == 0
      invariant forall k {:trigger calls[k]} :: 0 <= k < i ==>
                  Answers(calls[k], |records|, cursors[k], cursors[k + 1], events[k])
    {
      var event := reader.Perform(calls[i]);
      cursors, events := cursors + [file.cursor], events + [event];
    }
  }

  /** The records from `c` on, cut into pieces of `k`, the last one shorter if need be. */
  ghost function Pieces(records: seq<Record>, c: nat, k: nat): (pieces: seq<seq<byte>>)
    requires c <= |records| && k > 0
    decreases |records| - c
  {
    if c == |records| then [] else
      var next := Min(c + k, |records|);
      [Flatten(records[c..next])] + Pieces(records, next, k)
  }

  /** Together the pieces hold every record from `c` on exactly once, in order. */
  lemma {:induction false} PiecesCoverTheRest(records: seq<Record>, c: nat, k: nat)
    requires c <= |records| && k > 0
    ensures Flatten(Pieces(records, c, k)) == Flatten(records[c..])
    decreases |records| - c
  {
    if c == |records| {
    } else {
      var next := Min(c + k, |records|);
      PiecesCoverTheRest(records, next, k);
      JoinSlices(records, c, next, |records|);
      assert records[c..|records|] == records[c..] && records[next..|records|] == records[next..];
    }
  }

  lemma PiecesAreRecords(records: seq<Record>, len: nat, c: nat, k: nat)
    requires 0 < len && AllOfLength(records, len) && c <= |records| && k > 0
    ensures RecordsIn(Flatten(Pieces(records, c, k)), len) == records[c..]
  {
    PiecesCoverTheRest(records, c, k);
    SliceOfRecords(records, len, c, |records|);
    assert records[c..|records|] == records[c..];
  }

  lemma NextPiece(records: seq<Record>, batches: seq<seq<byte>>, c: nat, k: nat)
    requires c < |records| && k > 0
    ensures var next := Min(c + k, |records|);
            batches + Pieces(records, c, k) == batches + [Flatten(records[c..next])] + Pieces(records, next, k)
  {
    var next := Min(c + k, |records|);
    ConcatAssociative(batches, [Flatten(records[c..next])], Pieces(records, next, k));
  }

  /** The bytes of up to `k` points. */
  method NextBytes(reader: FileReader, k: uint64) returns (bytes: seq<byte>)
    requires reader.Valid()
    modifies reader`cursor, reader`asked
    ensures reader.Valid() && reader.cursor == Min(old(reader.cursor) + k as int, |reader.records|)
    ensures bytes == Flatten(reader.records[old(reader.cursor)..reader.cursor])
    ensures bytes == [] <==> reader.cursor == old(reader.cursor)
  {
    var points := ReadPoints(reader, k);
    bytes := points.bytes;
  }

  /** Reading `k` points at a time until nothing comes visits every point left exactly once. */
  method ReadInSteps(reader: FileReader, k: uint64) returns (batches: seq<seq<byte>>)
    requires reader.Valid() && k > 0
    modifies reader`cursor, reader`asked
    ensures reader.Valid() && reader.cursor == |reader.records|
    ensures batches == Pieces(reader.records, old(reader.cursor), k as nat)
    ensures RecordsIn(Flatten(batches), reader.recordLen) == reader.records[old(reader.cursor)..]
  {
    ghost var records, first := reader.records, reader.cursor;
    ghost var pieces := Pieces(records, first, k as nat);
    batches := [];
    while true
      invariant reader.Valid() && batches + Pieces(records, reader.cursor, k as nat) == pieces
      decreases |reader.records| - reader.cursor
    {
      if reader.cursor < |records| {
        NextPiece(records, batches, reader.cursor, k as nat);
      }
      var bytes := NextBytes(reader, k);
      if |bytes| == 0 {
        break;
      }
      batches := batches + [bytes];
    }
    PiecesAreRecords(records, reader.recordLen, first, k as nat);
  }
}
