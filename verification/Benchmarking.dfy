/**
 The parts of the benchmark program that decide whether a written file has the
 same points as its input, and that hand points over to LASzip in batches.
 */
module Benchmarking {
  import opened Basics

  const BATCH: nat := 1_000_000

  // ----- Comparing -----

  /** What is compared of a file: `standardLen` bytes of standard fields and
      `extraLen` extra bytes to a record. */
  datatype LasFile = LasFile(format: nat, transforms: seq<real>, standardLen: nat, extraLen: nat, records: seq<Record>)
  {
    function RecordLen(): nat
    {
      standardLen + extraLen
    }

    ghost predicate Valid()
    {
      AllOfLength(records, RecordLen())
    }

    /** Are `bytes` the `n` records from `first` on? */
    ghost predicate Batch(first: nat, n: nat, bytes: seq<byte>)
    {
      first + n <= |records| && bytes == Flatten(records[first..first + n])
    }
  }

  datatype Answer = DifferentFormat | FewerPoints | MorePoints | Differ(differing: nat, checked: nat) | Yes | YesStandardFields

  /** The first `compared` bytes of all records are there. */
  ghost predicate Comparable(a: LasFile, b: LasFile, compared: nat)
  {
    a.Valid() && b.Valid() && compared <= a.RecordLen() && compared <= b.RecordLen()
  }

  /** Which of the records from `from` up to `to` differ in their first `compared` bytes. */
  ghost function DifferingIn(a: LasFile, b: LasFile, compared: nat, from: nat, to: nat): (indices: set<nat>)
    requires Comparable(a, b, compared) && to <= |a.records| && to <= |b.records|
    ensures forall i :: i in indices <==> from <= i < to && a.records[i][..compared] != b.records[i][..compared]
  {
    set i: nat | from <= i < to && a.records[i][..compared] != b.records[i][..compared]
  }

  lemma DifferingStep(a: LasFile, b: LasFile, compared: nat, from: nat, k: nat)
    requires Comparable(a, b, compared) && from <= k < |a.records| && k < |b.records|
    ensures |DifferingIn(a, b, compared, from, k + 1)| ==
            |DifferingIn(a, b, compared, from, k)| + if a.records[k][..compared] == b.records[k][..compared] then 0 else 1
  {
    var before, after := DifferingIn(a, b, compared, from, k), DifferingIn(a, b, compared, from, k + 1);
    assert after == if a.records[k][..compared] == b.records[k][..compared] then before else before + {k};
  }

  lemma DifferingJoin(a: LasFile, b: LasFile, compared: nat, m: nat, k: nat)
    requires Comparable(a, b, compared) && m <= k <= |a.records| && k <= |b.records|
    ensures |DifferingIn(a, b, compared, 0, k)| ==
            |DifferingIn(a, b, compared, 0, m)| + |DifferingIn(a, b, compared, m, k)|
  {
    var left, right := DifferingIn(a, b, compared, 0, m), DifferingIn(a, b, compared, m, k);
    assert DifferingIn(a, b, compared, 0, k) == left + right && left !! right;
  }

  /** No more records differ than there are, and none exactly if all agree. */
  lemma {:induction false} DifferingBounds(a: LasFile, b: LasFile, compared: nat, k: nat)
    requires Comparable(a, b, compared) && k <= |a.records| && k <= |b.records|
    ensures |DifferingIn(a, b, compared, 0, k)| <= k
    ensures |DifferingIn(a, b, compared, 0, k)| == 0 <==> forall i :: 0 <= i < k ==> a.records[i][..compared] == b.records[i][..compared]
  {
    if k == 0 {
      assert DifferingIn(a, b, compared, 0, 0) == {};
    } else {
      DifferingStep(a, b, compared, 0, k - 1);
      DifferingBounds(a, b, compared, k - 1);
    }
  }

  /** Reads the records of a file in order; a call delivers as many as it is asked for, if they are there. */
  class RecordReader {
    const file: LasFile
    var cursor: nat

    ghost predicate Valid()
      reads this
    {
      file.Valid() && cursor <= |file.records|
    }

    constructor (file: LasFile)
      requires file.Valid()
      ensures Valid() && this.file == file && cursor == 0
    {
      this.file, cursor := file, 0;
    }

    method FillPoints(n: nat) returns (read: nat, bytes: seq<byte>)
      requires Valid()
      modifies this`cursor
      ensures Valid() && read == Min(n, |file.records| - old(cursor)) && cursor == old(cursor) + read
      ensures file.Batch(old(cursor), read, bytes)
    {
      read := Min(n, |file.records| - cursor);
      bytes := Flatten(file.records[cursor..cursor + read]);
      cursor := cursor + read;
    }
  }

  lemma StartOfWindow(whole: seq<byte>, at: nat, len: nat, compared: nat)
    requires compared <= len && at + len <= |whole|
    ensures whole[at..at + compared] == whole[at..at + len][..compared]
  {
  }

  lemma RecordInBatch(records: seq<Record>, len: nat, first: nat, n: nat, i: nat, compared: nat)
    requires AllOfLength(records, len) && first + n <= |records| && i < n && compared <= len
    ensures i * len + compared <= |Flatten(records[first..first + n])|
    ensures Flatten(records[first..first + n])[i * len..i * len + compared] == records[first + i][..compared]
  {
    var batch := records[first..first + n];
    assert batch[i] == records[first + i] && AllOfLength(batch, len);
    WindowOfFlatten(batch, len, i);
    StartOfWindow(Flatten(batch), i * len, len, compared);
  }

  /** The compared part of record `i` of a batch. */
  method RecordStart(file: LasFile, ghost first: nat, ghost n: nat, bytes: seq<byte>, compared: nat, i: nat) returns (start: seq<byte>)
    requires file.Valid() && file.Batch(first, n, bytes) && i < n && compared <= file.RecordLen()
    ensures start == file.records[first + i][..compared]
  {
    RecordInBatch(file.records, file.RecordLen(), first, n, i, compared);
    var at := i * file.RecordLen();
    start := bytes[at..at + compared];
  }

  /** The inner loop: compares the records of two batches. */
  method CompareBatch(a: LasFile, b: LasFile, first: nat, n: nat, bytesA: seq<byte>, bytesB: seq<byte>, compared: nat)
    returns (differing: nat)
    requires a.Valid() && b.Valid() && a.Batch(first, n, bytesA) && b.Batch(first, n, bytesB)
    requires compared <= a.RecordLen() && compared <= b.RecordLen()
    ensures differing == |DifferingIn(a, b, compared, first, first + n)|
    ensures differing ==
            |set i: nat | first <= i < first + n && a.records[i][..compared] != b.records[i][..compared]|
  {
    differing := 0;
    var i := 0;
    while i < n
      invariant 0 <= i <= n
      invariant differing == |DifferingIn(a, b, compared, first, first + i)|
    {
      DifferingStep(a, b, compared, first, first + i);
      var recordA := RecordStart(a, first, n, bytesA, compared, i);
      var recordB := RecordStart(b, first, n, bytesB, compared, i);
      if recordA != recordB {
        differing := differing + 1;
      }
      i := i + 1;
    }
    assert DifferingIn(a, b, compared, first, first + n) ==
           set i: nat | first <= i < first + n && a.records[i][..compared] != b.records[i][..compared];
  }

  /** One turn of the outer loop: fetches as many records of the other file, if
      it has them, and compares them. */
  method CompareNext(expected: LasFile, actual: RecordReader, first: nat, n: nat, bytes: seq<byte>, compared: nat)
    returns (differing: Option<nat>)
    requires expected.Valid() && actual.Valid() && expected.Batch(first, n, bytes) && actual.cursor == first
    requires compared <= expected.RecordLen() && compared <= actual.file.RecordLen()
    modifies actual`cursor
    ensures actual.Valid() && (differing.Some? <==> first + n <= |actual.file.records|)
    ensures differing.Some? ==>
              actual.cursor == first + n
              && differing.value == |DifferingIn(expected, actual.file, compared, first, first + n)|
              && |DifferingIn(expected, actual.file, compared, 0, first + n)| ==
                 |DifferingIn(expected, actual.file, compared, 0, first)| + differing.value
  {
    var m, actualBytes := actual.FillPoints(n);
    if m != n {
      return None;
    }
    var inBatch := CompareBatch(expected, actual.file, first, n, bytes, actualBytes, compared);
    DifferingJoin(expected, actual.file, compared, first, first + n);
    return Some(inBatch);
  }

  datatype Tally = Fewer | More | Checked(differing: nat, checked: nat)

  /** The batches of both files side by side. */
  method CountDiffering(expected: LasFile, actual: LasFile, compared: nat) returns (tally: Tally)
    requires expected.Valid() && actual.Valid()
    requires compared <= expected.RecordLen() && compared <= actual.RecordLen()
    ensures tally.Fewer? <==> |actual.records| < |expected.records|
    ensures tally.More? <==> |actual.records| > |expected.records|
    ensures tally.Checked? ==>
              && tally.checked == |expected.records| == |actual.records|
              && tally.differing == |DifferingIn(expected, actual, compared, 0, tally.checked)|
  {
    DifferingBounds(expected, actual, compared, 0);
    var expectedReader := new RecordReader(expected);
    var actualReader := new RecordReader(actual);
    var checked: nat, differing: nat := 0, 0;
    var n, bytes := expectedReader.FillPoints(BATCH);
    while n > 0
      invariant expectedReader.Valid() && actualReader.Valid()
      invariant expected.Batch(checked, n, bytes) && checked <= |actual.records|
      invariant expectedReader.cursor == checked + n && actualReader.cursor == checked
      invariant n == 0 ==> checked == |expected.records|
      invariant differing == |DifferingIn(expected, actual, compared, 0, checked)|
      decreases |expected.records| - checked
    {
      var inBatch := CompareNext(expected, actualReader, checked, n, bytes, compared);
      if inBatch.None? {
        return Fewer;
      }
      differing := differing + inBatch.value;
      checked := checked + n;
      n, bytes := expectedReader.FillPoints(BATCH);
    }
    var more, _ := actualReader.FillPoints(1);
    if more != 0 {
      return More;
    }
    return Checked(differing, checked);
  }

  /** Do the files agree in the first `compared` bytes of all their records? */
  ghost predicate SamePoints(a: LasFile, b: LasFile, compared: nat)
    requires a.Valid() && b.Valid() && compared <= a.RecordLen() && compared <= b.RecordLen()
  {
    |a.records| == |b.records| && forall i :: 0 <= i < |a.records| ==> a.records[i][..compared] == b.records[i][..compared]
  }

  /** Answers yes exactly for files of one layout whose records agree: all their
      bytes if the extra bytes are laid out alike, else the standard fields. */
  method Compare(expected: LasFile, actual: LasFile) returns (answer: Answer)
    requires expected.Valid() && actual.Valid()
    requires expected.format == actual.format ==> expected.standardLen == actual.standardLen
    ensures answer.DifferentFormat? <==> expected.format != actual.format || expected.transforms != actual.transforms
    ensures !answer.DifferentFormat? ==>
              && (answer.FewerPoints? <==> |actual.records| < |expected.records|)
              && (answer.MorePoints? <==> |actual.records| > |expected.records|)
              && (answer.Yes? <==> expected.extraLen == actual.extraLen
                                   && SamePoints(expected, actual, expected.RecordLen()))
              && (answer.YesStandardFields? <==> expected.extraLen != actual.extraLen
                                                 && SamePoints(expected, actual, expected.standardLen))
    ensures answer.Differ? ==>
              && answer.checked == |expected.records| == |actual.records|
              && var compared := if expected.extraLen == actual.extraLen then expected.RecordLen() else expected.standardLen;
                 && 0 < answer.differing <= answer.checked
                 && answer.differing == |set i: nat | i < answer.checked
                                                      && expected.records[i][..compared] != actual.records[i][..compared]|
  {
    if expected.format != actual.format || expected.transforms != actual.transforms {
      return DifferentFormat;
    }
    var compared := if expected.extraLen == actual.extraLen then expected.RecordLen() else expected.standardLen;
    var tally := CountDiffering(expected, actual, compared);
    match tally {
      case Fewer => return FewerPoints;
      case More => return MorePoints;
      case Checked(differing, checked) =>
        DifferingBounds(expected, actual, compared, checked);
        assert DifferingIn(expected, actual, compared, 0, checked) ==
               set i: nat | i < checked && expected.records[i][..compared] != actual.records[i][..compared];
        if differing != 0 {
          return Differ(differing, checked);
        }
        return if expected.extraLen == actual.extraLen then Yes else YesStandardFields;
    }
  }

  // ----- Writing with LASzip -----

  /** A point as it is in a file. */
  datatype FilePoint = FilePoint(fields: seq<byte>, extraBytes: seq<byte>)

  /** `laszip_point`: the extra bytes are only pointed at. */
  datatype LaszipPoint = LaszipPoint(fields: seq<byte>, extra: array<byte>, at: nat)

  function FileExtraBytes(points: seq<FilePoint>): (parts: seq<seq<byte>>)
    ensures |parts| == |points|
    ensures forall i :: 0 <= i < |points| ==> parts[i] == points[i].extraBytes
  {
    seq(|points|, i requires 0 <= i < |points| => points[i].extraBytes)
  }

  /** LASzip's reader: every point it returns points at the same buffer. */
  class LaszipReader {
    const points: seq<FilePoint>
    const extraCount: nat
    const buffer: array<byte>
    var next: nat

    ghost predicate Valid()
      reads this
    {
      next <= |points| && buffer.Length == extraCount && AllOfLength(FileExtraBytes(points), extraCount)
    }

    constructor (points: seq<FilePoint>, extraCount: nat)
      requires AllOfLength(FileExtraBytes(points), extraCount)
      ensures Valid() && this.points == points && this.extraCount == extraCount && next == 0 && fresh(buffer)
    {
      this.points, this.extraCount, next := points, extraCount, 0;
      buffer := new byte[extraCount](_ => 0);
    }

    method Read() returns (p: LaszipPoint)
      requires Valid() && next < |points|
      modifies this`next, buffer
      ensures Valid() && next == old(next) + 1
      ensures p == LaszipPoint(points[old(next)].fields, buffer, 0)
      ensures buffer[..] == points[old(next)].extraBytes
    {
      var extra := points[next].extraBytes;
      assert extra == FileExtraBytes(points)[next];
      forall k | 0 <= k < extraCount {
        buffer[k] := extra[k];
      }
      p := LaszipPoint(points[next].fields, buffer, 0);
      next := next + 1;
    }
  }

  class LaszipWriter {
    var written: seq<FilePoint>

    constructor ()
      ensures written == []
    {
      written := [];
    }

    /** `laszip_set_point` and `laszip_write_point`. */
    method Write(p: LaszipPoint, extraCount: nat)
      requires p.at + extraCount <= p.extra.Length
      modifies this
      ensures written == old(written) + [FilePoint(p.fields, p.extra[p.at..p.at + extraCount])]
    {
      written := written + [FilePoint(p.fields, p.extra[p.at..p.at + extraCount])];
    }
  }

  /** `std::copy_n` into a window of the batch's own buffer. */
  method CopyExtra(from: array<byte>, to: array<byte>, at: nat)
    requires from != to && at + from.Length <= to.Length
    modifies to
    ensures to[..at + from.Length] == old(to[..at]) + from[..]
  {
    forall k | 0 <= k < from.Length {
      to[at + k] := from[k];
    }
  }

  /** Reads the next `n` points, giving each its own window of `extraBytes`. */
  method ReadBatch(reader: LaszipReader, n: nat, extraBytes: array<byte>) returns (batch: seq<LaszipPoint>)
    requires reader.Valid() && extraBytes != reader.buffer && reader.next + n <= |reader.points|
    requires n * reader.extraCount <= extraBytes.Length
    modifies reader`next, reader.buffer, extraBytes
    ensures reader.Valid() && reader.next == old(reader.next) + n && |batch| == n
    ensures forall k :: 0 <= k < n ==>
              batch[k] == LaszipPoint(reader.points[old(reader.next) + k].fields, extraBytes, k * reader.extraCount)
    ensures extraBytes[..n * reader.extraCount] == Flatten(FileExtraBytes(reader.points)[old(reader.next)..reader.next])
  {
    ghost var parts, first := FileExtraBytes(reader.points), reader.next;
    batch := [];
    var i := 0;
    while i < n
      invariant 0 <= i <= n && |batch| == i && reader.Valid() && reader.next == first + i
      invariant 0 <= i * reader.extraCount <= extraBytes.Length
      invariant forall k :: 0 <= k < i ==>
                  batch[k] == LaszipPoint(reader.points[first + k].fields, extraBytes, k * reader.extraCount)
      invariant extraBytes[..i * reader.extraCount] == Flatten(parts[first..first + i])
    {
      WindowInRange(i, n, reader.extraCount);
      var p := reader.Read();
      var at := i * reader.extraCount;
      CopyExtra(p.extra, extraBytes, at);
      FlattenAppend(parts[first..first + i], parts[first + i]);
      assert parts[first..first + i + 1] == parts[first..first + i] + [parts[first + i]];
      batch := batch + [p.(extra := extraBytes, at := at)];
      i := i + 1;
    }
  }

  /** Writes a batch; the buffer that its points share is not touched meanwhile. */
  method WriteBatch(writer: LaszipWriter, batch: seq<LaszipPoint>, extraBytes: array<byte>, extraCount: nat,
                    ghost points: seq<FilePoint>)
    requires |batch| == |points| && AllOfLength(FileExtraBytes(points), extraCount)
    requires |batch| * extraCount <= extraBytes.Length
    requires extraBytes[..|batch| * extraCount] == Flatten(FileExtraBytes(points))
    requires forall k :: 0 <= k < |batch| ==> batch[k] == LaszipPoint(points[k].fields, extraBytes, k * extraCount)
    modifies writer
    ensures writer.written == old(writer.written) + points
  {
    var i := 0;
    while i < |batch|
      invariant 0 <= i <= |batch|
      invariant writer.written == old(writer.written) + points[..i]
    {
      WindowInRange(i, |batch|, extraCount);
      WindowOfFlatten(FileExtraBytes(points), extraCount, i);
      ghost var at := i * extraCount;
      assert extraBytes[at..at + extraCount] == extraBytes[..|batch| * extraCount][at..at + extraCount];
      writer.Write(batch[i], extraCount);
      i := i + 1;
    }
    assert points[..i] == points;
  }

  lemma SliceOfPoints(points: seq<FilePoint>, extraCount: nat, first: nat, n: nat)
    requires AllOfLength(FileExtraBytes(points), extraCount) && first + n <= |points|
    ensures var slice := points[first..first + n];
            && FileExtraBytes(slice) == FileExtraBytes(points)[first..first + n]
            && AllOfLength(FileExtraBytes(slice), extraCount)
            && points[..first] + slice == points[..first + n]
  {
  }

  lemma BatchFits(n: nat, len: nat)
    requires n <= BATCH
    ensures n * len <= BATCH * len
  {
  }

  /** Batch by batch, exactly the input points are written, in order and each
      with its own extra bytes, although the reader reuses one buffer for them. */
  method LaszipWrite(points: seq<FilePoint>, extraCount: nat) returns (written: seq<FilePoint>)
    requires AllOfLength(FileExtraBytes(points), extraCount)
    ensures written == points
  {
    var reader := new LaszipReader(points, extraCount);
    var writer := new LaszipWriter();
    var extraBytes := new byte[BATCH * extraCount](_ => 0);
    var done := 0;
    while done < |points|
      invariant 0 <= done <= |points| && reader.Valid() && reader.next == done
      invariant writer.written == points[..done]
    {
      var n := Min(BATCH, |points| - done);
      BatchFits(n, extraCount);
      var batch := ReadBatch(reader, n, extraBytes);
      ghost var slice := points[done..done + n];
      SliceOfPoints(points, extraCount, done, n);
      WriteBatch(writer, batch, extraBytes, extraCount, slice);
      done := done + n;
    }
    return writer.written;
  }
}
