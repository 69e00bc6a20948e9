/** Whole runs of the output adapter against a sparse file, which a seek past the
    end leaves as it is until something is written there. */
module OutputRuns {
  import opened Basics
  import opened Seeking
  import opened StreamBuffers
  import opened InputStreams
  import opened OutputStreams

  datatype Op = WriteOp(bytes: seq<byte>) | SeekOp(to: SeekFrom)

  /** What the caller of an operation learns. */
  datatype Answer = Written | Reached(position: nat) | Refused

  /** One step of a sparse file; a seek that is refused changes nothing. */
  function SparseStep(f: File, op: Op): (r: (File, Answer))
  {
    match op
    case WriteOp(s) =>
      if s == [] then (f, Written) else
        var reached := f.content + Zeros(Max(f.pos - |f.content|, 0));
        (File(Overwrite(reached, f.pos, s), f.pos + |s|), Written)
    case SeekOp(to) =>
      var target := ExactTarget(to, f.pos, |f.content|);
      if Representable(target) then (f.(pos := target), Reached(target)) else (f, Refused)
  }

  /** One step of the adapter on a stream that never fills up. */
  function EagerStep(f: File, op: Op): (r: (File, Answer))
    requires f.pos <= |f.content|
    ensures r.0.pos <= |r.0.content|
  {
    match op
    case WriteOp(s) => (EagerWrite(f, s), Written)
    case SeekOp(to) =>
      var target := ExactTarget(to, f.pos, |f.content|);
      if Representable(target) then (EagerSeek(f, target), Reached(target)) else (AfterRefusedSeek(f, to), Refused)
  }

  function SparseRun(f: File, ops: seq<Op>): (r: (File, seq<Answer>))
    ensures |r.1| == |ops|
    decreases |ops|
  {
    if ops == [] then (f, []) else
      var (next, answer) := SparseStep(f, ops[0]);
      var (last, answers) := SparseRun(next, ops[1..]);
      (last, [answer] + answers)
  }

  function EagerRun(f: File, ops: seq<Op>): (r: (File, seq<Answer>))
    requires f.pos <= |f.content|
    ensures |r.1| == |ops| && r.0.pos <= |r.0.content|
    decreases |ops|
  {
    if ops == [] then (f, []) else
      var (next, answer) := EagerStep(f, ops[0]);
      var (last, answers) := EagerRun(next, ops[1..]);
      (last, [answer] + answers)
  }

  /** What the last write that covers index `i` puts there, if one does. */
  function LastWritten(f: File, ops: seq<Op>, i: nat): (b: Option<byte>)
    decreases |ops|
  {
    if ops == [] then None else
      var later := LastWritten(SparseStep(f, ops[0]).0, ops[1..], i);
      if later.Some? then later
      else if ops[0].WriteOp? && f.pos <= i < f.pos + |ops[0].bytes| then Some(ops[0].bytes[i - f.pos])
      else None
  }

  lemma SparseStepBytes(f: File, op: Op, i: nat)
    ensures var r := SparseStep(f, op).0.content;
            && (op.WriteOp? && f.pos <= i < f.pos + |op.bytes| ==> i < |r| && r[i] == op.bytes[i - f.pos])
            && (!(op.WriteOp? && f.pos <= i < f.pos + |op.bytes|) && i < |r| ==>
                  r[i] == if i < |f.content| then f.content[i] else 0)
            && |f.content| <= |r|
  {
  }

  /** Byte by byte, a sparse file holds after any run what was written there last,
      else what it held before, else zero. */
  lemma {:induction false} SparseRunBytes(f: File, ops: seq<Op>, i: nat)
    ensures var r, written := SparseRun(f, ops).0.content, LastWritten(f, ops, i);
            && |f.content| <= |r| && (written.Some? ==> i < |r|)
            && (i < |r| ==> r[i] == if written.Some? then written.value else if i < |f.content| then f.content[i] else 0)
    decreases |ops|
  {
    if ops == [] {
    } else {
      SparseStepBytes(f, ops[0], i);
      SparseRunBytes(SparseStep(f, ops[0]).0, ops[1..], i);
    }
  }

  /** The furthest position sought after one more operation. */
  function Further(f: File, op: Op, h: nat): (furthest: nat)
    ensures furthest >= h
  {
    var (next, answer) := SparseStep(f, op);
    if answer.Reached? then Max(h, answer.position) else h
  }

  /** The furthest position that `ops` seek to, or `h` if that is further. */
  function FurthestSeek(f: File, ops: seq<Op>, h: nat): (furthest: nat)
    ensures furthest >= h
    decreases |ops|
  {
    if ops == [] then h else FurthestSeek(SparseStep(f, ops[0]).0, ops[1..], Further(f, ops[0], h))
  }

  // ----- One step -----

  /** The adapter's bytes are the sparse file's followed by zeros only, up to the
      furthest position sought so far, and both stand at the same position. */
  ghost predicate Simulates(eager: File, sparse: File, furthest: nat)
  {
    && eager.pos == sparse.pos <= |eager.content|
    && |eager.content| == Max(|sparse.content|, furthest)
    && eager.content == sparse.content + Zeros(|eager.content| - |sparse.content|)
  }

  /** An operation on a sparse file that has been moved no further than `h` and
      that the adapter answers and carries out alike: no seek relative to the end
      that can succeed while a gap waits to be written, and no refused seek, other
      than a `Start`, before the end of gap and file. */
  predicate Harmless(f: File, h: nat, op: Op)
  {
    op.SeekOp? ==>
      var end := Max(|f.content|, h);
      if Representable(ExactTarget(op.to, f.pos, |f.content|)) || Representable(ExactTarget(op.to, f.pos, end))
      then op.to.End? ==> h <= |f.content|
      else op.to.Start? || f.pos >= end
  }

  lemma ZerosJoin(a: nat, b: nat)
    ensures Zeros(a) + Zeros(b) == Zeros(a + b)
  {
  }

  /** Zeros behind the end survive a write, but for those it covers. */
  lemma OverwriteBeforeZeros(r: seq<byte>, m: nat, at: nat, s: seq<byte>)
    requires at <= |r|
    ensures Overwrite(r + Zeros(m), at, s) == Overwrite(r, at, s) + Zeros(Max(|r| + m - Max(|r|, at + |s|), 0))
  {
    assert (r + Zeros(m))[..at] == r[..at];
  }

  lemma WriteSimulates(eager: File, sparse: File, h: nat, s: seq<byte>)
    requires Simulates(eager, sparse, h)
    ensures Simulates(EagerWrite(eager, s), SparseStep(sparse, WriteOp(s)).0, h)
  {
    if s == [] {
      assert EagerWrite(eager, s).content == eager.content;
    } else {
      var k, j := |eager.content| - |sparse.content|, Max(sparse.pos - |sparse.content|, 0);
      var reached := sparse.content + Zeros(j);
      ZerosJoin(j, k - j);
      assert eager.content == reached + Zeros(k - j);
      OverwriteBeforeZeros(reached, k - j, sparse.pos, s);
    }
  }

  lemma SeekSimulates(eager: File, sparse: File, h: nat, to: SeekFrom)
    requires Simulates(eager, sparse, h) && Harmless(sparse, h, SeekOp(to))
    ensures EagerStep(eager, SeekOp(to)).1 == SparseStep(sparse, SeekOp(to)).1
    ensures Simulates(EagerStep(eager, SeekOp(to)).0, SparseStep(sparse, SeekOp(to)).0, Further(sparse, SeekOp(to), h))
  {
    var target := ExactTarget(to, sparse.pos, |sparse.content|);
    if Representable(target) {
      assert ExactTarget(to, eager.pos, |eager.content|) == target;
      ZerosJoin(|eager.content| - |sparse.content|, Max(target - |eager.content|, 0));
    }
  }

  /** A seek relative to the end is answered as by the sparse file, in grant and
      position, exactly if no gap is waiting to be written or neither can go there. */
  lemma EndSeekAgrees(eager: File, sparse: File, h: nat, d: int64)
    requires Simulates(eager, sparse, h)
    ensures EagerStep(eager, SeekOp(End(d))).1 == SparseStep(sparse, SeekOp(End(d))).1 <==>
            || h <= |sparse.content|
            || (!Representable(|eager.content| + d as int) && !Representable(|sparse.content| + d as int))
  {
    assert ExactTarget(End(d), eager.pos, |eager.content|) == |eager.content| + d as int;
    assert ExactTarget(End(d), sparse.pos, |sparse.content|) == |sparse.content| + d as int;
  }

  /** A refused seek leaves the position exactly if the adapter was not reached or stood at its end. */
  lemma RefusedSeekKeepsPosition(f: File, to: SeekFrom)
    requires f.pos <= |f.content| && EagerStep(f, SeekOp(to)).1.Refused?
    ensures EagerStep(f, SeekOp(to)).0 == f <==> to.Start? || f.pos == |f.content|
  {
    assert AfterRefusedSeek(f, to).content == f.content;
  }

  /** A harmless operation is answered alike and keeps the simulation; any other
      one is answered differently or leaves the adapter somewhere else. */
  lemma StepAgreesExactly(eager: File, sparse: File, h: nat, op: Op)
    requires Simulates(eager, sparse, h)
    ensures Harmless(sparse, h, op) <==>
            && EagerStep(eager, op).1 == SparseStep(sparse, op).1
            && EagerStep(eager, op).0.pos == SparseStep(sparse, op).0.pos
    ensures Harmless(sparse, h, op) ==>
              Simulates(EagerStep(eager, op).0, SparseStep(sparse, op).0, Further(sparse, op, h))
  {
    match op
    case WriteOp(s) => WriteSimulates(eager, sparse, h, s);
    case SeekOp(to) =>
      if Harmless(sparse, h, op) {
        SeekSimulates(eager, sparse, h, to);
      } else if EagerStep(eager, op).1 == SparseStep(sparse, op).1 == Refused {
        RefusedSeekKeepsPosition(eager, to);
      } else if to.End? {
        EndSeekAgrees(eager, sparse, h, to.d);
      }
  }

  // ----- Runs -----

  /** Every operation is harmless where it stands. */
  predicate AllHarmless(f: File, ops: seq<Op>, h: nat)
    decreases |ops|
  {
    ops == [] || (Harmless(f, h, ops[0]) && AllHarmless(SparseStep(f, ops[0]).0, ops[1..], Further(f, ops[0], h)))
  }

  /** Over every run of harmless operations the adapter gives the sparse file's
      answers and simulates it to the end. */
  lemma {:induction false} AdapterSimulatesSparseFile(eager: File, sparse: File, ops: seq<Op>, h: nat)
    requires Simulates(eager, sparse, h) && AllHarmless(sparse, ops, h)
    ensures EagerRun(eager, ops).1 == SparseRun(sparse, ops).1
    ensures Simulates(EagerRun(eager, ops).0, SparseRun(sparse, ops).0, FurthestSeek(sparse, ops, h))
    decreases |ops|
  {
    if ops == [] {
    } else {
      StepAgreesExactly(eager, sparse, h, ops[0]);
      AdapterSimulatesSparseFile(EagerStep(eager, ops[0]).0, SparseStep(sparse, ops[0]).0, ops[1..], Further(sparse, ops[0], h));
    }
  }

  predicate StartOrCurrent(op: Op)
  {
    op.SeekOp? ==> !op.to.End?
  }

  /** Among them are all runs of writes and seeks relative to the start or the
      current position in which the sparse file refuses nothing. */
  lemma {:induction false} SuccessfulRunsAreHarmless(sparse: File, ops: seq<Op>, h: nat)
    requires forall op :: op in ops ==> StartOrCurrent(op)
    requires Refused !in SparseRun(sparse, ops).1
    ensures AllHarmless(sparse, ops, h)
    decreases |ops|
  {
    if ops == [] {
    } else {
      var (next, answer) := SparseStep(sparse, ops[0]);
      assert SparseRun(sparse, ops).1 == [answer] + SparseRun(next, ops[1..]).1;
      assert answer in SparseRun(sparse, ops).1 && ops[0] in ops;
      assert Refused !in SparseRun(next, ops[1..]).1;
      SuccessfulRunsAreHarmless(next, ops[1..], Further(sparse, ops[0], h));
    }
  }

  /** After each of the first `n` operations both have given the same answers and stand at the same position. */
  ghost predicate AgreeAfter(eager: File, sparse: File, ops: seq<Op>, n: nat)
    requires eager.pos <= |eager.content| && n <= |ops|
  {
    && EagerRun(eager, ops[..n]).1 == SparseRun(sparse, ops[..n]).1
    && EagerRun(eager, ops[..n]).0.pos == SparseRun(sparse, ops[..n]).0.pos
  }

  lemma AgreeAfterStep(eager: File, sparse: File, ops: seq<Op>, n: nat)
    requires eager.pos <= |eager.content| && n < |ops|
    ensures AgreeAfter(eager, sparse, ops, n + 1) <==>
            && EagerStep(eager, ops[0]).1 == SparseStep(sparse, ops[0]).1
            && AgreeAfter(EagerStep(eager, ops[0]).0, SparseStep(sparse, ops[0]).0, ops[1..], n)
  {
    var e, s := EagerStep(eager, ops[0]), SparseStep(sparse, ops[0]);
    assert ops[..n + 1][1..] == ops[1..][..n];
    var es, ss := EagerRun(e.0, ops[1..][..n]).1, SparseRun(s.0, ops[1..][..n]).1;
    assert EagerRun(eager, ops[..n + 1]).1 == [e.1] + es && SparseRun(sparse, ops[..n + 1]).1 == [s.1] + ss;
    assert ([e.1] + es)[1..] == es && ([s.1] + ss)[1..] == ss;
  }

  /** And among all runs of writes and seeks of any kind these are the only ones
      over which adapter and sparse file agree throughout. */
  lemma {:induction false} AgreeThroughoutExactlyIfHarmless(eager: File, sparse: File, ops: seq<Op>, h: nat)
    requires Simulates(eager, sparse, h)
    ensures AllHarmless(sparse, ops, h) <==> forall n :: 0 <= n <= |ops| ==> AgreeAfter(eager, sparse, ops, n)
    decreases |ops|
  {
    if ops == [] {
      assert ops[..0] == [];
    } else {
      var e, s := EagerStep(eager, ops[0]), SparseStep(sparse, ops[0]);
      var rest := ops[1..];
      assert AgreeAfter(eager, sparse, ops, 0);
      forall n | 0 <= n <= |rest|
        ensures AgreeAfter(eager, sparse, ops, n + 1) <==> e.1 == s.1 && AgreeAfter(e.0, s.0, rest, n)
      {
        AgreeAfterStep(eager, sparse, ops, n);
      }
      assert AgreeAfter(e.0, s.0, rest, 0) <==> e.0.pos == s.0.pos by {
        assert rest[..0] == [];
      }
      StepAgreesExactly(eager, sparse, h, ops[0]);
      if Harmless(sparse, h, ops[0]) {
        AgreeThroughoutExactlyIfHarmless(e.0, s.0, rest, Further(sparse, ops[0], h));
        assert forall n :: 0 < n <= |ops| ==> (AgreeAfter(eager, sparse, ops, n) <==> AgreeAfter(e.0, s.0, rest, n - 1));
        assert forall n :: 0 <= n <= |rest| ==> (AgreeAfter(e.0, s.0, rest, n) <==> AgreeAfter(eager, sparse, ops, n + 1));
      } else {
        assert !AgreeAfter(eager, sparse, ops, 0 + 1);
      }
    }
  }

  lemma RunOfOne(f: File, op: Op)
    ensures f.pos <= |f.content| ==> EagerRun(f, [op]) == (EagerStep(f, op).0, [EagerStep(f, op).1])
    ensures SparseRun(f, [op]) == (SparseStep(f, op).0, [SparseStep(f, op).1])
  {
    var ops, none: seq<Answer> := [op], [];
    assert ops[1..] == [] && forall a: Answer :: [a] + none == [a];
  }

  lemma RunsOfTwo(f: File, a: Op, b: Op)
    requires f.pos <= |f.content|
    ensures var (one, two) := (EagerStep(f, a), EagerStep(EagerStep(f, a).0, b));
            EagerRun(f, [a, b]) == (two.0, [one.1, two.1])
    ensures var (one, two) := (SparseStep(f, a), SparseStep(SparseStep(f, a).0, b));
            SparseRun(f, [a, b]) == (two.0, [one.1, two.1])
  {
    var ops := [a, b];
    assert ops[1..] == [b];
    var e, s := EagerStep(f, a), SparseStep(f, a);
    RunOfOne(e.0, b);
    RunOfOne(s.0, b);
    var ends, holes := EagerRun(e.0, ops[1..]), SparseRun(s.0, ops[1..]);
    assert EagerRun(f, ops) == (ends.0, [e.1] + ends.1);
    assert SparseRun(f, ops) == (holes.0, [s.1] + holes.1);
    assert forall x: Answer, y: Answer :: [x] + [y] == [x, y];
  }

  /** What a seek relative to the end finds after a seek to `n` in an empty stream:
      the adapter's end is at `n`, the sparse file's still at 0. With `n` 5, a
      distance of 0 leads elsewhere, and -3 is granted instead of refused. */
  lemma EndSeekSeesTheGap(n: uint64, d: int64)
    requires 0 < n as int <= MAX_OFFSET
    ensures EagerRun(File([], 0), [SeekOp(Start(n)), SeekOp(End(d))]).1 ==
            [Reached(n as nat), if Representable(n as int + d as int) then Reached(n as int + d as int) else Refused]
    ensures SparseRun(File([], 0), [SeekOp(Start(n)), SeekOp(End(d))]).1 ==
            [Reached(n as nat), if Representable(d as int) then Reached(d as int) else Refused]
  {
    RunsOfTwo(File([], 0), SeekOp(Start(n)), SeekOp(End(d)));
  }

  lemma {:induction false} ContentOnlyGrows(f: File, ops: seq<Op>)
    requires f.pos <= |f.content|
    ensures |f.content| <= |EagerRun(f, ops).0.content|
    decreases |ops|
  {
    if ops == [] {
    } else {
      ContentOnlyGrows(EagerStep(f, ops[0]).0, ops[1..]);
    }
  }

  /** The bytes of a stream that holds a sparse file and trailing zeros from `at` on. */
  lemma BytesAfterRun(data: seq<byte>, at: nat, ops: seq<Op>, bytes: seq<byte>)
    requires at <= |data| && at <= |bytes|
    requires var r := SparseRun(File(data[at..], 0), ops).0.content;
             |r| <= |bytes| - at && bytes[at..] == r + Zeros(|bytes| - at - |r|)
    ensures forall i :: at <= i < |bytes| ==>
              bytes[i] == match LastWritten(File(data[at..], 0), ops, i - at)
                          case Some(b) => b
                          case None => if i < |data| then data[i] else 0
  {
    forall i | at <= i < |bytes|
      ensures bytes[i] == match LastWritten(File(data[at..], 0), ops, i - at)
                          case Some(b) => b
                          case None => if i < |data| then data[i] else 0
    {
      SparseRunBytes(File(data[at..], 0), ops, i - at);
      assert bytes[i] == bytes[at..][i - at];
    }
  }

  // ----- The adapter -----

  ghost predicate OnlyZerosAdded(before: seq<byte>, after: seq<byte>)
  {
    && |before| <= |after|
    && forall i :: 0 <= i < |after| ==> after[i] == if i < |before| then before[i] else 0
  }

  predicate OnlySeeks(ops: seq<Op>)
  {
    forall i :: 0 <= i < |ops| ==> ops[i].SeekOp?
  }

  /** One operation on the adapter: the step above if its result fits the
      stream; otherwise it fails, although on an endless stream it would not. */
  method Perform(output: OutputStream, op: Op) returns (answer: Answer)
    requires output.Valid()
    modifies output.buffer`data, output.buffer`cursor
    ensures output.Valid() && output.Before() == old(output.Before())
    ensures var (next, expected) := EagerStep(old(output.AsFile()), op);
            if |next.content| <= output.Room() then (output.AsFile(), answer) == (next, expected)
            else answer == Refused != expected
    ensures op.SeekOp? ==> OnlyZerosAdded(old(output.AsFile()).content, output.AsFile().content)
  {
    match op {
      case WriteOp(s) =>
        var ok := output.Write(s);
        answer := if ok then Written else Refused;
      case SeekOp(to) =>
        var position := output.Seek(to);
        answer := if position.Some? then Reached(position.value as nat) else Refused;
    }
  }

  /** A run of operations on the adapter: the run above if all of its results fit
      the stream; otherwise some operation fails that on an endless stream would not. */
  method PerformAll(output: OutputStream, ops: seq<Op>) returns (answers: seq<Answer>)
    requires output.Valid()
    modifies output.buffer`data, output.buffer`cursor
    ensures output.Valid() && output.Before() == old(output.Before()) && |answers| == |ops|
    ensures var (last, expected) := EagerRun(old(output.AsFile()), ops);
            if |last.content| <= output.Room() then (output.AsFile(), answers) == (last, expected)
            else answers != expected
    ensures OnlySeeks(ops) ==> OnlyZerosAdded(old(output.AsFile()).content, output.AsFile().content)
    decreases |ops|
  {
    if ops == [] {
      return [];
    }
    ghost var (next, would) := EagerStep(output.AsFile(), ops[0]);
    ghost var expected := EagerRun(next, ops[1..]).1;
    ContentOnlyGrows(next, ops[1..]);
    var answer := Perform(output, ops[0]);
    var rest := PerformAll(output, ops[1..]);
    answers := [answer] + rest;
    assert ([would] + expected)[0] == would && ([would] + expected)[1..] == expected && answers[1..] == rest;
  }

  /** The adapter made on a stream that stands at `at`, put through `ops`. What
      stood before is kept. If everything fits the stream, answers and bytes are
      those of the adapter on an endless stream; else some answer is not. In
      harmless runs the same holds of the sparse file, whose content is followed
      by zeros up to the furthest position sought. */
  method Replay(data: seq<byte>, at: nat, limit: nat, ops: seq<Op>) returns (bytes: seq<byte>, answers: seq<Answer>)
    requires at <= |data| <= limit <= MAX_OFFSET
    ensures |answers| == |ops| && at <= |bytes| <= limit && bytes[..at] == data[..at]
    ensures answers == EagerRun(File(data[at..], 0), ops).1 <==>
            at + |EagerRun(File(data[at..], 0), ops).0.content| <= limit
    ensures answers == EagerRun(File(data[at..], 0), ops).1 ==>
              bytes[at..] == EagerRun(File(data[at..], 0), ops).0.content
    ensures AllHarmless(File(data[at..], 0), ops, 0) ==>
              var f := File(data[at..], 0);
              var sparse, furthest := SparseRun(f, ops).0, FurthestSeek(f, ops, 0);
              && (answers == SparseRun(f, ops).1 <==> at + Max(|sparse.content|, furthest) <= limit)
              && (answers == SparseRun(f, ops).1 ==>
                    && |bytes| - at == Max(|sparse.content|, furthest)
                    && bytes[at..] == sparse.content + Zeros(|bytes| - at - |sparse.content|)
                    && forall i :: at <= i < |bytes| ==>
                         bytes[i] == match LastWritten(f, ops, i - at)
                                     case Some(b) => b
                                     case None => if i < |data| then data[i] else 0)
    ensures OnlySeeks(ops) ==>
              |data| <= |bytes| && forall i :: 0 <= i < |bytes| ==> bytes[i] == if i < |data| then data[i] else 0
  {
    var buffer := new StreamBuffer(data, at, limit);
    var output := new OutputStream(buffer);
    ghost var f := File(data[at..], 0);
    answers := PerformAll(output, ops);
    bytes := buffer.data;
    if AllHarmless(f, ops, 0) {
      assert f.content == f.content + Zeros(0);
      AdapterSimulatesSparseFile(f, f, ops, 0);
      if answers == SparseRun(f, ops).1 {
        BytesAfterRun(data, at, ops, bytes);
      }
    }
    if OnlySeeks(ops) {
      assert bytes == data[..at] + bytes[at..] && data == data[..at] + data[at..];
    }
  }

  /** On a full stream a seek into a gap fails where a sparse file grants it: with
      room for 4 bytes, a seek to 5 and back. */
  method SeekPastFullStream() returns (answers: seq<Answer>)
    ensures SparseRun(File([], 0), [SeekOp(Start(5)), SeekOp(Start(0))]).1 == [Reached(5), Reached(0)]
    ensures answers != [Reached(5), Reached(0)]
  {
    var f, ops := File([], 0), [SeekOp(Start(5)), SeekOp(Start(0))];
    RunsOfTwo(f, ops[0], ops[1]);
    assert ops == [ops[0], ops[1]] && |EagerStep(f, ops[0]).0.content| == 5;
    var bytes;
    bytes, answers := Replay([], 0, 4, ops);
  }

  /** A refused seek moves the adapter to its end, and the next write goes there. */
  method RefusedSeekLosesPosition() returns (bytes: seq<byte>)
    ensures bytes == [7, 8, 9, 1]
    ensures SparseRun(File([7, 8, 9], 0), [SeekOp(Current(-1)), WriteOp([1])]).0.content == [1, 8, 9]
  {
    var f, ops := File([7, 8, 9], 0), [SeekOp(Current(-1)), WriteOp([1])];
    RunsOfTwo(f, ops[0], ops[1]);
    assert ops == [ops[0], ops[1]];
    assert EagerStep(f, ops[0]).0 == f.(pos := 3) && SparseStep(f, ops[0]).0 == f;
    assert EagerStep(f.(pos := 3), ops[1]).0.content == [7, 8, 9, 1];
    assert f.content + Zeros(0) == f.content;
    var answers;
    bytes, answers := Replay([7, 8, 9], 0, 4, ops);
    assert [7, 8, 9][0..] == [7, 8, 9] && bytes[0..] == bytes;
  }
}
