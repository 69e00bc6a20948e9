/** Whole runs of the input adapter: any sequence of reads and seeks, fixed in
    advance or chosen step by step by a consumer of the stream. */
module InputRuns {
  import opened Basics
  import opened Seeking
  import opened StreamBuffers
  import opened InputStreams

  datatype Op = ReadOp(len: nat) | SeekOp(to: SeekFrom)

  datatype Outcome = Delivered(bytes: seq<byte>) | Reached(position: nat) | Refused

  /** One step of a file opened for reading: positions past the end are allowed,
      and a seek that is refused changes nothing. */
  function FileStep(f: File, op: Op): (r: (File, Outcome))
  {
    match op
    case ReadOp(len) => (AfterRead(f, len), Delivered(BytesAt(f, len)))
    case SeekOp(to) =>
      var target := ExactTarget(to, f.pos, |f.content|);
      if Representable(target) then (f.(pos := target), Reached(target)) else (f, Refused)
  }

  /** One step of the adapter: a file, but for the effect of a refused seek. */
  function AdapterStep(f: File, op: Op): (r: (File, Outcome))
  {
    var (after, outcome) := FileStep(f, op);
    if outcome.Refused? then (AfterRefusedSeek(f, op.to), Refused) else (after, outcome)
  }

  function FileRun(f: File, ops: seq<Op>): (r: (File, seq<Outcome>))
    ensures |r.1| == |ops|
    decreases |ops|
  {
    if ops == [] then (f, []) else
      var (next, outcome) := FileStep(f, ops[0]);
      var (last, outcomes) := FileRun(next, ops[1..]);
      (last, [outcome] + outcomes)
  }

  function AdapterRun(f: File, ops: seq<Op>): (r: (File, seq<Outcome>))
    ensures |r.1| == |ops|
    decreases |ops|
  {
    if ops == [] then (f, []) else
      var (next, outcome) := AdapterStep(f, ops[0]);
      var (last, outcomes) := AdapterRun(next, ops[1..]);
      (last, [outcome] + outcomes)
  }

  /** A refused seek leaves the adapter where a file would be exactly when it is
      already at or past the end, or the refusal came before the adapter was asked. */
  lemma RefusedSeekKeepsPosition(f: File, to: SeekFrom)
    requires !SeekSucceeds(f, to)
    ensures AdapterStep(f, SeekOp(to)) == FileStep(f, SeekOp(to)) <==> to.Start? || f.pos >= |f.content|
  {
    assert FileStep(f, SeekOp(to)) == (f, Refused);
    assert AfterRefusedSeek(f, to).pos == f.pos <==> to.Start? || f.pos >= |f.content|;
  }

  /** Every seek that a file refuses in this run is a `Start` or made at or past the end. */
  predicate RefusalsHarmless(f: File, ops: seq<Op>)
    decreases |ops|
  {
    ops == [] ||
    (var (next, outcome) := FileStep(f, ops[0]);
     (outcome.Refused? ==> ops[0].to.Start? || f.pos >= |f.content|) && RefusalsHarmless(next, ops[1..]))
  }

  /** After `n` operations the adapter has given the outcomes of a file and is where the file is. */
  ghost predicate AgreeAfter(f: File, ops: seq<Op>, n: nat)
    requires n <= |ops|
  {
    AdapterRun(f, ops[..n]) == FileRun(f, ops[..n])
  }

  lemma AgreeAfterStep(f: File, ops: seq<Op>, n: nat)
    requires n < |ops| && AdapterStep(f, ops[0]) == FileStep(f, ops[0])
    ensures AgreeAfter(f, ops, n + 1) <==> AgreeAfter(FileStep(f, ops[0]).0, ops[1..], n)
  {
    var (next, outcome) := FileStep(f, ops[0]);
    assert ops[..n + 1][1..] == ops[1..][..n];
    var mine, theirs := AdapterRun(next, ops[1..][..n]).1, FileRun(next, ops[1..][..n]).1;
    assert AdapterRun(f, ops[..n + 1]).1 == [outcome] + mine && FileRun(f, ops[..n + 1]).1 == [outcome] + theirs;
    assert ([outcome] + mine)[1..] == mine && ([outcome] + theirs)[1..] == theirs;
  }

  lemma DisagreeAfterStep(f: File, ops: seq<Op>)
    requires ops != [] && AdapterStep(f, ops[0]) != FileStep(f, ops[0])
    ensures !AgreeAfter(f, ops, 1)
  {
    var one := ops[..1];
    assert one[1..] == [];
    assert AdapterRun(f, one).0 == AdapterStep(f, ops[0]).0 && FileRun(f, one).0 == FileStep(f, ops[0]).0;
  }

  /** The adapter agrees with a file throughout a run exactly if the refusals in
      it are harmless, however often it goes past the end and back. */
  lemma {:induction false} AdapterIsAFile(f: File, ops: seq<Op>)
    ensures RefusalsHarmless(f, ops) <==> forall n :: 0 <= n <= |ops| ==> AgreeAfter(f, ops, n)
    decreases |ops|
  {
    if ops == [] {
      assert ops[..0] == [];
    } else {
      var (next, outcome) := FileStep(f, ops[0]);
      var rest := ops[1..];
      if outcome.Refused? {
        RefusedSeekKeepsPosition(f, ops[0].to);
      }
      if AdapterStep(f, ops[0]) != FileStep(f, ops[0]) {
        DisagreeAfterStep(f, ops);
      } else {
        forall n | 0 <= n <= |rest|
          ensures AgreeAfter(f, ops, n + 1) <==> AgreeAfter(next, rest, n)
        {
          AgreeAfterStep(f, ops, n);
        }
        AdapterIsAFile(next, rest);
        assert AgreeAfter(f, ops, 0);
        assert forall n :: 0 < n <= |ops| ==> (AgreeAfter(f, ops, n) <==> AgreeAfter(next, rest, n - 1));
      }
    }
  }

  /** In particular in those without any refusal. */
  lemma {:induction false} NoRefusalIsHarmless(f: File, ops: seq<Op>)
    requires Refused !in FileRun(f, ops).1
    ensures RefusalsHarmless(f, ops)
    decreases |ops|
  {
    if ops == [] {
    } else {
      var (next, outcome) := FileStep(f, ops[0]);
      assert FileRun(f, ops).1 == [outcome] + FileRun(next, ops[1..]).1;
      assert outcome in FileRun(f, ops).1;
      assert Refused !in FileRun(next, ops[1..]).1;
      NoRefusalIsHarmless(next, ops[1..]);
    }
  }

  /** Not every refused seek does: here a backward seek from position 1 loses that position. */
  lemma RefusedSeekLosesPosition()
    ensures AdapterRun(File([7, 8, 9], 1), [SeekOp(Current(-2)), ReadOp(1)]).1 == [Refused, Delivered([])]
    ensures FileRun(File([7, 8, 9], 1), [SeekOp(Current(-2)), ReadOp(1)]).1 == [Refused, Delivered([8])]
  {
    var f, ops := File([7, 8, 9], 1), [SeekOp(Current(-2)), ReadOp(1)];
    assert ops[1..] == [ReadOp(1)];
    assert AdapterStep(f, ops[0]) == (f.(pos := 3), Refused);
    assert FileStep(f, ops[0]) == (f, Refused);
    assert AdapterRun(f.(pos := 3), ops[1..]).1 == [Delivered([])];
    assert BytesAt(f, 1) == [8];
    assert FileRun(f, ops[1..]).1 == [Delivered([8])];
  }

  function Reads(lens: seq<nat>): (ops: seq<Op>)
    ensures |ops| == |lens|
    ensures forall i :: 0 <= i < |lens| ==> ops[i] == ReadOp(lens[i])
  {
    seq(|lens|, i requires 0 <= i < |lens| => ReadOp(lens[i]))
  }

  function AllBytes(outcomes: seq<Outcome>): seq<byte>
  {
    if outcomes == [] then [] else
      (if outcomes[0].Delivered? then outcomes[0].bytes else []) + AllBytes(outcomes[1..])
  }

  lemma SplitRead(f: File, a: nat, b: nat)
    ensures BytesAt(f, a + b) == BytesAt(f, a) + BytesAt(AfterRead(f, a), b)
  {
  }

  /** Cutting a read into pieces loses nothing: consecutive reads deliver, in
      order, the bytes one read of their total length would. */
  lemma {:induction false} ConsecutiveReads(f: File, lens: seq<nat>)
    ensures AllBytes(AdapterRun(f, Reads(lens)).1) == BytesAt(f, SumOf(lens))
    decreases |lens|
  {
    if lens == [] {
    } else {
      var next, rest := AfterRead(f, lens[0]), Reads(lens[1..]);
      assert Reads(lens)[1..] == rest;
      ConsecutiveReads(next, lens[1..]);
      SplitRead(f, lens[0], SumOf(lens[1..]));
      var outcomes := AdapterRun(next, rest).1;
      assert AdapterRun(f, Reads(lens)).1 == [Delivered(BytesAt(f, lens[0]))] + outcomes;
      assert ([Delivered(BytesAt(f, lens[0]))] + outcomes)[1..] == outcomes;
    }
  }

  /** One operation on the adapter. */
  method Perform(input: InputStream, op: Op) returns (outcome: Outcome)
    requires input.Valid()
    modifies input`pastEnd, input.buffer`cursor
    ensures input.Valid()
    ensures (input.AsFile(), outcome) == AdapterStep(old(input.AsFile()), op)
  {
    match op {
      case ReadOp(len) =>
        var bytes := input.Read(len);
        outcome := Delivered(bytes);
      case SeekOp(to) =>
        var position := input.Seek(to);
        outcome := if position.Some? then Reached(position.value as nat) else Refused;
    }
  }

  /** The adapter made on a stream that stands after `prefix`, put through `ops`:
      it behaves as on `body` alone. */
  method Replay(prefix: seq<byte>, body: seq<byte>, ops: seq<Op>) returns (outcomes: seq<Outcome>)
    requires |prefix + body| <= MAX_OFFSET
    ensures outcomes == AdapterRun(File(body, 0), ops).1
    ensures RefusalsHarmless(File(body, 0), ops) ==> outcomes == FileRun(File(body, 0), ops).1
    ensures Refused !in FileRun(File(body, 0), ops).1 ==> outcomes == FileRun(File(body, 0), ops).1
  {
    var buffer := new StreamBuffer(prefix + body, |prefix|, |prefix + body|);
    var input := new InputStream(buffer);
    assert (prefix + body)[|prefix|..] == body;
    outcomes := [];
    var i := 0;
    assert ops[0..] == ops;
    while i < |ops|
      invariant 0 <= i <= |ops| && input.Valid()
      invariant AdapterRun(File(body, 0), ops).1 == outcomes + AdapterRun(input.AsFile(), ops[i..]).1
    {
      var outcome := Perform(input, ops[i]);
      assert ops[i..][1..] == ops[i + 1..];
      outcomes := outcomes + [outcome];
      i := i + 1;
    }
    if Refused !in FileRun(File(body, 0), ops).1 {
      NoRefusalIsHarmless(File(body, 0), ops);
    }
    if RefusalsHarmless(File(body, 0), ops) {
      AdapterIsAFile(File(body, 0), ops);
      assert AgreeAfter(File(body, 0), ops, |ops|) && ops[..|ops|] == ops;
    }
  }

  /** What a consumer does next, given all it has seen so far. */
  datatype Action<+R> = Ask(op: Op) | Finish(result: R)

  /** A consumer asking for at most `steps` operations; `None` if it has not finished by then. */
  function Consume<R>(f: File, consumer: seq<Outcome> -> Action<R>, seen: seq<Outcome>, steps: nat)
    : (r: (File, Option<R>))
    decreases steps
  {
    match consumer(seen)
    case Finish(result) => (f, Some(result))
    case Ask(op) =>
      if steps == 0 then (f, None) else
        var (next, outcome) := AdapterStep(f, op);
        Consume(next, consumer, seen + [outcome], steps - 1)
  }

  lemma {:induction false} ConsumeKeepsContent<R>(f: File, consumer: seq<Outcome> -> Action<R>, seen: seq<Outcome>, steps: nat)
    ensures Consume(f, consumer, seen, steps).0.content == f.content
    decreases steps
  {
    match consumer(seen)
    case Finish(_) =>
    case Ask(op) =>
      if steps > 0 {
        var (next, outcome) := AdapterStep(f, op);
        ConsumeKeepsContent(next, consumer, seen + [outcome], steps - 1);
      }
  }

  /** Has a consumer that had seen `seen` asked for each of `ops`, knowing what the ones before gave? */
  ghost predicate Asked<R>(consumer: seq<Outcome> -> Action<R>, seen: seq<Outcome>, ops: seq<Op>, outcomes: seq<Outcome>)
    requires |outcomes| == |ops|
  {
    forall i :: 0 <= i < |ops| ==> consumer(seen + outcomes[..i]) == Ask(ops[i])
  }

  lemma AskedOneMore<R>(consumer: seq<Outcome> -> Action<R>, seen: seq<Outcome>, op: Op, outcome: Outcome,
                        ops: seq<Op>, outcomes: seq<Outcome>)
    requires |outcomes| == |ops| && consumer(seen) == Ask(op) && Asked(consumer, seen + [outcome], ops, outcomes)
    ensures Asked(consumer, seen, [op] + ops, [outcome] + outcomes)
  {
    var all := [outcome] + outcomes;
    assert seen + all[..0] == seen;
    forall i | 0 < i <= |ops|
      ensures seen + all[..i] == seen + [outcome] + outcomes[..i - 1]
    {
    }
  }

  /** What a consumer does is a run of the adapter, each operation of which it
      chooses from the outcomes of those before, and its result is what it makes of all of them. */
  lemma {:induction false} ConsumeIsARun<R>(f: File, consumer: seq<Outcome> -> Action<R>, seen: seq<Outcome>, steps: nat)
    returns (ops: seq<Op>)
    ensures var (last, outcomes) := AdapterRun(f, ops);
            && Asked(consumer, seen, ops, outcomes) && |ops| <= steps
            && Consume(f, consumer, seen, steps).0 == last
            && match consumer(seen + outcomes)
               case Finish(result) => Consume(f, consumer, seen, steps).1 == Some(result)
               case Ask(_) => Consume(f, consumer, seen, steps).1 == None && |ops| == steps
    decreases steps
  {
    ops := [];
    assert seen + [] == seen;
    match consumer(seen)
    case Finish(_) =>
    case Ask(op) =>
      if steps > 0 {
        var (next, outcome) := AdapterStep(f, op);
        var rest := ConsumeIsARun(next, consumer, seen + [outcome], steps - 1);
        var outcomes := AdapterRun(next, rest).1;
        ops := [op] + rest;
        assert ops[1..] == rest;
        AskedOneMore(consumer, seen, op, outcome, rest, outcomes);
        assert seen + [outcome] + outcomes == seen + ([outcome] + outcomes);
      }
  }

  method RunConsumer<R>(input: InputStream, consumer: seq<Outcome> -> Action<R>, steps: nat) returns (result: Option<R>)
    requires input.Valid()
    modifies input`pastEnd, input.buffer`cursor
    ensures input.Valid()
    ensures (input.AsFile(), result) == Consume(old(input.AsFile()), consumer, [], steps)
  {
    var seen: seq<Outcome> := [];
    var left := steps;
    while true
      invariant input.Valid()
      invariant Consume(input.AsFile(), consumer, seen, left) == Consume(old(input.AsFile()), consumer, [], steps)
      decreases left
    {
      var action := consumer(seen);
      if action.Finish? {
        return Some(action.result);
      }
      if left == 0 {
        return None;
      }
      var outcome := Perform(input, action.op);
      seen, left := seen + [outcome], left - 1;
    }
  }
}
