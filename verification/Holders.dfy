/**
 What each operation does to the objects it names, member by member, and where
 a handle, an adapter or a header is after any number of operations: it goes
 with the object it is moved to, and is freed exactly when that object is
 destroyed or takes over something else.
 */
module Holders {
  import opened Basics
  import opened Ledgers
  import opened UniquePtrs
  import opened Ownership
  import opened Programs

  // ----- One operation -----

  ghost predicate SameAt<K, V>(before: map<K, V>, after: map<K, V>, k: K)
  {
    (k in before <==> k in after) && (k in before ==> before[k] == after[k])
  }

  /** No reader, writer or header is changed but those named. */
  ghost predicate Untouched(before: State, after: State, objects: set<Id>, slots: set<Slot>)
  {
    && (forall p :: p !in objects ==>
          SameAt(before.kinds, after.kinds, p) && SameAt(before.handles, after.handles, p) && SameAt(before.adapters, after.adapters, p))
    && (forall s :: s !in slots ==> SameAt(before.owned, after.owned, s) && SameAt(before.ptrs, after.ptrs, s))
  }

  /** A move assignment: the object assigned to has what the other one had, the
      other one nothing, and what was there before is freed, in that order. */
  lemma MoveAssignTakesOver(st: State, o: Id, from: Id)
    requires Whole(st) && Permitted(st, MoveAssignTo(o, from)) && o != from
    ensures var after, d, s := Step(st, MoveAssignTo(o, from)), MemberOf(o), MemberOf(from);
            && Whole(after) && Untouched(st, after, {o, from}, {d, s}) && after.kinds == st.kinds
            && after.handles[o] == st.handles[from] && after.handles[from] == None
            && after.adapters[o] == st.adapters[from] && after.adapters[from] == None
            && (d in after.owned <==> s in st.owned) && (s in after.owned <==> s in st.owned)
            && (s in st.owned ==> after.owned[d] == st.owned[s])
            && (s in st.owned ==> after.ptrs[d] == st.ptrs[s] && after.owned[s] == None && after.ptrs[s] == Null)
            && after.log == st.log
                 + (if st.handles[o].Some? then [HandleFreed(st.handles[o].value)] else [])
                 + (if st.adapters[o].Some? then [AdapterGone(st.adapters[o].value)] else [])
                 + (if d in st.owned && st.owned[d].Some? then [HeaderFreed(st.owned[d].value)] else [])
  {
  }

  /** A move construction: the new object has what the other one had, and nothing is freed. */
  lemma MoveConstructTakesOver(st: State, o: Id, from: Id)
    requires Valid(st) && Permitted(st, MoveConstruct(o, from))
    ensures var after, d, s := Step(st, MoveConstruct(o, from)), MemberOf(o), MemberOf(from);
            && Whole(after) && Untouched(st, after, {o, from}, {d, s}) && after.log == st.log
            && after.kinds == st.kinds[o := st.kinds[from]]
            && after.handles[o] == st.handles[from] && after.handles[from] == None
            && after.adapters[o] == st.adapters[from] && after.adapters[from] == None
            && (d in after.owned <==> s in st.owned) && (s in after.owned <==> s in st.owned)
            && (s in st.owned ==> after.owned[d] == st.owned[s])
            && (s in st.owned ==> after.ptrs[d] == st.ptrs[s] && after.owned[s] == None && after.ptrs[s] == Null)
  {
  }

  /** An opening: on a stream a new adapter, then a new handle that works through
      it, and in a reader a header inside that handle. */
  lemma OpenMakes(st: State, o: Id, kind: Kind, onStream: bool)
    requires Whole(st) && Permitted(st, Open(o, kind, onStream, true))
    ensures var after, s := Step(st, Open(o, kind, onStream, true)), MemberOf(o);
            var h := if onStream then st.next + 1 else st.next;
            var a := if onStream then Some(st.next) else None;
            && after.kinds == st.kinds[o := kind]
            && after.handles == st.handles[o := Some(h)]
            && after.adapters == st.adapters[o := a]
            && after.owned == (if kind.Writer? then st.owned else st.owned[s := None])
            && after.ptrs == (if kind.Writer? then st.ptrs else st.ptrs[s := Inside(h)])
            && after.log == st.log + (if onStream then [AdapterMade(st.next)] else []) + [HandleMade(h, a)]
                                   + (if kind.Writer? then [] else [HandleUsed(h)])
  {
  }

  /** An opening that fails gives up the adapter it has made, and nothing else happens. */
  lemma FailedOpenMakesNothing(st: State, o: Id, kind: Kind, onStream: bool)
    requires Whole(st) && Permitted(st, Open(o, kind, onStream, false))
    ensures var after := Step(st, Open(o, kind, onStream, false));
            && Untouched(st, after, {}, {})
            && after.log == st.log + if onStream then [AdapterMade(st.next), AdapterGone(st.next)] else []
  {
    assert [AdapterMade(st.next)] + [AdapterGone(st.next)] == [AdapterMade(st.next), AdapterGone(st.next)];
  }

  /** A destruction: everything the object has is freed, its header first and its adapter last. */
  lemma DestroyGivesUp(st: State, o: Id)
    requires Whole(st) && Permitted(st, Destroy(o))
    ensures var after, s := Step(st, Destroy(o)), MemberOf(o);
            && Whole(after) && Untouched(st, after, {o}, {s}) && o !in after.kinds && s !in after.owned
            && after.log == st.log
                 + (if s in st.owned && st.owned[s].Some? then [HeaderFreed(st.owned[s].value)] else [])
                 + (if st.handles[o].Some? then [HandleFreed(st.handles[o].value)] else [])
                 + (if st.adapters[o].Some? then [AdapterGone(st.adapters[o].value)] else [])
  {
  }

  /** A use of an object is a use of its handle. */
  lemma UseIsOfHandle(st: State, o: Id)
    requires Whole(st) && Permitted(st, Use(o))
    ensures Step(st, Use(o)) == st.(log := st.log + [HandleUsed(st.handles[o].value)])
  {
  }

  /** A new Rust header for a slot, after the event `first` that it is made from:
      it is made before the one there was is freed. */
  ghost predicate HeaderRenewed(st: State, after: State, s: Slot, first: seq<Event>)
  {
    && Untouched(st, after, {}, {s})
    && s in after.owned && after.owned[s] == Some(st.next) && s in after.ptrs && after.ptrs[s] == OwnedAt(st.next)
    && after.log == st.log + first + [HeaderMade(st.next)]
                    + if s in st.owned && st.owned[s].Some? then [HeaderFreed(st.owned[s].value)] else []
  }

  /** The operations that make a header: from the writer's handle, from nothing, or from another header. */
  lemma HeadersMade(st: State, op: Op)
    requires Whole(st) && Permitted(st, op)
    ensures op.WriterHeader? ==>
              HeaderRenewed(st, Step(st, op), MemberOf(op.o), [HandleUsed(st.handles[op.o].value)])
    ensures op.NewHeader? ==> HeaderRenewed(st, Step(st, op), Standalone(op.i), [])
    ensures op.CopyHeader? ==> HeaderRenewed(st, Step(st, op), Standalone(op.i), [HeaderRead(st.ptrs[op.source])])
    ensures op.CopyAssignHeader? ==>
              if op.source == Standalone(op.i) then Step(st, op) == st
              else HeaderRenewed(st, Step(st, op), Standalone(op.i), [HeaderRead(st.ptrs[op.source])])
  {
    assert st.log + [] == st.log;
  }

  /** The operations on stand-alone headers that make none. */
  lemma HeadersMoved(st: State, op: Op)
    requires Whole(st) && Permitted(st, op) && (op.MoveHeader? || (op.MoveAssignHeader? && op.i != op.j))
    ensures var after, d, s := Step(st, op), Standalone(op.i), Standalone(op.j);
            && Untouched(st, after, {}, {d, s})
            && d in after.owned && s in after.owned && d in after.ptrs && s in after.ptrs
            && after.owned[d] == st.owned[s] && after.ptrs[d] == st.ptrs[s]
            && after.owned[s] == None && after.ptrs[s] == Null
            && after.log == st.log
                 + if d in st.owned && st.owned[d].Some? then [HeaderFreed(st.owned[d].value)] else []
  {
    assert st.log + [] == st.log;
  }

  lemma HeaderDestroyedGivesUp(st: State, i: Id)
    requires Whole(st) && Permitted(st, DestroyHeader(i))
    ensures var after, s := Step(st, DestroyHeader(i)), Standalone(i);
            && Untouched(st, after, {}, {s}) && s !in after.owned
            && after.log == st.log + if st.owned[s].Some? then [HeaderFreed(st.owned[s].value)] else []
  {
  }

  // ----- Runs -----

  /** Where everything that `o` has is after one more operation; nowhere if it is given up. */
  function MovedBy(o: Id, op: Op): (holder: Option<Id>)
  {
    match op
    case MoveConstruct(p, from) => if from == o then Some(p) else Some(o)
    case MoveAssignTo(p, from) =>
      if p == from then Some(o) else if from == o then Some(p) else if p == o then None else Some(o)
    case Destroy(p) => if p == o then None else Some(o)
    case _ => Some(o)
  }

  /** Which object holds after `ops` what `o` holds before. */
  function Holder(o: Id, ops: seq<Op>): (holder: Option<Id>)
    decreases |ops|
  {
    if ops == [] then Some(o) else
      match MovedBy(o, ops[0])
      case None => None
      case Some(p) => Holder(p, ops[1..])
  }

  /** Where the Rust header of a slot is after one more operation. */
  function HeaderMovedBy(s: Slot, op: Op): (holder: Option<Slot>)
  {
    match op
    case MoveConstruct(o, from) => if s == MemberOf(from) then Some(MemberOf(o)) else Some(s)
    case MoveAssignTo(o, from) =>
      if o == from then Some(s) else if s == MemberOf(from) then Some(MemberOf(o)) else if s == MemberOf(o) then None else Some(s)
    case Destroy(o) => if s == MemberOf(o) then None else Some(s)
    case WriterHeader(o) => if s == MemberOf(o) then None else Some(s)
    case CopyAssignHeader(i, source) => if s == Standalone(i) != source then None else Some(s)
    case MoveHeader(i, j) => if s == Standalone(j) then Some(Standalone(i)) else Some(s)
    case MoveAssignHeader(i, j) =>
      if i == j then Some(s) else if s == Standalone(j) then Some(Standalone(i)) else if s == Standalone(i) then None else Some(s)
    case DestroyHeader(i) => if s == Standalone(i) then None else Some(s)
    case _ => Some(s)
  }

  function HeaderHolder(s: Slot, ops: seq<Op>): (holder: Option<Slot>)
    decreases |ops|
  {
    if ops == [] then Some(s) else
      match HeaderMovedBy(s, ops[0])
      case None => None
      case Some(t) => HeaderHolder(t, ops[1..])
  }

  /** Moves of readers and writers, and their beginning and end; the other operations concern headers only. */
  predicate IsMove(op: Op)
  {
    op.MoveConstruct? || op.MoveAssignTo?
  }

  predicate IsOpenOrDestroy(op: Op)
  {
    op.Open? || op.Destroy?
  }

  lemma MoveKeepsEvent(st: State, op: Op, e: Event)
    requires Whole(st) && Permitted(st, op) && IsMove(op) && e in st.log
    ensures e in Step(st, op).log
  {
  }

  lemma OpenOrDestroyKeepsEvent(st: State, op: Op, e: Event)
    requires Whole(st) && Permitted(st, op) && IsOpenOrDestroy(op) && e in st.log
    ensures e in Step(st, op).log
  {
  }

  lemma OtherKeepsEvent(st: State, op: Op, e: Event)
    requires Whole(st) && Permitted(st, op) && !IsMove(op) && !IsOpenOrDestroy(op) && e in st.log
    ensures e in Step(st, op).log
  {
  }

  lemma StepKeepsEvent(st: State, op: Op, e: Event)
    requires Whole(st) && Permitted(st, op) && e in st.log
    ensures e in Step(st, op).log
  {
    if IsMove(op) {
      MoveKeepsEvent(st, op, e);
    } else if IsOpenOrDestroy(op) {
      OpenOrDestroyKeepsEvent(st, op, e);
    } else {
      OtherKeepsEvent(st, op, e);
    }
  }

  lemma {:induction false} RunKeepsEvent(st: State, ops: seq<Op>, e: Event)
    requires Lawful(st, ops) && e in st.log
    ensures e in Run(st, ops).log
    decreases |ops|
  {
    if ops == [] {
    } else {
      StepKeepsEvent(st, ops[0], e);
      RunKeepsEvent(Step(st, ops[0]), ops[1..], e);
    }
  }

  lemma MoveMoves(st: State, op: Op, o: Id)
    requires Whole(st) && Permitted(st, op) && IsMove(op) && o in st.kinds
    ensures var after := Step(st, op);
            match MovedBy(o, op)
            case Some(p) => p in after.kinds && p in after.handles && p in after.adapters
                            && after.handles[p] == st.handles[o] && after.adapters[p] == st.adapters[o]
            case None => (st.handles[o].Some? ==> HandleFreed(st.handles[o].value) in after.log)
                         && (st.adapters[o].Some? ==> AdapterGone(st.adapters[o].value) in after.log)
  {
  }

  lemma OpenOrDestroyMoves(st: State, op: Op, o: Id)
    requires Whole(st) && Permitted(st, op) && IsOpenOrDestroy(op) && o in st.kinds
    ensures var after := Step(st, op);
            match MovedBy(o, op)
            case Some(p) => p in after.kinds && p in after.handles && p in after.adapters
                            && after.handles[p] == st.handles[o] && after.adapters[p] == st.adapters[o]
            case None => (st.handles[o].Some? ==> HandleFreed(st.handles[o].value) in after.log)
                         && (st.adapters[o].Some? ==> AdapterGone(st.adapters[o].value) in after.log)
  {
  }

  lemma OtherKeepsObjects(st: State, op: Op)
    requires Whole(st) && Permitted(st, op) && !IsMove(op) && !IsOpenOrDestroy(op)
    ensures var after := Step(st, op);
            after.kinds == st.kinds && after.handles == st.handles && after.adapters == st.adapters
  {
  }

  lemma StepMoves(st: State, op: Op, o: Id)
    requires Whole(st) && Permitted(st, op) && o in st.kinds
    ensures var after := Step(st, op);
            match MovedBy(o, op)
            case Some(p) => p in after.kinds && p in after.handles && p in after.adapters
                            && after.handles[p] == st.handles[o] && after.adapters[p] == st.adapters[o]
            case None => (st.handles[o].Some? ==> HandleFreed(st.handles[o].value) in after.log)
                         && (st.adapters[o].Some? ==> AdapterGone(st.adapters[o].value) in after.log)
  {
    if IsMove(op) {
      MoveMoves(st, op, o);
    } else if IsOpenOrDestroy(op) {
      OpenOrDestroyMoves(st, op, o);
    } else {
      OtherKeepsObjects(st, op);
    }
  }

  lemma MoveMovesHeader(st: State, op: Op, s: Slot)
    requires Whole(st) && Permitted(st, op) && IsMove(op) && s in st.owned && st.owned[s].Some?
    requires s.MemberOf? ==> s.o in st.kinds
    ensures var after := Step(st, op);
            match HeaderMovedBy(s, op)
            case Some(t) => t in after.owned && after.owned[t] == st.owned[s]
            case None => HeaderFreed(st.owned[s].value) in after.log
  {
  }

  lemma OpenOrDestroyMovesHeader(st: State, op: Op, s: Slot)
    requires Whole(st) && Permitted(st, op) && IsOpenOrDestroy(op) && s in st.owned && st.owned[s].Some?
    requires s.MemberOf? ==> s.o in st.kinds
    ensures var after := Step(st, op);
            match HeaderMovedBy(s, op)
            case Some(t) => t in after.owned && after.owned[t] == st.owned[s]
            case None => HeaderFreed(st.owned[s].value) in after.log
  {
  }

  lemma OtherMovesHeader(st: State, op: Op, s: Slot)
    requires Whole(st) && Permitted(st, op) && !IsMove(op) && !IsOpenOrDestroy(op) && s in st.owned && st.owned[s].Some?
    requires s.MemberOf? ==> s.o in st.kinds
    ensures var after := Step(st, op);
            match HeaderMovedBy(s, op)
            case Some(t) => t in after.owned && after.owned[t] == st.owned[s]
            case None => HeaderFreed(st.owned[s].value) in after.log
  {
  }

  lemma StepMovesHeader(st: State, op: Op, s: Slot)
    requires Whole(st) && Permitted(st, op) && s in st.owned && st.owned[s].Some?
    requires s.MemberOf? ==> s.o in st.kinds
    ensures var after := Step(st, op);
            match HeaderMovedBy(s, op)
            case Some(t) => t in after.owned && after.owned[t] == st.owned[s]
            case None => HeaderFreed(st.owned[s].value) in after.log
  {
    if IsMove(op) {
      MoveMovesHeader(st, op, s);
    } else if IsOpenOrDestroy(op) {
      OpenOrDestroyMovesHeader(st, op, s);
    } else {
      OtherMovesHeader(st, op, s);
    }
  }

  lemma NotFreedWhileHeld(st: State, o: Id)
    requires Valid(st) && o in st.handles && o in st.adapters
    ensures st.handles[o].Some? ==> HandleFreed(st.handles[o].value) !in st.log
    ensures st.adapters[o].Some? ==> AdapterGone(st.adapters[o].value) !in st.log
  {
    var l := Book(st.log).value;
    HeldIsAlive(st.handles, l.handles.Keys, o);
    HeldIsAlive(st.adapters, l.adapters, o);
    if st.handles[o].Some? {
      FreedOnce(st.log, st.handles[o].value);
      NotCounted(st.log, HandleFreed(st.handles[o].value));
    }
    if st.adapters[o].Some? {
      FreedOnce(st.log, st.adapters[o].value);
      NotCounted(st.log, AdapterGone(st.adapters[o].value));
    }
  }

  /** Over every program: what an object holds goes with every move of its
      holder, and its handle and its adapter are freed exactly when the holder is
      destroyed or takes over another object. */
  lemma {:induction false} FreedExactlyWithHolder(st: State, ops: seq<Op>, o: Id)
    requires Valid(st) && Lawful(st, ops) && o in st.kinds
    ensures var after := Run(st, ops);
            && (Holder(o, ops).Some? ==>
                  var p := Holder(o, ops).value;
                  p in after.handles && p in after.adapters
                  && after.handles[p] == st.handles[o] && after.adapters[p] == st.adapters[o])
            && (st.handles[o].Some? ==> (HandleFreed(st.handles[o].value) in after.log <==> Holder(o, ops).None?))
            && (st.adapters[o].Some? ==> (AdapterGone(st.adapters[o].value) in after.log <==> Holder(o, ops).None?))
    decreases |ops|
  {
    if ops == [] {
      NotFreedWhileHeld(st, o);
    } else {
      var next := Step(st, ops[0]);
      StepKeepsValid(st, ops[0]);
      StepMoves(st, ops[0], o);
      match MovedBy(o, ops[0])
      case Some(p) => FreedExactlyWithHolder(next, ops[1..], p);
      case None =>
        if st.handles[o].Some? {
          RunKeepsEvent(next, ops[1..], HandleFreed(st.handles[o].value));
        }
        if st.adapters[o].Some? {
          RunKeepsEvent(next, ops[1..], AdapterGone(st.adapters[o].value));
        }
    }
  }

  /** The same of the Rust headers that C++ headers own. */
  lemma {:induction false} HeaderFreedExactlyWithHolder(st: State, ops: seq<Op>, s: Slot)
    requires Valid(st) && Lawful(st, ops) && s in st.owned && st.owned[s].Some?
    ensures var after := Run(st, ops);
            && (HeaderHolder(s, ops).Some? ==>
                  var t := HeaderHolder(s, ops).value;
                  t in after.owned && after.owned[t] == st.owned[s])
            && (HeaderFreed(st.owned[s].value) in after.log <==> HeaderHolder(s, ops).None?)
    decreases |ops|
  {
    if ops == [] {
      HeldIsAlive(st.owned, Book(st.log).value.headers, s);
      FreedOnce(st.log, st.owned[s].value);
      NotCounted(st.log, HeaderFreed(st.owned[s].value));
    } else {
      var next := Step(st, ops[0]);
      StepKeepsValid(st, ops[0]);
      StepMovesHeader(st, ops[0], s);
      match HeaderMovedBy(s, ops[0])
      case Some(t) => HeaderFreedExactlyWithHolder(next, ops[1..], t);
      case None => RunKeepsEvent(next, ops[1..], HeaderFreed(st.owned[s].value));
    }
  }
}
