/**
 Whole programs over readers, writers and headers: any sequence of operations on
 any number of objects, as the classes carry them out member by member.
 */
module Programs {
  import opened Basics
  import opened Ledgers
  import opened UniquePtrs
  import opened Ownership

  datatype Op =
    | Open(o: Id, kind: Kind, onStream: bool, succeeds: bool)
    | MoveConstruct(o: Id, from: Id)
    | MoveAssignTo(o: Id, from: Id)
    | Destroy(o: Id)
    | Use(o: Id)
    | WriterHeader(o: Id)
    | NewHeader(i: Id)
    | CopyHeader(i: Id, source: Slot)
    | CopyAssignHeader(i: Id, source: Slot)
    | MoveHeader(i: Id, j: Id)
    | MoveAssignHeader(i: Id, j: Id)
    | DestroyHeader(i: Id)

  /** What the language and the documented rules ask of a caller: objects are
      constructed once, and moved-from ones are only destroyed or assigned to. */
  predicate Permitted(st: State, op: Op)
  {
    match op
    case Open(o, _, _, _) => o !in st.kinds
    case MoveConstruct(o, from) => o !in st.kinds && from in st.kinds
    case MoveAssignTo(o, from) => o in st.kinds && from in st.kinds && st.kinds[o] == st.kinds[from]
    case Destroy(o) => o in st.kinds
    case Use(o) => o in st.kinds && o in st.handles && st.handles[o].Some?
    case WriterHeader(o) => o in st.kinds && st.kinds[o].Writer? && o in st.handles && st.handles[o].Some?
    case NewHeader(i) => Standalone(i) !in st.owned
    case CopyHeader(i, source) => Standalone(i) !in st.owned && source in st.ptrs && st.ptrs[source] != Null
    case CopyAssignHeader(i, source) =>
      Standalone(i) in st.owned && source in st.ptrs && (source == Standalone(i) || st.ptrs[source] != Null)
    case MoveHeader(i, j) => Standalone(i) !in st.owned && Standalone(j) in st.owned
    case MoveAssignHeader(i, j) => Standalone(i) in st.owned && Standalone(j) in st.owned
    case DestroyHeader(i) => Standalone(i) in st.owned
  }

  /** An object can be assigned to and destroyed as long as it is there, moved-from or
      not, and an object of its kind can be moved into it, itself included. */
  lemma AlwaysPermitted(st: State, o: Id, p: Id)
    ensures o in st.kinds ==> Permitted(st, Destroy(o))
    ensures o in st.kinds && p in st.kinds && st.kinds[o] == st.kinds[p] ==> Permitted(st, MoveAssignTo(o, p))
    ensures o !in st.kinds && p in st.kinds ==> Permitted(st, MoveConstruct(o, p))
    ensures o !in st.kinds ==> forall kind, onStream, succeeds :: Permitted(st, Open(o, kind, onStream, succeeds))
    ensures Standalone(o) in st.owned && Standalone(p) in st.owned ==>
              Permitted(st, MoveAssignHeader(o, p)) && Permitted(st, DestroyHeader(o))
  {
  }

  /** Members of one object exist together. */
  ghost predicate Whole(st: State)
  {
    st.kinds.Keys == st.adapters.Keys == st.handles.Keys && st.owned.Keys == st.ptrs.Keys
  }

  function HeaderWasRead(st: State, s: Slot): State
    requires s in st.ptrs
  {
    st.(log := st.log + [HeaderRead(st.ptrs[s])])
  }

  function Step(st: State, op: Op): (after: State)
    requires Whole(st) && Permitted(st, op)
  {
    match op
    case Open(o, kind, onStream, succeeds) => if succeeds then Opened(st, o, kind, onStream) else OpenFailed(st, onStream)
    case MoveConstruct(o, from) => MoveConstructed(st, o, from)
    case MoveAssignTo(o, from) => MoveAssigned(st, o, from)
    case Destroy(o) => Destroyed(st, o)
    case Use(o) => Used(st, o)
    case WriterHeader(o) => Renewed(Used(st, o), MemberOf(o))
    case NewHeader(i) => Renewed(st, Standalone(i))
    case CopyHeader(i, source) => Renewed(HeaderWasRead(st, source), Standalone(i))
    case CopyAssignHeader(i, source) =>
      if source == Standalone(i) then st else Renewed(HeaderWasRead(st, source), Standalone(i))
    case MoveHeader(i, j) => HeaderMoved(st, Standalone(i), Standalone(j))
    case MoveAssignHeader(i, j) => HeaderMoveAssigned(st, Standalone(i), Standalone(j))
    case DestroyHeader(i) => HeaderDestroyed(st, Standalone(i))
  }

  lemma UsedKeepsValid(st: State, o: Id)
    requires Valid(st) && o in st.kinds && o in st.handles && st.handles[o].Some?
    ensures Valid(Used(st, o))
  {
    HeldIsAlive(st.handles, Book(st.log).value.handles.Keys, o);
    UseKeepsValid(st, HandleUsed(st.handles[o].value));
  }

  lemma ReadKeepsValid(st: State, s: Slot)
    requires Valid(st) && s in st.ptrs && st.ptrs[s] != Null
    ensures Valid(HeaderWasRead(st, s))
  {
    UseKeepsValid(st, HeaderRead(st.ptrs[s]));
  }

  lemma HeaderStepKeepsValid(st: State, op: Op)
    requires Valid(st) && Permitted(st, op)
    requires op.NewHeader? || op.CopyHeader? || op.CopyAssignHeader? || op.MoveHeader? || op.MoveAssignHeader? || op.DestroyHeader?
    ensures Valid(Step(st, op))
  {
    match op
    case NewHeader(i) => RenewKeepsValid(st, Standalone(i));
    case CopyHeader(i, source) =>
      ReadKeepsValid(st, source);
      RenewKeepsValid(HeaderWasRead(st, source), Standalone(i));
    case CopyAssignHeader(i, source) =>
      if source != Standalone(i) {
        ReadKeepsValid(st, source);
        RenewKeepsValid(HeaderWasRead(st, source), Standalone(i));
      }
    case MoveHeader(i, j) => HeaderMoveKeepsValid(st, i, j);
    case MoveAssignHeader(i, j) => HeaderMoveAssignKeepsValid(st, i, j);
    case DestroyHeader(i) => HeaderDestroyKeepsValid(st, i);
  }

  /** Every permitted operation keeps everything right. */
  lemma StepKeepsValid(st: State, op: Op)
    requires Valid(st) && Permitted(st, op)
    ensures Valid(Step(st, op))
  {
    match op
    case Open(o, kind, onStream, succeeds) =>
      if succeeds {
        OpenKeepsValid(st, o, kind, onStream);
      } else {
        FailedOpenKeepsValid(st, onStream);
      }
    case MoveConstruct(o, from) => MoveConstructKeepsValid(st, o, from);
    case MoveAssignTo(o, from) => MoveAssignKeepsValid(st, o, from);
    case Destroy(o) => DestroyKeepsValid(st, o);
    case Use(o) => UsedKeepsValid(st, o);
    case WriterHeader(o) =>
      UsedKeepsValid(st, o);
      RenewKeepsValid(Used(st, o), MemberOf(o));
    case _ => HeaderStepKeepsValid(st, op);
  }

  // ----- Runs -----

  /** A program every operation of which is permitted where it stands. */
  ghost predicate Lawful(st: State, ops: seq<Op>)
    decreases |ops|
  {
    ops == [] || (Whole(st) && Permitted(st, ops[0]) && Lawful(Step(st, ops[0]), ops[1..]))
  }

  ghost function Run(st: State, ops: seq<Op>): (after: State)
    requires Lawful(st, ops)
    decreases |ops|
  {
    if ops == [] then st else Run(Step(st, ops[0]), ops[1..])
  }

  lemma StartIsValid()
    ensures Valid(START)
  {
    assert forall s, id :: !HeldAt<Id>(map[], s, id);
    assert forall s, id :: !HeldAt<Slot>(map[], s, id);
  }

  lemma {:induction false} RunKeepsValid(st: State, ops: seq<Op>)
    requires Valid(st) && Lawful(st, ops)
    ensures Valid(Run(st, ops))
    decreases |ops|
  {
    if ops == [] {
    } else {
      StepKeepsValid(st, ops[0]);
      RunKeepsValid(Step(st, ops[0]), ops[1..]);
    }
  }

  /** In every program, each handle's adapter is there from before the handle is
      opened until after it is freed, and no handle or header is used, freed or
      read but between its beginning and its end. */
  lemma ProgramsAreSafe(ops: seq<Op>)
    requires Lawful(START, ops)
    ensures var log := Run(START, ops).log;
            && (forall i, h, a :: 0 <= i < |log| && log[i] == HandleMade(h, Some(a)) ==>
                  AdapterMade(a) in log[..i] && AdapterGone(a) !in log[..i])
            && (forall i, j, h, a :: 0 <= i < j < |log| && log[i] == HandleMade(h, Some(a)) && log[j] == AdapterGone(a) ==>
                  HandleFreed(h) in log[i..j])
            && (forall j :: 0 <= j < |log| ==> OnlyAlive(log, j))
  {
    StartIsValid();
    RunKeepsValid(START, ops);
    var log := Run(START, ops).log;
    forall i, h, a | 0 <= i < |log| && log[i] == HandleMade(h, Some(a))
      ensures AdapterMade(a) in log[..i] && AdapterGone(a) !in log[..i]
    {
      AdapterMadeBefore(log, i, h, a);
    }
    forall i, j, h, a | 0 <= i < j < |log| && log[i] == HandleMade(h, Some(a)) && log[j] == AdapterGone(a)
      ensures HandleFreed(h) in log[i..j]
    {
      AdapterGoneAfter(log, i, j, h, a);
    }
    forall j | 0 <= j < |log|
      ensures OnlyAlive(log, j)
    {
      UsedWhileAlive(log, j);
    }
  }

  lemma NoOwnersNothingAlive<S(!new)>(ps: Pointers<S>, alive: set<Id>)
    requires OneOwner(ps, alive) && ps == map[]
    ensures alive == {}
  {
    forall id | id in alive
      ensures false
    {
      var s := HeldSomewhere(ps, alive, id);
    }
  }

  /** Once a program has destroyed all its objects, everything it made has been freed, and freed once. */
  lemma EverythingIsFreedOnce(ops: seq<Op>, id: Id)
    requires Lawful(START, ops) && Run(START, ops).kinds == map[] && Run(START, ops).owned == map[]
    ensures var log := Run(START, ops).log;
            && Count(log, HandleFreed(id)) == (if exists i, a :: 0 <= i < |log| && log[i] == HandleMade(id, a) then 1 else 0)
            && Count(log, AdapterGone(id)) == (if AdapterMade(id) in log then 1 else 0)
            && Count(log, HeaderFreed(id)) == (if HeaderMade(id) in log then 1 else 0)
  {
    StartIsValid();
    RunKeepsValid(START, ops);
    var st := Run(START, ops);
    var l := Book(st.log).value;
    assert st.handles.Keys == {} && st.adapters.Keys == {};
    NoOwnersNothingAlive(st.handles, l.handles.Keys);
    NoOwnersNothingAlive(st.adapters, l.adapters);
    NoOwnersNothingAlive(st.owned, l.headers);
    assert id !in l.handles.Keys;
    FreedOnce(st.log, id);
    MadeInLog(st.log, id);
  }

  /** In every program, different objects never share a handle or an adapter, and
      a reader's header points into the reader's own handle. */
  lemma ObjectsShareNothing(ops: seq<Op>, o: Id, p: Id)
    requires Lawful(START, ops)
    requires o in Run(START, ops).kinds && p in Run(START, ops).kinds
    ensures var st := Run(START, ops);
            && o in st.handles && p in st.handles && o in st.adapters && p in st.adapters
            && (st.handles[o].Some? && st.handles[o] == st.handles[p] ==> o == p)
            && (st.adapters[o].Some? && st.adapters[o] == st.adapters[p] ==> o == p)
            && (!st.kinds[o].Writer? ==>
                  MemberOf(o) in st.ptrs
                  && st.ptrs[MemberOf(o)] == if st.handles[o].Some? then Inside(st.handles[o].value) else Null)
            && (forall s :: s in st.owned && st.owned[s].Some? ==> s in st.ptrs && st.ptrs[s] == OwnedAt(st.owned[s].value))
  {
    StartIsValid();
    RunKeepsValid(START, ops);
    var st := Run(START, ops);
    var l := Book(st.log).value;
    if st.handles[o].Some? && st.handles[o] == st.handles[p] {
      OnlyOwner(st.handles, l.handles.Keys, o, p);
    }
    if st.adapters[o].Some? && st.adapters[o] == st.adapters[p] {
      OnlyOwner(st.adapters, l.adapters, o, p);
    }
  }

  // ----- The classes -----

  /** All objects of a program, with the members of readers, writers and headers as fields. */
  class World {
    var kinds: map<Id, Kind>
    var adapters: Pointers<Id>
    var handles: Pointers<Id>
    var owned: Pointers<Slot>
    var ptrs: map<Slot, HeaderPtr>
    var log: seq<Event>
    var next: Id

    ghost function Value(): State
      reads this
    {
      State(kinds, adapters, handles, owned, ptrs, log, next)
    }

    constructor ()
      ensures Value() == START
    {
      kinds, adapters, handles, owned, ptrs, log, next := map[], map[], map[], map[], map[], [], 0;
    }

    /** `handle_ = std::move(other.handle_)`: takes the other's handle and frees
        the own one; assigned to itself a member keeps what it has. */
    method AssignHandle(dst: Id, src: Id)
      requires dst in handles && src in handles
      modifies this`handles, this`log
      ensures dst == src ==> handles == old(handles) && log == old(log)
      ensures dst != src ==> handles == old(handles)[src := None][dst := old(handles)[src]]
      ensures dst != src ==> log == old(log) + Freed(old(handles)[dst])
    {
      var released := handles[src];
      handles := handles[src := None];
      var former := handles[dst];
      handles := handles[dst := released];
      log := log + Freed(former);
    }

    /** `output_ = std::move(other.output_)`, or the same for `input_`. */
    method AssignAdapter(dst: Id, src: Id)
      requires dst in adapters && src in adapters
      modifies this`adapters, this`log
      ensures dst == src ==> adapters == old(adapters) && log == old(log)
      ensures dst != src ==> adapters == old(adapters)[src := None][dst := old(adapters)[src]]
      ensures dst != src ==> log == old(log) + Gone(old(adapters)[dst])
    {
      var released := adapters[src];
      adapters := adapters[src := None];
      var former := adapters[dst];
      adapters := adapters[dst := released];
      log := log + Gone(former);
    }

    /** `Header::operator=(Header &&)`: the owned header first, then the pointer. */
    method AssignHeader(dst: Slot, src: Slot)
      requires owned.Keys == ptrs.Keys && dst in owned && src in owned
      modifies this`owned, this`ptrs, this`log
      ensures Value() == HeaderMoveAssigned(old(Value()), dst, src)
    {
      SelfMove(owned, dst);
      var (after, former) := MoveAssign(owned, dst, src);
      owned := after;
      log := log + HeaderGone(former);
      var ptr := ptrs[src];
      ptrs := ptrs[src := Null];
      ptrs := ptrs[dst := ptr];
      if dst == src {
        assert ptrs == old(ptrs) && log == old(log);
      }
    }

    /** `Header(Header &&)`. */
    method ConstructHeader(dst: Slot, src: Slot)
      requires owned.Keys == ptrs.Keys && src in owned
      modifies this`owned, this`ptrs
      ensures Value() == HeaderMoved(old(Value()), dst, src)
    {
      var moved := owned[src];
      owned := owned[src := None];
      owned := owned[dst := moved];
      var ptr := ptrs[src];
      ptrs := ptrs[src := Null];
      ptrs := ptrs[dst := ptr];
    }

    /** `~Header`. */
    method DropHeader(s: Slot)
      requires owned.Keys == ptrs.Keys && s in owned
      modifies this`owned, this`ptrs, this`log
      ensures Value() == HeaderDestroyed(old(Value()), s)
    {
      log := log + HeaderGone(owned[s]);
      owned, ptrs := owned - {s}, ptrs - {s};
    }

    /** Puts a new Rust header into a slot: the new one is made first, then the
        one owned before is freed. */
    method RenewHeader(s: Slot)
      modifies this`owned, this`ptrs, this`log, this`next
      ensures Value() == Renewed(old(Value()), s)
    {
      log := log + [HeaderMade(next)];
      var former := if s in owned then owned[s] else None;
      owned := owned[s := Some(next)];
      log := log + HeaderGone(former);
      ptrs := ptrs[s := OwnedAt(next)];
      next := next + 1;
    }

    /** `std::make_unique` of an adapter, which belongs to the new object's member from the start. */
    method MakeAdapter(o: Id, onStream: bool)
      modifies this`adapters, this`log, this`next
      ensures Value() == OpenedAdapter(old(Value()), o, onStream)
    {
      adapters := adapters[o := if onStream then Some(next) else None];
      if onStream {
        log := log + [AdapterMade(next)];
        next := next + 1;
      }
    }

    /** The Rust side opens a handle, and the private constructor initializes the members. */
    method Construct(o: Id, kind: Kind)
      requires o in adapters
      modifies this
      ensures var made := OpenedHandle(old(Value()), o).(kinds := old(kinds)[o := kind]);
              Value() == if kind.Writer? then made else Borrowed(made, o)
    {
      var h := next;
      next := next + 1;
      log := log + [HandleMade(h, adapters[o])];
      kinds := kinds[o := kind];
      handles := handles[o := Some(h)];
      if !kind.Writer? {
        owned, ptrs := owned[MemberOf(o) := None], ptrs[MemberOf(o) := Inside(h)];
        log := log + [HandleUsed(h)];
      }
    }

    /** `open`: the adapter is made first, and given up again if opening fails. */
    method OpenObject(o: Id, kind: Kind, onStream: bool, succeeds: bool)
      requires o !in adapters
      modifies this
      ensures Value() == if succeeds then Opened(old(Value()), o, kind, onStream) else OpenFailed(old(Value()), onStream)
    {
      MakeAdapter(o, onStream);
      if !succeeds {
        log := log + Gone(adapters[o]);
        adapters := adapters - {o};
        assert adapters == old(adapters);
        assert !onStream ==> log == old(log);
        return;
      }
      Construct(o, kind);
    }

    /** The defaulted move constructors: member by member, in the order of declaration. */
    method MoveConstructObject(dst: Id, src: Id)
      requires Whole(Value()) && dst !in kinds && src in kinds
      modifies this
      ensures Value() == MoveConstructed(old(Value()), dst, src)
    {
      kinds := kinds[dst := kinds[src]];
      var adapter := adapters[src];
      adapters := adapters[src := None];
      adapters := adapters[dst := adapter];
      var handle := handles[src];
      handles := handles[src := None];
      handles := handles[dst := handle];
      if MemberOf(src) in owned {
        ConstructHeader(MemberOf(dst), MemberOf(src));
      }
    }

    /** Move assignment of readers and writers: the handle, then the adapter,
        then the header, which is optional in a writer. */
    method MoveAssignObject(dst: Id, src: Id)
      requires Whole(Value()) && dst in kinds && src in kinds
      modifies this
      ensures Value() == MoveAssigned(old(Value()), dst, src)
      ensures dst == src ==> Value() == old(Value())
      ensures dst != src ==>
                && dst in handles && handles[dst] == old(handles[src]) && src in handles && handles[src] == None
                && dst in adapters && adapters[dst] == old(adapters[src]) && src in adapters && adapters[src] == None
                && log == old(log) + Freed(old(handles[dst])) + Gone(old(adapters[dst]))
                          + HeaderGone(OwnedIn(old(Value()), MemberOf(dst)))
    {
      AssignHandle(dst, src);
      AssignAdapter(dst, src);
      var d, s := MemberOf(dst), MemberOf(src);
      if d in owned && s in owned {
        AssignHeader(d, s);
      } else if s in owned {
        ConstructHeader(d, s);
      } else if d in owned {
        DropHeader(d);
      }
      if d !in old(owned) {
        assert old(owned) - {d} == old(owned) && old(ptrs) - {d} == old(ptrs);
      }
      if dst == src {
        assert log == old(log);
      }
    }

    /** Destruction: members in the opposite order of their declaration. */
    method DestroyObject(o: Id)
      requires Whole(Value()) && o in kinds
      modifies this
      ensures Value() == Destroyed(old(Value()), o)
    {
      if MemberOf(o) in owned {
        DropHeader(MemberOf(o));
      } else {
        assert owned - {MemberOf(o)} == owned && ptrs - {MemberOf(o)} == ptrs;
        assert log + [] == log;
      }
      log := log + Freed(handles[o]);
      handles := handles - {o};
      log := log + Gone(adapters[o]);
      adapters := adapters - {o};
      kinds := kinds - {o};
    }

    method Perform(op: Op)
      requires Whole(Value()) && Permitted(Value(), op)
      modifies this
      ensures Value() == Step(old(Value()), op)
    {
      match op {
        case Open(o, kind, onStream, succeeds) => OpenObject(o, kind, onStream, succeeds);
        case MoveConstruct(o, from) => MoveConstructObject(o, from);
        case MoveAssignTo(o, from) => MoveAssignObject(o, from);
        case Destroy(o) => DestroyObject(o);
        case Use(o) => log := log + [HandleUsed(handles[o].value)];
        case WriterHeader(o) =>
          log := log + [HandleUsed(handles[o].value)];
          RenewHeader(MemberOf(o));
        case NewHeader(i) => RenewHeader(Standalone(i));
        case CopyHeader(i, source) =>
          log := log + [HeaderRead(ptrs[source])];
          RenewHeader(Standalone(i));
        case CopyAssignHeader(i, source) =>
          if source != Standalone(i) {
            log := log + [HeaderRead(ptrs[source])];
            RenewHeader(Standalone(i));
          }
        case MoveHeader(i, j) => ConstructHeader(Standalone(i), Standalone(j));
        case MoveAssignHeader(i, j) => AssignHeader(Standalone(i), Standalone(j));
        case DestroyHeader(i) => DropHeader(Standalone(i));
      }
    }
  }

  /** Carrying out a program, whatever it is, does nothing that must not be done. */
  method RunProgram(ops: seq<Op>) returns (log: seq<Event>)
    requires Lawful(START, ops)
    ensures log == Run(START, ops).log && Book(log).Some?
  {
    var world := new World();
    StartIsValid();
    var i := 0;
    assert ops[0..] == ops;
    while i < |ops|
      invariant 0 <= i <= |ops|
      invariant Valid(world.Value()) && Lawful(world.Value(), ops[i..])
      invariant Run(START, ops) == Run(world.Value(), ops[i..])
    {
      assert ops[i..][1..] == ops[i + 1..];
      StepKeepsValid(world.Value(), ops[i]);
      world.Perform(ops[i]);
      i := i + 1;
    }
    log := world.log;
  }
}
