/**
 Who owns which Rust handle and which stream adapter while readers, writers and
 headers are opened, moved, assigned to and destroyed, in any order and any
 number: the effect of every operation, and what all of them keep.
 */
module Ownership {
  import opened Basics
  import opened Ledgers
  import opened UniquePtrs

  datatype Kind = Reader | CopcReader | Writer

  /** Where a C++ `Header` lives: as a member of a reader or writer, or on its own. */
  datatype Slot = MemberOf(o: Id) | Standalone(o: Id)

  /** All the objects, member by member, with everything that has happened and
      the next unused identity. A writer's header may be absent. */
  datatype State = State(
    kinds: map<Id, Kind>,
    adapters: Pointers<Id>,
    handles: Pointers<Id>,
    owned: Pointers<Slot>,
    ptrs: map<Slot, HeaderPtr>,
    log: seq<Event>,
    next: Id)

  const START: State := State(map[], map[], map[], map[], map[], [], 0)

  // ----- What all operations keep -----

  /** Every handle works through the adapter that its reader or writer owns. */
  ghost predicate Coupled(held: Pointers<Id>, adapters: Pointers<Id>, handles: map<Id, Option<Id>>)
  {
    && held.Keys == adapters.Keys
    && forall o :: o in held ==>
         match held[o]
         case None => adapters[o].None?
         case Some(h) => h in handles && handles[h] == adapters[o]
  }

  /** What a header should point to: its own Rust header if it has one; as the
      member of a reader, the header inside the reader's handle. */
  function RightPtr(kinds: map<Id, Kind>, held: Pointers<Id>, owned: Option<Id>, s: Slot): HeaderPtr
  {
    if owned.Some? then OwnedAt(owned.value)
    else if s.MemberOf? && s.o in kinds && !kinds[s.o].Writer? && s.o in held && held[s.o].Some? then Inside(held[s.o].value)
    else Null
  }

  ghost predicate PointersRight(kinds: map<Id, Kind>, held: Pointers<Id>, owned: Pointers<Slot>, ptrs: map<Slot, HeaderPtr>)
  {
    && kinds.Keys == held.Keys && owned.Keys == ptrs.Keys
    && (forall s :: s in owned ==> ptrs[s] == RightPtr(kinds, held, owned[s], s) && (s.MemberOf? ==> s.o in kinds))
    && (forall o :: o in kinds && !kinds[o].Writer? ==> MemberOf(o) in owned && owned[MemberOf(o)].None?)
  }

  /** Identities from `next` on have not been used. */
  ghost predicate Unused(l: Ledger, next: Id)
  {
    forall id :: id in l.madeAdapters || id in l.madeHandles || id in l.madeHeaders ==> id < next
  }

  /** Everything alive has one owner. */
  ghost predicate AllOwned(st: State, l: Ledger)
  {
    && WellKept(l) && Unused(l, st.next)
    && OneOwner(st.handles, l.handles.Keys)
    && OneOwner(st.adapters, l.adapters)
    && OneOwner(st.owned, l.headers)
  }

  /** Nothing has happened that must not, everything alive has one owner, and pointers point where they should. */
  ghost predicate Valid(st: State)
  {
    && Book(st.log).Some?
    && AllOwned(st, Book(st.log).value)
    && Coupled(st.handles, st.adapters, Book(st.log).value.handles)
    && PointersRight(st.kinds, st.handles, st.owned, st.ptrs)
  }

  // ----- The operations -----

  function Freed(h: Option<Id>): seq<Event>
  {
    if h.Some? then [HandleFreed(h.value)] else []
  }

  function Gone(a: Option<Id>): seq<Event>
  {
    if a.Some? then [AdapterGone(a.value)] else []
  }

  function HeaderGone(h: Option<Id>): seq<Event>
  {
    if h.Some? then [HeaderFreed(h.value)] else []
  }

  /** What the slot's header owns, if there is one. */
  function OwnedIn(st: State, s: Slot): Option<Id>
  {
    if s in st.owned then st.owned[s] else None
  }

  /** A failed opening leaves nothing behind but its events. */
  function OpenFailed(st: State, onStream: bool): State
  {
    if onStream then st.(next := st.next + 1, log := st.log + [AdapterMade(st.next)] + [AdapterGone(st.next)]) else st
  }

  function OpenedAdapter(st: State, o: Id, onStream: bool): State
  {
    if onStream then st.(adapters := st.adapters[o := Some(st.next)], next := st.next + 1, log := st.log + [AdapterMade(st.next)])
    else st.(adapters := st.adapters[o := None])
  }

  function OpenedHandle(st: State, o: Id): State
    requires o in st.adapters
  {
    st.(handles := st.handles[o := Some(st.next)], next := st.next + 1, log := st.log + [HandleMade(st.next, st.adapters[o])])
  }

  /** A reader's header points into its handle, which the Rust side is asked for. */
  function Borrowed(st: State, o: Id): State
    requires o in st.handles && st.handles[o].Some?
  {
    var h := st.handles[o].value;
    st.(owned := st.owned[MemberOf(o) := None], ptrs := st.ptrs[MemberOf(o) := Inside(h)], log := st.log + [HandleUsed(h)])
  }

  /** A reader borrows its header; a writer has none at first. */
  function Opened(st: State, o: Id, kind: Kind, onStream: bool): State
  {
    var made := OpenedHandle(OpenedAdapter(st, o, onStream), o).(kinds := st.kinds[o := kind]);
    if kind.Writer? then made else Borrowed(made, o)
  }

  /** The header at `src`, if there is one, goes to `dst`. */
  function HeaderMoved(st: State, dst: Slot, src: Slot): State
    requires src in st.owned && src in st.ptrs
  {
    st.(owned := st.owned[src := None][dst := st.owned[src]], ptrs := st.ptrs[src := Null][dst := st.ptrs[src]])
  }

  /** The new object takes everything the old one has; nothing is freed. */
  function MoveConstructed(st: State, dst: Id, src: Id): State
    requires src in st.kinds && src in st.adapters && src in st.handles && st.owned.Keys == st.ptrs.Keys
  {
    var moved := st.(kinds := st.kinds[dst := st.kinds[src]],
                     adapters := st.adapters[src := None][dst := st.adapters[src]],
                     handles := st.handles[src := None][dst := st.handles[src]]);
    if MemberOf(src) in st.owned then HeaderMoved(moved, MemberOf(dst), MemberOf(src)) else moved
  }

  /** The object assigned to gives up its handle, then its adapter, then its
      header, and takes the other's; assigned to itself it stays as it is. */
  function MoveAssigned(st: State, dst: Id, src: Id): State
    requires src in st.adapters && src in st.handles && dst in st.adapters && dst in st.handles && st.owned.Keys == st.ptrs.Keys
  {
    if dst == src then st else
      var moved := st.(handles := st.handles[src := None][dst := st.handles[src]],
                       adapters := st.adapters[src := None][dst := st.adapters[src]],
                       log := st.log + Freed(st.handles[dst]) + Gone(st.adapters[dst]) + HeaderGone(OwnedIn(st, MemberOf(dst))));
      if MemberOf(src) in st.owned then HeaderMoved(moved, MemberOf(dst), MemberOf(src))
      else moved.(owned := st.owned - {MemberOf(dst)}, ptrs := st.ptrs - {MemberOf(dst)})
  }

  /** Members are destroyed in the opposite order of their declaration. */
  function Destroyed(st: State, o: Id): State
    requires o in st.adapters && o in st.handles
  {
    st.(kinds := st.kinds - {o}, handles := st.handles - {o}, adapters := st.adapters - {o},
        owned := st.owned - {MemberOf(o)}, ptrs := st.ptrs - {MemberOf(o)},
        log := st.log + HeaderGone(OwnedIn(st, MemberOf(o))) + Freed(st.handles[o]) + Gone(st.adapters[o]))
  }

  function Used(st: State, o: Id): State
    requires o in st.handles && st.handles[o].Some?
  {
    st.(log := st.log + [HandleUsed(st.handles[o].value)])
  }

  /** A new Rust header, in place of the one the slot's header owned before, if any. */
  function Renewed(st: State, s: Slot): State
  {
    st.(owned := st.owned[s := Some(st.next)], ptrs := st.ptrs[s := OwnedAt(st.next)], next := st.next + 1,
        log := st.log + [HeaderMade(st.next)] + HeaderGone(OwnedIn(st, s)))
  }

  function HeaderDestroyed(st: State, s: Slot): State
    requires s in st.owned
  {
    st.(owned := st.owned - {s}, ptrs := st.ptrs - {s}, log := st.log + HeaderGone(st.owned[s]))
  }

  function HeaderMoveAssigned(st: State, dst: Slot, src: Slot): State
    requires src in st.owned && src in st.ptrs && dst in st.owned
  {
    if dst == src then st else HeaderMoved(st, dst, src).(log := st.log + HeaderGone(st.owned[dst]))
  }

  // ----- Events that may happen -----

  /** No live handle has lost its adapter, and no two share one. */
  lemma HandlesUsable(held: Pointers<Id>, adapters: Pointers<Id>, l: Ledger)
    requires OneOwner(held, l.handles.Keys) && OneOwner(adapters, l.adapters) && Coupled(held, adapters, l.handles)
    ensures forall h :: h in l.handles ==> Usable(l, h)
    ensures forall h, o :: h in l.handles && o in adapters && adapters[o].Some? && l.handles[h] == adapters[o] ==> held[o] == Some(h)
  {
    forall h | h in l.handles
      ensures Usable(l, h)
      ensures forall o :: o in adapters && adapters[o].Some? && l.handles[h] == adapters[o] ==> held[o] == Some(h)
    {
      var p := HeldSomewhere(held, l.handles.Keys, h);
      HeldIsAlive(adapters, l.adapters, p);
      forall o | o in adapters && adapters[o].Some? && l.handles[h] == adapters[o]
        ensures held[o] == Some(h)
      {
        OnlyOwner(adapters, l.adapters, o, p);
      }
    }
  }

  lemma BookFreed(log: seq<Event>, l: Ledger, h: Option<Id>)
    requires Book(log) == Some(l) && (h.Some? ==> Usable(l, h.value))
    ensures Book(log + Freed(h)) == Some(l.(handles := l.handles - Opt(h)))
  {
    if h.Some? {
      BookAppend(log, HandleFreed(h.value));
    } else {
      assert log + [] == log && l.handles - {} == l.handles;
    }
  }

  lemma BookGone(log: seq<Event>, l: Ledger, a: Option<Id>)
    requires Book(log) == Some(l) && Opt(a) <= l.adapters
    requires a.Some? ==> forall h :: h in l.handles ==> l.handles[h] != a
    ensures Book(log + Gone(a)) == Some(l.(adapters := l.adapters - Opt(a)))
  {
    if a.Some? {
      BookAppend(log, AdapterGone(a.value));
    } else {
      assert log + [] == log && l.adapters - {} == l.adapters;
    }
  }

  lemma BookHeaderGone(log: seq<Event>, l: Ledger, h: Option<Id>)
    requires Book(log) == Some(l) && Opt(h) <= l.headers
    ensures Book(log + HeaderGone(h)) == Some(l.(headers := l.headers - Opt(h)))
  {
    if h.Some? {
      BookAppend(log, HeaderFreed(h.value));
    } else {
      assert log + [] == log && l.headers - {} == l.headers;
    }
  }

  // ----- Moving and destroying readers and writers -----

  /** After the handle given up by `dst` is freed nothing works through its adapter any more. */
  lemma FreedThenGone(held: Pointers<Id>, adapters: Pointers<Id>, log: seq<Event>, l: Ledger, dst: Id)
    requires Book(log) == Some(l) && dst in held && dst in adapters
    requires OneOwner(held, l.handles.Keys) && OneOwner(adapters, l.adapters) && Coupled(held, adapters, l.handles)
    ensures Book(log + Freed(held[dst]) + Gone(adapters[dst])) ==
            Some(l.(handles := l.handles - Opt(held[dst]), adapters := l.adapters - Opt(adapters[dst])))
  {
    HandlesUsable(held, adapters, l);
    HeldIsAlive(held, l.handles.Keys, dst);
    HeldIsAlive(adapters, l.adapters, dst);
    BookFreed(log, l, held[dst]);
    BookGone(log + Freed(held[dst]), l.(handles := l.handles - Opt(held[dst])), adapters[dst]);
  }

  /** The order of declaration, in which a defaulted move assignment would go,
      is wrong for every object on a stream: its adapter would be gone before the
      handle that works through it is freed. */
  lemma AdapterFirstIsWrong(st: State, dst: Id)
    requires Valid(st) && dst in st.kinds
    ensures Book(st.log + Gone(st.adapters[dst]) + Freed(st.handles[dst])).Some? <==> st.adapters[dst].None?
  {
    var l, a, h := Book(st.log).value, st.adapters[dst], st.handles[dst];
    if a.Some? {
      BookAppend(st.log, AdapterGone(a.value));
      assert h.Some? && l.handles[h.value] == Some(a.value);
      var wrong := st.log + [AdapterGone(a.value)];
      assert (wrong + Freed(h))[..|wrong|] == wrong;
      if Book(wrong + Freed(h)).Some? {
        PrefixIsBooked(wrong + Freed(h), |wrong|);
        assert false;
      }
    } else {
      assert st.log + [] == st.log;
      HandlesUsable(st.handles, st.adapters, l);
      HeldIsAlive(st.handles, l.handles.Keys, dst);
      BookFreed(st.log, l, h);
    }
  }

  lemma MoveStaysCoupled(held: Pointers<Id>, adapters: Pointers<Id>, l: Ledger, dst: Id, src: Id)
    requires OneOwner(held, l.handles.Keys) && Coupled(held, adapters, l.handles) && src in held && dst != src
    ensures Coupled(held[src := None][dst := held[src]], adapters[src := None][dst := adapters[src]],
                    l.handles - (if dst in held then Opt(held[dst]) else {}))
  {
    forall o | o in held && o != dst && dst in held && held[o].Some? && held[o] == held[dst]
      ensures false
    {
      OnlyOwner(held, l.handles.Keys, o, dst);
    }
  }

  lemma DropStaysCoupled(held: Pointers<Id>, adapters: Pointers<Id>, l: Ledger, o: Id)
    requires OneOwner(held, l.handles.Keys) && Coupled(held, adapters, l.handles) && o in held
    ensures Coupled(held - {o}, adapters - {o}, l.handles - Opt(held[o]))
  {
    forall p | p in held && p != o && held[p].Some? && held[p] == held[o]
      ensures false
    {
      OnlyOwner(held, l.handles.Keys, p, o);
    }
  }

  lemma TakenHeaderPointsRight(kinds: map<Id, Kind>, held: Pointers<Id>, owned: Pointers<Slot>, ptrs: map<Slot, HeaderPtr>,
                               dst: Id, src: Id)
    requires PointersRight(kinds, held, owned, ptrs) && src in kinds && dst != src
    requires MemberOf(src) in owned && (dst in kinds ==> kinds[dst] == kinds[src])
    ensures var (d, s) := (MemberOf(dst), MemberOf(src));
            PointersRight(kinds[dst := kinds[src]], held[src := None][dst := held[src]],
                          owned[s := None][d := owned[s]], ptrs[s := Null][d := ptrs[s]])
  {
    var d, s := MemberOf(dst), MemberOf(src);
    var kinds', held' := kinds[dst := kinds[src]], held[src := None][dst := held[src]];
    var owned' := owned[s := None][d := owned[s]];
    forall t | t in owned' && t != d && t != s
      ensures RightPtr(kinds', held', owned'[t], t) == RightPtr(kinds, held, owned[t], t)
    {
    }
    assert RightPtr(kinds', held', owned'[d], d) == RightPtr(kinds, held, owned[s], s);
    assert RightPtr(kinds', held', owned'[s], s) == Null;
  }

  lemma NoHeaderPointsRight(kinds: map<Id, Kind>, held: Pointers<Id>, owned: Pointers<Slot>, ptrs: map<Slot, HeaderPtr>,
                            dst: Id, src: Id)
    requires PointersRight(kinds, held, owned, ptrs) && src in kinds && dst != src
    requires MemberOf(src) !in owned && (dst in kinds ==> kinds[dst] == kinds[src])
    ensures PointersRight(kinds[dst := kinds[src]], held[src := None][dst := held[src]],
                          owned - {MemberOf(dst)}, ptrs - {MemberOf(dst)})
  {
    var kinds', held' := kinds[dst := kinds[src]], held[src := None][dst := held[src]];
    forall t | t in owned && t != MemberOf(dst)
      ensures RightPtr(kinds', held', owned[t], t) == RightPtr(kinds, held, owned[t], t)
    {
    }
  }

  lemma MovePointsRight(st: State, dst: Id, src: Id)
    requires PointersRight(st.kinds, st.handles, st.owned, st.ptrs) && st.kinds.Keys == st.adapters.Keys
    requires src in st.kinds && dst != src && (dst in st.kinds ==> st.kinds[dst] == st.kinds[src])
    ensures var after := if dst in st.kinds then MoveAssigned(st, dst, src) else MoveConstructed(st, dst, src);
            PointersRight(after.kinds, after.handles, after.owned, after.ptrs)
  {
    assert dst in st.kinds ==> st.kinds[dst := st.kinds[src]] == st.kinds;
    if MemberOf(src) in st.owned {
      TakenHeaderPointsRight(st.kinds, st.handles, st.owned, st.ptrs, dst, src);
    } else {
      NoHeaderPointsRight(st.kinds, st.handles, st.owned, st.ptrs, dst, src);
      assert dst !in st.kinds ==> st.owned - {MemberOf(dst)} == st.owned && st.ptrs - {MemberOf(dst)} == st.ptrs;
    }
  }

  /** The headers that are left when `dst` takes over the header of `src`. */
  lemma HeaderMemberKeepsOwners(st: State, alive: set<Id>, dst: Id, src: Id)
    requires OneOwner(st.owned, alive) && dst != src
    ensures var taken := if MemberOf(src) in st.owned
                         then st.owned[MemberOf(src) := None][MemberOf(dst) := st.owned[MemberOf(src)]]
                         else st.owned - {MemberOf(dst)};
            OneOwner(taken, alive - Opt(OwnedIn(st, MemberOf(dst))))
    ensures Opt(OwnedIn(st, MemberOf(dst))) <= alive
  {
    var d, s := MemberOf(dst), MemberOf(src);
    assert alive - {} == alive;
    if d in st.owned {
      DropKeepsOwners(st.owned, alive, d);
      if s in st.owned {
        MoveAssignKeepsOwners(st.owned, alive, d, s);
      }
    } else {
      assert st.owned - {d} == st.owned;
      if s in st.owned {
        MoveConstructKeepsOwners(st.owned, alive, d, s);
      }
    }
  }

  lemma MoveAssignKeepsValid(st: State, dst: Id, src: Id)
    requires Valid(st) && dst in st.kinds && src in st.kinds && st.kinds[dst] == st.kinds[src]
    ensures Valid(MoveAssigned(st, dst, src))
  {
    if dst != src {
      var l := Book(st.log).value;
      var header := OwnedIn(st, MemberOf(dst));
      FreedThenGone(st.handles, st.adapters, st.log, l, dst);
      HeaderMemberKeepsOwners(st, l.headers, dst, src);
      BookHeaderGone(st.log + Freed(st.handles[dst]) + Gone(st.adapters[dst]),
                     l.(handles := l.handles - Opt(st.handles[dst]), adapters := l.adapters - Opt(st.adapters[dst])), header);
      MoveAssignKeepsOwners(st.handles, l.handles.Keys, dst, src);
      MoveAssignKeepsOwners(st.adapters, l.adapters, dst, src);
      assert (l.handles - Opt(st.handles[dst])).Keys == l.handles.Keys - Opt(st.handles[dst]);
      MoveStaysCoupled(st.handles, st.adapters, l, dst, src);
      MovePointsRight(st, dst, src);
    }
  }

  lemma MoveConstructKeepsValid(st: State, dst: Id, src: Id)
    requires Valid(st) && dst !in st.kinds && src in st.kinds
    ensures Valid(MoveConstructed(st, dst, src))
  {
    var l := Book(st.log).value;
    MoveConstructKeepsOwners(st.handles, l.handles.Keys, dst, src);
    MoveConstructKeepsOwners(st.adapters, l.adapters, dst, src);
    if MemberOf(src) in st.owned {
      MoveConstructKeepsOwners(st.owned, l.headers, MemberOf(dst), MemberOf(src));
    }
    assert l.handles - {} == l.handles;
    MoveStaysCoupled(st.handles, st.adapters, l, dst, src);
    MovePointsRight(st, dst, src);
  }

  lemma DestroyPointsRight(st: State, o: Id)
    requires PointersRight(st.kinds, st.handles, st.owned, st.ptrs) && o in st.kinds && st.kinds.Keys == st.adapters.Keys
    ensures var after := Destroyed(st, o); PointersRight(after.kinds, after.handles, after.owned, after.ptrs)
  {
  }

  lemma DestroyKeepsValid(st: State, o: Id)
    requires Valid(st) && o in st.kinds
    ensures Valid(Destroyed(st, o))
  {
    var l := Book(st.log).value;
    var s, header := MemberOf(o), OwnedIn(st, MemberOf(o));
    if s in st.owned {
      DropKeepsOwners(st.owned, l.headers, s);
    } else {
      assert st.owned - {s} == st.owned && l.headers - {} == l.headers;
    }
    BookHeaderGone(st.log, l, header);
    FreedThenGone(st.handles, st.adapters, st.log + HeaderGone(header), l.(headers := l.headers - Opt(header)), o);
    DropKeepsOwners(st.handles, l.handles.Keys, o);
    DropKeepsOwners(st.adapters, l.adapters, o);
    assert (l.handles - Opt(st.handles[o])).Keys == l.handles.Keys - Opt(st.handles[o]);
    DropStaysCoupled(st.handles, st.adapters, l, o);
    DestroyPointsRight(st, o);
  }

  // ----- Opening -----

  lemma OpenedAdapterBooked(st: State, l: Ledger, o: Id, onStream: bool) returns (l': Ledger)
    requires Book(st.log) == Some(l) && AllOwned(st, l) && o !in st.adapters
    ensures Book(OpenedAdapter(st, o, onStream).log) == Some(l') && AllOwned(OpenedAdapter(st, o, onStream), l')
    ensures l'.handles == l.handles && Opt(OpenedAdapter(st, o, onStream).adapters[o]) <= l'.adapters
  {
    if onStream {
      BookAppend(st.log, AdapterMade(st.next));
      AdoptKeepsOwners(st.adapters, l.adapters, o, Some(st.next));
      l' := Enter(l, AdapterMade(st.next)).value;
    } else {
      AdoptKeepsOwners(st.adapters, l.adapters, o, None);
      assert l.adapters + {} == l.adapters;
      l' := l;
    }
  }

  lemma OpenedHandleBooked(st: State, l: Ledger, o: Id) returns (l': Ledger)
    requires Book(st.log) == Some(l) && AllOwned(st, l) && o !in st.handles && o in st.adapters
    ensures Book(OpenedHandle(st, o).log) == Some(l') && AllOwned(OpenedHandle(st, o), l')
    ensures l'.handles == l.handles[st.next := st.adapters[o]] && l'.adapters == l.adapters
  {
    BookAppend(st.log, HandleMade(st.next, st.adapters[o]));
    HeldIsAlive(st.adapters, l.adapters, o);
    assert st.next !in l.handles;
    AdoptKeepsOwners(st.handles, l.handles.Keys, o, Some(st.next));
    l' := Enter(l, HandleMade(st.next, st.adapters[o])).value;
    assert l'.handles.Keys == l.handles.Keys + {st.next};
  }

  lemma OpenStaysCoupled(held: Pointers<Id>, adapters: Pointers<Id>, handles: map<Id, Option<Id>>, o: Id, a: Option<Id>, h: Id)
    requires Coupled(held, adapters, handles) && o !in held && h !in handles
    ensures Coupled(held[o := Some(h)], adapters[o := a], handles[h := a])
  {
  }

  lemma OpenPointsRight(kinds: map<Id, Kind>, held: Pointers<Id>, owned: Pointers<Slot>, ptrs: map<Slot, HeaderPtr>,
                        o: Id, kind: Kind, h: Id)
    requires PointersRight(kinds, held, owned, ptrs) && o !in held
    ensures if kind.Writer? then PointersRight(kinds[o := kind], held[o := Some(h)], owned, ptrs)
            else PointersRight(kinds[o := kind], held[o := Some(h)], owned[MemberOf(o) := None], ptrs[MemberOf(o) := Inside(h)])
  {
    var kinds', held' := kinds[o := kind], held[o := Some(h)];
    forall t | t in owned
      ensures RightPtr(kinds', held', owned[t], t) == RightPtr(kinds, held, owned[t], t)
    {
    }
    assert !kind.Writer? ==> RightPtr(kinds', held', None, MemberOf(o)) == Inside(h);
  }

  lemma BorrowedBooked(st: State, l: Ledger, o: Id)
    requires Book(st.log) == Some(l) && AllOwned(st, l)
    requires o in st.handles && st.handles[o].Some? && Usable(l, st.handles[o].value) && MemberOf(o) !in st.owned
    ensures Book(Borrowed(st, o).log) == Some(l) && AllOwned(Borrowed(st, o), l)
  {
    BookAppend(st.log, HandleUsed(st.handles[o].value));
    AdoptKeepsOwners(st.owned, l.headers, MemberOf(o), None);
    assert l.headers + {} == l.headers;
  }

  lemma OpenBooked(st: State, l: Ledger, o: Id, kind: Kind, onStream: bool) returns (l': Ledger)
    requires Book(st.log) == Some(l) && AllOwned(st, l) && o !in st.adapters && o !in st.handles && MemberOf(o) !in st.owned
    ensures var after := Opened(st, o, kind, onStream);
            && Book(after.log) == Some(l') && AllOwned(after, l')
            && l'.handles == l.handles[OpenedAdapter(st, o, onStream).next := after.adapters[o]]
  {
    var s1 := OpenedAdapter(st, o, onStream);
    var l1 := OpenedAdapterBooked(st, l, o, onStream);
    l' := OpenedHandleBooked(s1, l1, o);
    var made := OpenedHandle(s1, o).(kinds := st.kinds[o := kind]);
    assert AllOwned(made, l');
    if !kind.Writer? {
      BorrowedBooked(made, l', o);
    }
  }

  lemma OpenKeepsValid(st: State, o: Id, kind: Kind, onStream: bool)
    requires Valid(st) && o !in st.kinds
    ensures Valid(Opened(st, o, kind, onStream))
  {
    var l := Book(st.log).value;
    var l' := OpenBooked(st, l, o, kind, onStream);
    var s1 := OpenedAdapter(st, o, onStream);
    OpenStaysCoupled(st.handles, st.adapters, l.handles, o, s1.adapters[o], s1.next);
    OpenPointsRight(st.kinds, st.handles, st.owned, st.ptrs, o, kind, s1.next);
  }

  lemma FailedOpenKeepsValid(st: State, onStream: bool)
    requires Valid(st)
    ensures Valid(OpenFailed(st, onStream))
  {
    if onStream {
      var l := Book(st.log).value;
      var l1 := Enter(l, AdapterMade(st.next)).value;
      BookAppend(st.log, AdapterMade(st.next));
      HandlesUsable(st.handles, st.adapters, l);
      assert forall h :: h in l.handles && l.handles[h].Some? ==> l.handles[h].value in l.adapters;
      BookAppend(st.log + [AdapterMade(st.next)], AdapterGone(st.next));
      assert l1.adapters - {st.next} == l.adapters;
    }
  }

  // ----- Headers -----

  lemma RenewedOwners(owned: Pointers<Slot>, alive: set<Id>, s: Slot, h: Id)
    requires OneOwner(owned, alive) && h !in alive
    ensures var former := if s in owned then owned[s] else None;
            Opt(former) <= alive && OneOwner(owned[s := Some(h)], alive + {h} - Opt(former))
  {
    if s in owned {
      DropKeepsOwners(owned, alive, s);
      AdoptKeepsOwners(owned - {s}, alive - Opt(owned[s]), s, Some(h));
      assert (owned - {s})[s := Some(h)] == owned[s := Some(h)];
      assert alive - Opt(owned[s]) + {h} == alive + {h} - Opt(owned[s]);
    } else {
      AdoptKeepsOwners(owned, alive, s, Some(h));
      assert alive + {h} - {} == alive + {h};
    }
  }

  lemma RenewKeepsValid(st: State, s: Slot)
    requires Valid(st)
    requires s.MemberOf? ==> s.o in st.kinds && st.kinds[s.o].Writer?
    ensures Valid(Renewed(st, s))
  {
    var l := Book(st.log).value;
    BookAppend(st.log, HeaderMade(st.next));
    RenewedOwners(st.owned, l.headers, s, st.next);
    BookHeaderGone(st.log + [HeaderMade(st.next)], Enter(l, HeaderMade(st.next)).value, OwnedIn(st, s));
  }

  /** Moving one stand-alone header into another slot of that kind. */
  lemma StandaloneMovePointsRight(st: State, i: Id, j: Id)
    requires PointersRight(st.kinds, st.handles, st.owned, st.ptrs) && Standalone(j) in st.owned && i != j
    ensures var after := HeaderMoved(st, Standalone(i), Standalone(j));
            PointersRight(after.kinds, after.handles, after.owned, after.ptrs)
  {
    var a, b := Standalone(i), Standalone(j);
    assert st.ptrs[b] == RightPtr(st.kinds, st.handles, st.owned[b], a);
    assert RightPtr(st.kinds, st.handles, None, b) == Null;
  }

  lemma HeaderDestroyKeepsValid(st: State, i: Id)
    requires Valid(st) && Standalone(i) in st.owned
    ensures Valid(HeaderDestroyed(st, Standalone(i)))
  {
    var l := Book(st.log).value;
    DropKeepsOwners(st.owned, l.headers, Standalone(i));
    BookHeaderGone(st.log, l, st.owned[Standalone(i)]);
  }

  lemma HeaderMoveAssignKeepsValid(st: State, i: Id, j: Id)
    requires Valid(st) && Standalone(i) in st.owned && Standalone(j) in st.owned
    ensures Valid(HeaderMoveAssigned(st, Standalone(i), Standalone(j)))
  {
    if i != j {
      var l := Book(st.log).value;
      MoveAssignKeepsOwners(st.owned, l.headers, Standalone(i), Standalone(j));
      BookHeaderGone(st.log, l, st.owned[Standalone(i)]);
      StandaloneMovePointsRight(st, i, j);
    }
  }

  lemma HeaderMoveKeepsValid(st: State, i: Id, j: Id)
    requires Valid(st) && Standalone(i) !in st.owned && Standalone(j) in st.owned
    ensures Valid(HeaderMoved(st, Standalone(i), Standalone(j)))
  {
    MoveConstructKeepsOwners(st.owned, Book(st.log).value.headers, Standalone(i), Standalone(j));
    StandaloneMovePointsRight(st, i, j);
  }

  /** Using a handle, or reading a header that points somewhere, is always allowed. */
  lemma UseKeepsValid(st: State, e: Event)
    requires Valid(st)
    requires (e.HandleUsed? && e.handle in Book(st.log).value.handles)
          || (e.HeaderRead? && exists s :: s in st.ptrs && st.ptrs[s] == e.ptr && e.ptr != Null)
    ensures Valid(st.(log := st.log + [e]))
  {
    var l := Book(st.log).value;
    HandlesUsable(st.handles, st.adapters, l);
    BookAppend(st.log, e);
    if e.HeaderRead? {
      var s :| s in st.ptrs && st.ptrs[s] == e.ptr;
      HeldIsAlive(st.owned, l.headers, s);
      if e.ptr.Inside? {
        HeldIsAlive(st.handles, l.handles.Keys, s.o);
      }
    }
  }
}
