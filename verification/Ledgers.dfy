/**
 What a program may do with Rust handles and the stream adapters they use,
 stated on the log of everything that happened, and what that means for every
 handle and adapter in the log.
 */
module Ledgers {
  import opened Basics

  type Id = int

  /** What a C++ `Header` refers to: nothing, a Rust header of its own, or the header inside a reader's handle. */
  datatype HeaderPtr = Null | OwnedAt(header: Id) | Inside(handle: Id)

  datatype Event =
    | AdapterMade(adapter: Id)
    | AdapterGone(adapter: Id)
    | HandleMade(handle: Id, through: Option<Id>)
    | HandleUsed(handle: Id)
    | HandleFreed(handle: Id)
    | HeaderMade(header: Id)
    | HeaderRead(ptr: HeaderPtr)
    | HeaderFreed(header: Id)

  /** Everything ever made, and what of it is alive; a live handle with the adapter it works through. */
  datatype Ledger = Ledger(madeAdapters: set<Id>, adapters: set<Id>,
                           madeHandles: set<Id>, handles: map<Id, Option<Id>>,
                           madeHeaders: set<Id>, headers: set<Id>)

  const NOTHING: Ledger := Ledger({}, {}, {}, map[], {}, {})

  /** The handle is alive, and so is its adapter: freeing a writer still writes through it. */
  predicate Usable(l: Ledger, h: Id)
  {
    h in l.handles && (l.handles[h].Some? ==> l.handles[h].value in l.adapters)
  }

  /** The effect of one event, or `None` if it must not happen. */
  ghost function Enter(l: Ledger, e: Event): (r: Option<Ledger>)
  {
    match e
    case AdapterMade(a) =>
      if a in l.madeAdapters then None
      else Some(l.(madeAdapters := l.madeAdapters + {a}, adapters := l.adapters + {a}))
    case AdapterGone(a) =>
      if a !in l.adapters || exists h :: h in l.handles && l.handles[h] == Some(a) then None
      else Some(l.(adapters := l.adapters - {a}))
    case HandleMade(h, through) =>
      if h in l.madeHandles || (through.Some? && through.value !in l.adapters) then None
      else Some(l.(madeHandles := l.madeHandles + {h}, handles := l.handles[h := through]))
    case HandleUsed(h) => if Usable(l, h) then Some(l) else None
    case HandleFreed(h) => if Usable(l, h) then Some(l.(handles := l.handles - {h})) else None
    case HeaderMade(h) =>
      if h in l.madeHeaders then None
      else Some(l.(madeHeaders := l.madeHeaders + {h}, headers := l.headers + {h}))
    case HeaderRead(ptr) =>
      if (ptr.OwnedAt? && ptr.header in l.headers) || (ptr.Inside? && ptr.handle in l.handles) then Some(l) else None
    case HeaderFreed(h) => if h in l.headers then Some(l.(headers := l.headers - {h})) else None
  }

  /** The ledger of a log in which nothing happened that must not. */
  ghost function Book(log: seq<Event>): (r: Option<Ledger>)
    decreases |log|
  {
    if log == [] then Some(NOTHING) else
      match Book(log[..|log| - 1])
      case None => None
      case Some(l) => Enter(l, log[|log| - 1])
  }

  lemma BookAppend(log: seq<Event>, e: Event)
    requires Book(log).Some?
    ensures Book(log + [e]) == Enter(Book(log).value, e)
  {
    assert (log + [e])[..|log|] == log;
  }

  lemma {:induction false} PrefixIsBooked(log: seq<Event>, n: nat)
    requires Book(log).Some? && n <= |log|
    ensures Book(log[..n]).Some?
    decreases |log|
  {
    if n == |log| {
      assert log[..n] == log;
    } else {
      var shorter := log[..|log| - 1];
      PrefixIsBooked(shorter, n);
      assert shorter[..n] == log[..n];
    }
  }

  /** How often `e` occurs. */
  ghost function Count(log: seq<Event>, e: Event): (n: nat)
  {
    if log == [] then 0 else Count(log[..|log| - 1], e) + (if log[|log| - 1] == e then 1 else 0)
  }

  ghost function Occurrences(log: seq<Event>, e: Event): (indices: set<nat>)
    ensures forall i: nat :: i in indices <==> i < |log| && log[i] == e
  {
    set i: nat | i < |log| && log[i] == e
  }

  lemma {:induction false} CountsOccurrences(log: seq<Event>, e: Event)
    ensures Count(log, e) == |Occurrences(log, e)|
    decreases |log|
  {
    if log == [] {
      assert Occurrences(log, e) == {};
    } else {
      var last := |log| - 1;
      var before := Occurrences(log[..last], e);
      CountsOccurrences(log[..last], e);
      assert Occurrences(log, e) == if log[last] == e then before + {last} else before;
    }
  }

  ghost predicate WellKept(l: Ledger)
  {
    l.adapters <= l.madeAdapters && l.handles.Keys <= l.madeHandles && l.headers <= l.madeHeaders
  }

  /** A handle, adapter or Rust header is freed once if it was made and is not
      alive any more, and never otherwise. */
  lemma {:induction false} FreedOnce(log: seq<Event>, id: Id)
    requires Book(log).Some?
    ensures var l := Book(log).value;
            && WellKept(l)
            && Count(log, HandleFreed(id)) == (if id in l.madeHandles && id !in l.handles then 1 else 0)
            && Count(log, AdapterGone(id)) == (if id in l.madeAdapters && id !in l.adapters then 1 else 0)
            && Count(log, HeaderFreed(id)) == (if id in l.madeHeaders && id !in l.headers then 1 else 0)
    decreases |log|
  {
    if log == [] {
    } else {
      FreedOnce(log[..|log| - 1], id);
    }
  }

  /** Made handles are those in the log. */
  lemma {:induction false} MadeInLog(log: seq<Event>, id: Id)
    requires Book(log).Some?
    ensures var l := Book(log).value;
            && (id in l.madeHandles <==> exists i, a :: 0 <= i < |log| && log[i] == HandleMade(id, a))
            && (id in l.madeAdapters <==> AdapterMade(id) in log)
            && (id in l.madeHeaders <==> HeaderMade(id) in log)
    decreases |log|
  {
    if log != [] {
      var shorter, last := log[..|log| - 1], log[|log| - 1];
      MadeInLog(shorter, id);
      assert log == shorter + [last];
      if id in Book(log).value.madeHandles {
        if id in Book(shorter).value.madeHandles {
          var i, a :| 0 <= i < |shorter| && shorter[i] == HandleMade(id, a);
          assert log[i] == HandleMade(id, a);
        } else {
          assert log[|log| - 1] == HandleMade(id, last.through);
        }
      }
      forall i, a | 0 <= i < |log| && log[i] == HandleMade(id, a)
        ensures id in Book(log).value.madeHandles
      {
        if i < |shorter| {
          assert shorter[i] == HandleMade(id, a);
        }
      }
    }
  }

  lemma {:induction false} MadeStaysMade(log: seq<Event>, i: nat, h: Id, through: Option<Id>)
    requires Book(log).Some? && i < |log| && log[i] == HandleMade(h, through)
    ensures h in Book(log).value.madeHandles
    decreases |log|
  {
    if i == |log| - 1 {
    } else {
      MadeStaysMade(log[..|log| - 1], i, h, through);
    }
  }

  /** Between the opening of a handle and its freeing the ledger carries it with its adapter. */
  lemma {:induction false} CarriedUntilFreed(log: seq<Event>, i: nat, h: Id, through: Option<Id>)
    requires Book(log).Some? && i < |log| && log[i] == HandleMade(h, through)
    requires HandleFreed(h) !in log[i..]
    ensures h in Book(log).value.handles && Book(log).value.handles[h] == through
    decreases |log|
  {
    var shorter, last := log[..|log| - 1], log[|log| - 1];
    if i == |shorter| {
    } else {
      assert shorter[i..] == log[i..|log| - 1];
      assert log[i..] == shorter[i..] + [last];
      CarriedUntilFreed(shorter, i, h, through);
      assert last in log[i..];
      MadeStaysMade(shorter, i, h, through);
    }
  }

  lemma EnteredAt(log: seq<Event>, n: nat)
    requires Book(log).Some? && n < |log|
    ensures Book(log[..n]).Some? && Enter(Book(log[..n]).value, log[n]).Some?
  {
    PrefixIsBooked(log, n);
    PrefixIsBooked(log, n + 1);
    assert log[..n + 1][..n] == log[..n];
  }

  lemma {:induction false} NotCounted(log: seq<Event>, e: Event)
    requires Count(log, e) == 0
    ensures e !in log
    decreases |log|
  {
    if log == [] {
    } else {
      NotCounted(log[..|log| - 1], e);
      assert log == log[..|log| - 1] + [log[|log| - 1]];
    }
  }

  /** The adapter of a handle was made before the handle was opened, and was still there then. */
  lemma AdapterMadeBefore(log: seq<Event>, i: nat, h: Id, a: Id)
    requires Book(log).Some? && i < |log| && log[i] == HandleMade(h, Some(a))
    ensures AdapterMade(a) in log[..i] && AdapterGone(a) !in log[..i]
  {
    EnteredAt(log, i);
    FreedOnce(log[..i], a);
    MadeInLog(log[..i], a);
    NotCounted(log[..i], AdapterGone(a));
  }

  /** It goes only after the handle was freed. */
  lemma AdapterGoneAfter(log: seq<Event>, i: nat, j: nat, h: Id, a: Id)
    requires Book(log).Some? && i < j < |log|
    requires log[i] == HandleMade(h, Some(a)) && log[j] == AdapterGone(a)
    ensures HandleFreed(h) in log[i..j]
  {
    EnteredAt(log, j);
    assert log[..j][i..] == log[i..j];
    if HandleFreed(h) !in log[i..j] {
      CarriedUntilFreed(log[..j], i, h, Some(a));
      assert false;
    }
  }

  /** Handle `h` was opened before event `j` and not freed before it. */
  ghost predicate OpenAt(log: seq<Event>, j: nat, h: Id)
    requires j < |log|
  {
    (exists i, a :: 0 <= i < j && log[i] == HandleMade(h, a)) && HandleFreed(h) !in log[..j]
  }

  /** Event `j` of a log concerns only what is alive then: a handle used or freed
      was opened before and not freed since, and so was what a header read points into. */
  ghost predicate OnlyAlive(log: seq<Event>, j: nat)
    requires j < |log|
  {
    match log[j]
    case HandleUsed(h) => OpenAt(log, j, h)
    case HandleFreed(h) => OpenAt(log, j, h)
    case HeaderRead(Null) => false
    case HeaderRead(OwnedAt(h)) => HeaderMade(h) in log[..j] && HeaderFreed(h) !in log[..j]
    case HeaderRead(Inside(h)) => OpenAt(log, j, h)
    case _ => true
  }

  lemma AliveBefore(log: seq<Event>, j: nat, h: Id)
    requires Book(log).Some? && j < |log| && Book(log[..j]).Some? && h in Book(log[..j]).value.handles
    ensures OpenAt(log, j, h)
  {
    FreedOnce(log[..j], h);
    MadeInLog(log[..j], h);
    NotCounted(log[..j], HandleFreed(h));
    var i, a :| 0 <= i < |log[..j]| && log[..j][i] == HandleMade(h, a);
    assert log[i] == HandleMade(h, a);
  }

  /** In a log in which nothing happened that must not, handles are used and freed, and
      headers read, only while they and what they point into are alive. */
  lemma UsedWhileAlive(log: seq<Event>, j: nat)
    requires Book(log).Some? && j < |log|
    ensures OnlyAlive(log, j)
  {
    EnteredAt(log, j);
    match log[j]
    case HandleUsed(h) => AliveBefore(log, j, h);
    case HandleFreed(h) => AliveBefore(log, j, h);
    case HeaderRead(Inside(h)) => AliveBefore(log, j, h);
    case HeaderRead(OwnedAt(h)) =>
      FreedOnce(log[..j], h);
      MadeInLog(log[..j], h);
      NotCounted(log[..j], HeaderFreed(h));
    case _ =>
  }
}
