/** Owning pointers (`std::unique_ptr`), and the law they keep: whatever is alive has one owner. */
module UniquePtrs {
  import opened Basics
  import opened Ledgers

  /** What the owning pointers at various places hold; `None` is null. */
  type Pointers<S(==)> = map<S, Option<Id>>

  function Opt(o: Option<Id>): (s: set<Id>)
  {
    if o.Some? then {o.value} else {}
  }

  ghost predicate HeldAt<S(!new)>(ps: Pointers<S>, s: S, id: Id)
  {
    s in ps && ps[s] == Some(id)
  }

  /** What is held is alive, what is alive is held, and by one pointer only. */
  ghost predicate OneOwner<S(!new)>(ps: Pointers<S>, alive: set<Id>)
  {
    && (forall s, id :: HeldAt(ps, s, id) ==> id in alive)
    && (forall id :: id in alive ==> exists s :: HeldAt(ps, s, id))
    && (forall s, t, id :: HeldAt(ps, s, id) && HeldAt(ps, t, id) ==> s == t)
  }

  lemma OwnersWithout<S(!new)>(ps: Pointers<S>, alive: set<Id>, s: S)
    requires s in ps
    ensures OneOwner(ps, alive) ==> Opt(ps[s]) <= alive && OneOwner(ps - {s}, alive - Opt(ps[s]))
  {
    if OneOwner(ps, alive) {
      var rest := ps - {s};
      assert ps[s].Some? ==> HeldAt(ps, s, ps[s].value);
      forall id | id in alive - Opt(ps[s])
        ensures exists t :: HeldAt(rest, t, id)
      {
        var t :| HeldAt(ps, t, id);
        assert HeldAt(rest, t, id);
      }
      forall t, id | HeldAt(rest, t, id)
        ensures HeldAt(ps, t, id)
      {
      }
    }
  }

  lemma OwnersWith<S(!new)>(ps: Pointers<S>, alive: set<Id>, s: S, o: Option<Id>)
    requires s !in ps && OneOwner(ps, alive) && Opt(o) !! alive
    ensures OneOwner(ps[s := o], alive + Opt(o))
  {
    var after := ps[s := o];
    forall id | id in alive + Opt(o)
      ensures exists t :: HeldAt(after, t, id)
    {
      if id in alive {
        var t :| HeldAt(ps, t, id);
        assert HeldAt(after, t, id);
      } else {
        assert HeldAt(after, s, id);
      }
    }
    forall t, id | HeldAt(after, t, id)
      ensures if t == s then o == Some(id) else HeldAt(ps, t, id)
    {
    }
  }

  lemma HeldSomewhere<S(!new)>(ps: Pointers<S>, alive: set<Id>, id: Id) returns (s: S)
    requires OneOwner(ps, alive) && id in alive
    ensures s in ps && ps[s] == Some(id)
  {
    s :| HeldAt(ps, s, id);
  }

  lemma HeldIsAlive<S(!new)>(ps: Pointers<S>, alive: set<Id>, s: S)
    requires OneOwner(ps, alive) && s in ps
    ensures Opt(ps[s]) <= alive
  {
    OwnersWithout(ps, alive, s);
  }

  lemma OnlyOwner<S(!new)>(ps: Pointers<S>, alive: set<Id>, s: S, t: S)
    requires OneOwner(ps, alive) && s in ps && t in ps && ps[s] == ps[t] && ps[s].Some?
    ensures s == t
  {
    assert HeldAt(ps, s, ps[s].value) && HeldAt(ps, t, ps[s].value);
  }

  /** `dst = std::move(src)`: releases what `src` holds, then resets `dst` to it.
      The second result is what `dst` held until then and has to be freed. */
  function MoveAssign<S>(ps: Pointers<S>, dst: S, src: S): (r: (Pointers<S>, Option<Id>))
    requires dst in ps && src in ps
    ensures dst in r.0 && r.0[dst] == ps[src]
    ensures dst != src ==> src in r.0 && r.0[src] == None && r.1 == ps[dst]
  {
    var released := ps[src];
    var rest := ps[src := None];
    var former := rest[dst];
    (rest[dst := released], former)
  }

  /** Assigning a pointer to itself changes nothing and frees nothing. */
  lemma SelfMove<S>(ps: Pointers<S>, s: S)
    requires s in ps
    ensures MoveAssign(ps, s, s) == (ps, None)
  {
    assert ps[s := None][s := ps[s]] == ps;
  }

  /** A new pointer to something just made, or to nothing. */
  lemma AdoptKeepsOwners<S(!new)>(ps: Pointers<S>, alive: set<Id>, s: S, made: Option<Id>)
    requires OneOwner(ps, alive) && s !in ps && Opt(made) !! alive
    ensures OneOwner(ps[s := made], alive + Opt(made))
  {
    OwnersWith(ps, alive, s, made);
  }

  /** The end of a pointer, and of what it holds. */
  lemma DropKeepsOwners<S(!new)>(ps: Pointers<S>, alive: set<Id>, s: S)
    requires OneOwner(ps, alive) && s in ps
    ensures OneOwner(ps - {s}, alive - Opt(ps[s])) && Opt(ps[s]) <= alive
  {
    OwnersWithout(ps, alive, s);
  }

  /** A new pointer made from another one. */
  lemma MoveConstructKeepsOwners<S(!new)>(ps: Pointers<S>, alive: set<Id>, dst: S, src: S)
    requires OneOwner(ps, alive) && dst !in ps && src in ps
    ensures OneOwner(ps[src := None][dst := ps[src]], alive)
  {
    var rest, less := ps - {src}, alive - Opt(ps[src]);
    DropKeepsOwners(ps, alive, src);
    AdoptKeepsOwners(rest, less, src, None);
    AdoptKeepsOwners(rest[src := None], less, dst, ps[src]);
    assert less + {} == less && less + Opt(ps[src]) == alive;
    assert rest[src := None][dst := ps[src]] == ps[src := None][dst := ps[src]];
  }

  /** Two pointers taken away and given back with their contents exchanged or dropped. */
  lemma MoveAssignKeepsOwners<S(!new)>(ps: Pointers<S>, alive: set<Id>, dst: S, src: S)
    requires OneOwner(ps, alive) && dst in ps && src in ps
    ensures var (after, former) := MoveAssign(ps, dst, src);
            && after.Keys == ps.Keys && OneOwner(after, alive - Opt(former)) && Opt(former) <= alive
            && former == if dst == src then None else ps[dst]
  {
    var (after, former) := MoveAssign(ps, dst, src);
    if dst == src {
      SelfMove(ps, dst);
    } else {
      DropKeepsOwners(ps, alive, dst);
      MoveConstructKeepsOwners(ps - {dst}, alive - Opt(former), dst, src);
      assert after == (ps - {dst})[src := None][dst := ps[src]];
    }
  }
}
