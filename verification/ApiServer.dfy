/** The Kubernetes API server as the operator sees it: an atomic store of IFOs whose calls may fail
    without effect. */
module ApiServers {
  import opened Api
  import opened Operations
  import opened Lifecycle

  /** The stored IFOs that a selector picks, each once, in any order. */
  ghost predicate Listing(s: Store, selector: Labels, items: seq<Ifo>) {
    && (forall i, j :: 0 <= i < j < |items| ==> items[i].name != items[j].name)
    && (forall x <- items :: x.name in s && s[x.name] == x && Matches(selector, x.labels))
    && (forall n <- s :: Matches(selector, s[n].labels) ==> s[n] in items)
  }

  class ApiServer {
    var store: Store
    var next: Name
    /** How many calls have failed, and whether the last one did. */
    ghost var failures: nat
    ghost var lastFailed: bool

    ghost function Current(): World
      reads `store, `next
    {
      World(store, next)
    }

    /** One call was made since there were so many failures. */
    ghost predicate Counted(before: nat, ok: bool)
      reads `failures, `lastFailed
    {
      failures == before + (if ok then 0 else 1) && lastFailed == !ok
    }

    ghost predicate Named()
      reads `store
    {
      forall n <- store :: store[n].name == n
    }

    constructor ()
      ensures Current() == Empty && Named()
    {
      store, next, failures, lastFailed := map[], 1, 0, false;
    }

    method List(selector: Labels) returns (ok: bool, items: seq<Ifo>)
      requires Named()
      modifies `failures, `lastFailed
      ensures Counted(old(failures), ok)
      ensures ok ==> Listing(store, selector, items)
    {
      ok, items := *, [];
      lastFailed := !ok;
      if !ok {
        failures := failures + 1;
        return;
      }
      var todo := store.Keys;
      while todo != {}
        invariant todo <= store.Keys
        invariant forall i, j :: 0 <= i < j < |items| ==> items[i].name != items[j].name
        invariant forall x <- items :: x.name in store.Keys - todo && store[x.name] == x && Matches(selector, x.labels)
        invariant forall n <- store :: Matches(selector, store[n].labels) && n !in todo ==> store[n] in items
      {
        var n :| n in todo;
        if Matches(selector, store[n].labels) {
          items := items + [store[n]];
        }
        todo := todo - {n};
      }
    }

    /** The server names the object, stamps it, and ignores the status it comes with. */
    method Create(ifo: Ifo, now: Time) returns (ok: bool, created: Ifo)
      requires Named()
      modifies this
      ensures Counted(old(failures), ok)
      ensures Named()
      ensures ok ==> created == ifo.(name := old(next), created := now, status := EmptyStatus)
      ensures Current() == if ok then World(old(store)[old(next) := created], old(next) + 1) else old(Current())
    {
      ok, created := *, ifo;
      lastFailed := !ok;
      if ok {
        created := ifo.(name := next, created := now, status := EmptyStatus);
        store, next := store[next := created], next + 1;
      } else {
        failures := failures + 1;
      }
    }

    method UpdateStatus(ifo: Ifo) returns (ok: bool)
      requires Named()
      modifies this
      ensures Counted(old(failures), ok)
      ensures Named() && next == old(next)
      ensures ok ==> ifo.name in old(store)
      ensures store == if ok then old(store)[ifo.name := old(store)[ifo.name].(status := ifo.status)] else old(store)
    {
      ok := *;
      ok := ok && ifo.name in store;
      lastFailed := !ok;
      if ok {
        store := store[ifo.name := store[ifo.name].(status := ifo.status)];
      } else {
        failures := failures + 1;
      }
    }

    method Delete(name: Name) returns (ok: bool)
      requires Named()
      modifies this
      ensures Counted(old(failures), ok)
      ensures Named() && next == old(next)
      ensures store == if ok then old(store) - {name} else old(store)
    {
      ok := *;
      lastFailed := !ok;
      if ok {
        store := store - {name};
      } else {
        failures := failures + 1;
      }
    }

    method DeleteAllOf(selector: Labels) returns (ok: bool)
      requires Named()
      modifies this
      ensures Counted(old(failures), ok)
      ensures Named() && next == old(next)
      ensures store == if ok
        then map n | n in old(store) && !Matches(selector, old(store)[n].labels) :: old(store)[n] else old(store)
    {
      ok := *;
      lastFailed := !ok;
      if ok {
        store := map n | n in store && !Matches(selector, store[n].labels) :: store[n];
      } else {
        failures := failures + 1;
      }
    }
  }
}
