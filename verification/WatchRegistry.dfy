/** The part of internal/watch/watcher.go that keeps the watches, and the reconciler's Setup and
    Teardown, which are all that drive it. */
module WatchRegistries {
  import opened Prelude
  import opened Api
  import opened RuleIndex
  import opened RuleCaches
  import opened WatchCaches
  import opened WatchSet

  class WatchRegistry<G(==), N(==), S> {
    const rules: RuleCache<G, N, S>
    const cache: WatchCache<G>

    constructor (rules: RuleCache<G, N, S>)
      ensures this.rules == rules && fresh(cache) && cache.Valid() && cache.watches == map[]
    {
      this.rules := rules;
      cache := new WatchCache();
    }

    ghost predicate Valid()
      reads rules, rules.owners.Keys, cache, cache.channels.Keys, cache.channels.Values
    {
      rules.Valid() && cache.Valid() && NoneEmpty(rules.Abstract())
    }

    ghost function Current(): Watching<G, N, S>
      reads rules, cache
    {
      Watching(rules.Abstract(), cache.watches.Keys)
    }

    /** Register: adding the event handlers may fail, and then no watch is started. */
    method Register(gvr: G) returns (ok: bool)
      requires Valid()
      modifies cache
      ensures Valid() && cache.Grown(old(cache.channels))
      ensures if ok then cache.watches.Keys == old(cache.watches.Keys) + {gvr}
        else gvr !in old(cache.watches) && cache.watches == old(cache.watches)
      ensures forall g <- old(cache.watches) :: g in cache.watches && cache.watches[g] == old(cache.watches)[g]
    {
      if cache.Exists(gvr) {
        return true;
      }
      ok := *;
      if ok {
        cache.Start(gvr);
      }
    }

    /** Prune: stop the watches of GVRs without rules. */
    method Prune()
      requires Valid()
      modifies cache, cache.channels.Keys, cache.channels.Values
      ensures Valid() && cache.channels == old(cache.channels)
      ensures cache.watches.Keys == old(cache.watches.Keys) * rules.index.Keys
      ensures forall g <- cache.watches :: cache.watches[g] == old(cache.watches)[g]
    {
      var gvrs := rules.GVRs();
      assert Elements(gvrs) == rules.index.Keys by {
        assert forall g <- rules.Abstract().index :: rules.index[g] != [];
      }
      PruneTo(gvrs);
    }

    method PruneTo(gvrs: seq<G>)
      requires Valid()
      modifies cache, cache.channels.Keys, cache.channels.Values
      ensures Valid() && cache.channels == old(cache.channels)
      ensures cache.watches.Keys == old(cache.watches.Keys) * Elements(gvrs)
      ensures forall g <- cache.watches :: cache.watches[g] == old(cache.watches)[g]
    {
      cache.Prune(gvrs);
      forall a: array<RuleSetOf<G, N, S>> | a in rules.owners
        ensures a[..] == old(a[..])
      {
      }
    }

    method Shutdown()
      requires Valid()
      modifies cache, cache.channels.Keys, cache.channels.Values
      ensures Valid() && cache.channels == old(cache.channels)
      ensures Step(old(Current()), Current(), Request.Shutdown)
    {
      cache.StopAll();
    }

    method Setup(rule: RuleSetOf<G, N, S>) returns (ok: bool)
      requires Valid()
      modifies rules, rules.owners.Keys, cache
      ensures Valid() && (forall a <- rules.owners :: a in old(rules.owners) || fresh(a))
      ensures cache.Grown(old(cache.channels))
      ensures forall g <- old(cache.watches) :: g in cache.watches && cache.watches[g] == old(cache.watches)[g]
      ensures Step(old(Current()), Current(), Request.Setup(rule, ok))
    {
      CacheRule(rule);
      ok := Register(rule.GVR());
      if !ok {
        UncacheRule(rule);
      }
    }

    method CacheRule(rule: RuleSetOf<G, N, S>)
      requires Valid()
      modifies rules, rules.owners.Keys
      ensures Valid() && (forall a <- rules.owners :: a in old(rules.owners) || fresh(a))
      ensures rules.Abstract() == After(old(rules.Abstract()), Put(rule))
    {
      AfterRuled(rules.Abstract(), Put(rule));
      rules.AddOrUpdateRule(rule);
    }

    method UncacheRule(rule: RuleSetOf<G, N, S>)
      requires Valid()
      modifies rules, rules.owners.Keys
      ensures Valid() && rules.owners == old(rules.owners)
      ensures rules.Abstract() == After(old(rules.Abstract()), Drop(rule))
    {
      AfterRuled(rules.Abstract(), Drop(rule));
      rules.RemoveRule(rule);
    }

    method Teardown(rule: RuleSetOf<G, N, S>)
      requires Valid()
      modifies rules, rules.owners.Keys, cache, cache.channels.Keys, cache.channels.Values
      ensures Valid() && rules.owners == old(rules.owners) && cache.channels == old(cache.channels)
      ensures forall g <- cache.watches :: g in old(cache.watches) && cache.watches[g] == old(cache.watches)[g]
      ensures Step(old(Current()), Current(), Request.Teardown(rule))
    {
      UncacheRule(rule);
      Prune();
    }

    /** One request; whether a Setup succeeds shows only when it is served. */
    method Serve(asked: Request<G, N, S>) returns (ghost served: Request<G, N, S>)
      requires Valid()
      modifies rules, rules.owners.Keys, cache, cache.channels.Keys, cache.channels.Values
      ensures Valid() && (forall a <- rules.owners :: a in old(rules.owners) || fresh(a))
      ensures cache.Grown(old(cache.channels))
      ensures SameRequest(asked, served) && Step(old(Current()), Current(), served)
    {
      served := asked;
      match asked {
        case Setup(rule, _) =>
          var ok := Setup(rule);
          served := Request.Setup(rule, ok);
        case Teardown(rule) => Teardown(rule);
        case Shutdown => Shutdown();
      }
    }
  }

  /** The request as asked, but for the outcome of a Setup. */
  predicate SameRequest<G(==), N(==), S(==)>(asked: Request<G, N, S>, served: Request<G, N, S>) {
    if asked.Setup? then served.Setup? && served.rule == asked.rule else served == asked
  }

  /** Serves the requests in turn. Every watch started before or meanwhile is then in the cache and
      open or was stopped, the gauge counts the open ones, and the states follow the steps. */
  method ServeAll<G(==), N(==), S(==)>(registry: WatchRegistry<G, N, S>, requests: seq<Request<G, N, S>>)
    returns (ghost states: seq<Watching<G, N, S>>, ghost served: seq<Request<G, N, S>>)
    requires registry.Valid()
    modifies registry.rules, registry.rules.owners.Keys
    modifies registry.cache, registry.cache.channels.Keys, registry.cache.channels.Values
    ensures registry.Valid() && registry.cache.Accounted() && registry.cache.Grown(old(registry.cache.channels))
    ensures |served| == |requests| && forall i :: 0 <= i < |requests| ==> SameRequest(requests[i], served[i])
    ensures |states| == |served| + 1 && states[0] == old(registry.Current()) && states[|served|] == registry.Current()
    ensures forall i {:trigger served[i]} :: 0 <= i < |served| ==> Step(states[i], states[i + 1], served[i])
    ensures old(registry.Current()) == Watching(State(map[], 0), {}) ==> IsRun(states, served)
  {
    states, served := [registry.Current()], [];
    for k := 0 to |requests|
      invariant registry.Valid() && registry.cache.Grown(old(registry.cache.channels))
      invariant forall a <- registry.rules.owners :: a in old(registry.rules.owners) || fresh(a)
      invariant |served| == k && forall i :: 0 <= i < k ==> SameRequest(requests[i], served[i])
      invariant |states| == k + 1 && states[0] == old(registry.Current()) && states[k] == registry.Current()
      invariant forall i {:trigger served[i]} :: 0 <= i < k ==> Step(states[i], states[i + 1], served[i])
    {
      ghost var answered := registry.Serve(requests[k]);
      states, served := states + [registry.Current()], served + [answered];
    }
    registry.cache.ValidAccounts();
  }
}
