/** Which GVRs are watched, over sequences of Setup, Teardown and Shutdown calls. */
module WatchSet {
  import opened Api
  import opened RuleIndex

  /** The rule cache and the set of watched targets; the gauge of watches counts the latter. */
  datatype Watching<G(==), N, S> = Watching(rules: State<G, N, S>, watched: set<G>)

  function Ruled<G(==), N, S>(s: State<G, N, S>): set<G> {
    s.index.Keys
  }

  ghost predicate NoneEmpty<G, N, S>(s: State<G, N, S>) {
    forall g <- s.index :: s.index[g] != []
  }

  /** Setup caches the rule and registers a watch for its target unless there is one. Registration
      may fail, and then the rule is taken out again. */
  ghost predicate SetupStep<G, N, S>(w: Watching<G, N, S>, w': Watching<G, N, S>, r: RuleSetOf<G, N, S>, ok: bool) {
    var put := After(w.rules, Put(r));
    if ok then w' == Watching(put, w.watched + {r.GVR()})
    else r.GVR() !in w.watched && w' == Watching(After(put, Drop(r)), w.watched)
  }

  /** Teardown takes the rule out and stops the watches of targets without rules. */
  ghost predicate TeardownStep<G, N, S>(w: Watching<G, N, S>, w': Watching<G, N, S>, r: RuleSetOf<G, N, S>) {
    w'.rules == After(w.rules, Drop(r)) && w'.watched == w.watched * Ruled(w'.rules)
  }

  datatype Request<G, N, S> = Setup(rule: RuleSetOf<G, N, S>, ok: bool) | Teardown(rule: RuleSetOf<G, N, S>) | Shutdown

  ghost predicate Step<G, N, S>(w: Watching<G, N, S>, w': Watching<G, N, S>, q: Request<G, N, S>) {
    match q
    case Setup(r, ok) => SetupStep(w, w', r, ok)
    case Teardown(r) => TeardownStep(w, w', r)
    case Shutdown => w' == w.(watched := {})
  }

  ghost predicate IsRun<G, N, S>(states: seq<Watching<G, N, S>>, requests: seq<Request<G, N, S>>) {
    && |states| == |requests| + 1
    && states[0] == Watching(State(map[], 0), {})
    && forall i {:trigger requests[i]} :: 0 <= i < |requests| ==> Step(states[i], states[i + 1], requests[i])
  }

  /** The calls on the rule cache that a request makes. */
  function CallsOf<G, N, S>(q: Request<G, N, S>): seq<Call<G, N, S>> {
    match q
    case Setup(r, ok) => if ok then [Put(r)] else [Put(r), Drop(r)]
    case Teardown(r) => [Drop(r)]
    case Shutdown => []
  }

  function AllCalls<G, N, S>(requests: seq<Request<G, N, S>>): seq<Call<G, N, S>> {
    if requests == [] then [] else AllCalls(requests[..|requests| - 1]) + CallsOf(requests[|requests| - 1])
  }

  /** Adding adds the target; removing drops it with its last rule. */
  lemma AfterRuled<G, N, S>(s: State<G, N, S>, call: Call<G, N, S>)
    requires NoneEmpty(s)
    ensures NoneEmpty(After(s, call))
    ensures call.Put? ==> Ruled(After(s, call)) == Ruled(s) + {call.rule.GVR()}
    ensures call.Drop? ==> Ruled(s) - {call.rule.GVR()} <= Ruled(After(s, call)) <= Ruled(s)
  {
  }

  /** A rule put for a target without rules and dropped again leaves the target without rules. */
  lemma FailedSetupLeavesUnruled<G, N, S>(s: State<G, N, S>, r: RuleSetOf<G, N, S>)
    requires r.GVR() !in Ruled(s)
    ensures After(After(s, Put(r)), Drop(r)) == s
  {
    var put := After(s, Put(r));
    assert put.index[r.GVR()] == [r];
    assert put.index - {r.GVR()} == s.index;
  }

  lemma SetupKeepsWatched<G, N, S>(w: Watching<G, N, S>, w': Watching<G, N, S>, r: RuleSetOf<G, N, S>, ok: bool)
    requires NoneEmpty(w.rules) && w.watched <= Ruled(w.rules) && SetupStep(w, w', r, ok)
    ensures NoneEmpty(w'.rules) && w'.watched <= Ruled(w'.rules)
    ensures w.watched == Ruled(w.rules) ==> w'.watched == Ruled(w'.rules)
  {
    AfterRuled(w.rules, Put(r));
    if !ok {
      AfterRuled(After(w.rules, Put(r)), Drop(r));
      if r.GVR() !in Ruled(w.rules) {
        FailedSetupLeavesUnruled(w.rules, r);
      }
    }
  }

  lemma StepKeepsWatched<G, N, S>(w: Watching<G, N, S>, w': Watching<G, N, S>, q: Request<G, N, S>)
    requires NoneEmpty(w.rules) && w.watched <= Ruled(w.rules) && Step(w, w', q)
    ensures NoneEmpty(w'.rules) && w'.watched <= Ruled(w'.rules)
    ensures !q.Shutdown? && w.watched == Ruled(w.rules) ==> w'.watched == Ruled(w'.rules)
  {
    match q
    case Setup(r, ok) => SetupKeepsWatched(w, w', r, ok);
    case Teardown(r) => AfterRuled(w.rules, Drop(r));
    case Shutdown =>
  }

  lemma {:induction false} RunAppends<G, N, S>(s: State<G, N, S>, a: seq<Call<G, N, S>>, b: seq<Call<G, N, S>>)
    ensures Run(s, a + b) == Run(Run(s, a), b)
  {
    if b == [] {
      assert a + b == a;
    } else {
      assert (a + b)[..|a + b| - 1] == a + b[..|b| - 1];
      RunAppends(s, a, b[..|b| - 1]);
    }
  }

  lemma StepCalls<G, N, S>(w: Watching<G, N, S>, w': Watching<G, N, S>, q: Request<G, N, S>)
    requires Step(w, w', q)
    ensures w'.rules == Run(w.rules, CallsOf(q))
  {
    if !q.Shutdown? {
      RunOne(w.rules, CallsOf(q)[0]);
      if q.Setup? && !q.ok {
        assert CallsOf(q) == [Put(q.rule)] + [Drop(q.rule)];
        RunAppends(w.rules, [Put(q.rule)], [Drop(q.rule)]);
        RunOne(After(w.rules, Put(q.rule)), Drop(q.rule));
      }
    }
  }

  lemma RunOne<G, N, S>(s: State<G, N, S>, call: Call<G, N, S>)
    ensures Run(s, [call]) == After(s, call)
  {
    assert [call][..0] == [];
    assert Run(s, []) == s;
  }

  /** At every point of every run the watched targets have rules; until the first Shutdown they are
      exactly the targets with rules in the plain map the calls build. */
  lemma {:induction false} WatchedAreRuled<G, N, S>(
      states: seq<Watching<G, N, S>>, requests: seq<Request<G, N, S>>, i: nat)
    requires IsRun(states, requests) && i < |states|
    ensures var m := Replay(map[], AllCalls(requests[..i]));
      var ruled := set k <- m :: k.0;
      && states[i].watched <= ruled
      && ((forall q <- requests[..i] :: !q.Shutdown?) ==> states[i].watched == ruled)
      && Stands(states[i].rules, m)
  {
    RunWatched(states, requests, i);
    RunCalls(states, requests, i);
    var m := Replay(map[], AllCalls(requests[..i]));
    CacheRefinesMap(states[0].rules, map[], AllCalls(requests[..i]));
    KeysAreRuled(states[i].rules.index, m);
  }

  lemma {:induction false} RunWatched<G, N, S>(states: seq<Watching<G, N, S>>, requests: seq<Request<G, N, S>>, i: nat)
    requires IsRun(states, requests) && i < |states|
    ensures NoneEmpty(states[i].rules) && states[i].watched <= Ruled(states[i].rules)
    ensures (forall q <- requests[..i] :: !q.Shutdown?) ==> states[i].watched == Ruled(states[i].rules)
  {
    if i > 0 {
      RunWatched(states, requests, i - 1);
      assert requests[..i] == requests[..i - 1] + [requests[i - 1]];
      StepKeepsWatched(states[i - 1], states[i], requests[i - 1]);
    }
  }

  lemma {:induction false} RunCalls<G, N, S>(states: seq<Watching<G, N, S>>, requests: seq<Request<G, N, S>>, i: nat)
    requires IsRun(states, requests) && i < |states|
    ensures states[i].rules == Run(states[0].rules, AllCalls(requests[..i]))
  {
    if i > 0 {
      RunCalls(states, requests, i - 1);
      assert requests[..i][..i - 1] == requests[..i - 1];
      StepCalls(states[i - 1], states[i], requests[i - 1]);
      RunAppends(states[0].rules, AllCalls(requests[..i - 1]), CallsOf(requests[i - 1]));
    }
  }

  // ----- rulesets that change their target

  /** No ruleset name is cached under two targets. */
  ghost predicate OnePerName<G, N, S>(m: RuleMap<G, N, S>) {
    forall k <- m, l <- m :: k.1 == l.1 ==> k == l
  }

  ghost predicate Allows<G, N, S>(allowed: RuleSetOf<G, N, S> -> bool, requests: seq<Request<G, N, S>>) {
    forall q <- requests :: !q.Shutdown? ==> allowed(q.rule)
  }

  /** Rulesets of one name share a target. */
  ghost predicate TargetsStay<G(!new), N(!new), S(!new)>(allowed: RuleSetOf<G, N, S> -> bool) {
    forall r, r' :: allowed(r) && allowed(r') && r.name == r'.name ==> r.GVR() == r'.GVR()
  }

  ghost predicate KeepsOnePerName<G(!new), N(!new), S(!new)>(allowed: RuleSetOf<G, N, S> -> bool) {
    forall requests :: Allows(allowed, requests) ==> OnePerName(Replay(map[], AllCalls(requests)))
  }

  /** Whatever is in the map was put there. */
  lemma {:induction false} ReplayKeys<G, N, S>(calls: seq<Call<G, N, S>>, k: (G, N)) returns (i: nat)
    requires k in Replay(map[], calls)
    ensures i < |calls| && KeyOf(calls[i].rule) == k
  {
    var last := calls[|calls| - 1];
    if KeyOf(last.rule) == k {
      i := |calls| - 1;
    } else {
      i := ReplayKeys(calls[..|calls| - 1], k);
    }
  }

  lemma {:induction false} CallsAreAllowed<G, N, S>(
    allowed: RuleSetOf<G, N, S> -> bool, requests: seq<Request<G, N, S>>, call: Call<G, N, S>)
    requires Allows(allowed, requests) && call in AllCalls(requests)
    ensures allowed(call.rule)
  {
    var front, last := requests[..|requests| - 1], requests[|requests| - 1];
    if call in CallsOf(last) {
      assert last in requests;
    } else {
      assert Allows(allowed, front);
      CallsAreAllowed(allowed, front, call);
    }
  }

  lemma {:induction false} TwoSetups<G, N, S>(r: RuleSetOf<G, N, S>, r': RuleSetOf<G, N, S>)
    ensures AllCalls([Setup(r, true), Setup(r', true)]) == [Put(r), Put(r')]
    ensures AllCalls([Setup(r, true), Setup(r', true), Teardown(r')]) == [Put(r), Put(r'), Drop(r')]
  {
    var one, two := [Setup(r, true)], [Setup(r, true), Setup(r', true)];
    assert one[..0] == [] && AllCalls(one) == [Put(r)];
    assert two[..1] == one && AllCalls(two) == [Put(r), Put(r')];
    assert [Setup(r, true), Setup(r', true), Teardown(r')][..2] == two;
  }

  /** Setting up a ruleset with a new target leaves its entry under the old one, and so does tearing it
      down: afterwards the old target is still watched and lists a ruleset of that name. */
  lemma RetargetedStays<G, N, S>(states: seq<Watching<G, N, S>>, r: RuleSetOf<G, N, S>, r': RuleSetOf<G, N, S>)
    requires r.name == r'.name && r.GVR() != r'.GVR()
    requires IsRun(states, [Setup(r, true), Setup(r', true), Teardown(r')])
    ensures r.GVR() in states[3].watched && r in Get(states[3].rules.index, r.GVR())
  {
    var requests := [Setup(r, true), Setup(r', true), Teardown(r')];
    assert requests[..3] == requests;
    WatchedAreRuled(states, requests, 3);
    TwoSetups(r, r');
    var m := Replay(map[], AllCalls(requests));
    RetargetedIsCached(r, r');
    assert Lists(m, r.GVR(), states[3].rules.index[r.GVR()]) && m[KeyOf(r)] == r;
  }

  lemma RetargetedIsCached<G, N, S>(r: RuleSetOf<G, N, S>, r': RuleSetOf<G, N, S>)
    requires r.name == r'.name && r.GVR() != r'.GVR()
    ensures Replay(map[], [Put(r), Put(r')]) == map[KeyOf(r) := r, KeyOf(r') := r']
    ensures Replay(map[], [Put(r), Put(r'), Drop(r')]) == map[KeyOf(r) := r]
  {
    assert [Put(r)][..0] == [] && Replay(map[], [Put(r)]) == map[KeyOf(r) := r];
    assert [Put(r), Put(r')][..1] == [Put(r)];
    assert [Put(r), Put(r'), Drop(r')][..2] == [Put(r), Put(r')];
  }

  /** The rulesets that may be set up and torn down are, in every sequence of requests, cached under one
      target each if and only if none of them comes with two targets. */
  lemma TargetsDecideNames<G(!new), N(!new), S(!new)>(allowed: RuleSetOf<G, N, S> -> bool)
    ensures KeepsOnePerName(allowed) <==> TargetsStay(allowed)
  {
    if TargetsStay(allowed) {
      forall requests | Allows(allowed, requests)
        ensures OnePerName(Replay(map[], AllCalls(requests)))
      {
        StayingTargetsKeep(allowed, requests);
      }
    }
    if KeepsOnePerName(allowed) {
      forall r, r' | allowed(r) && allowed(r') && r.name == r'.name
        ensures r.GVR() == r'.GVR()
      {
        NamesKeepTarget(allowed, r, r');
      }
    }
  }

  lemma StayingTargetsKeep<G(!new), N(!new), S(!new)>(
    allowed: RuleSetOf<G, N, S> -> bool, requests: seq<Request<G, N, S>>)
    requires TargetsStay(allowed) && Allows(allowed, requests)
    ensures OnePerName(Replay(map[], AllCalls(requests)))
  {
    var calls := AllCalls(requests);
    var m := Replay(map[], calls);
    forall k, l | k in m && l in m && k.1 == l.1
      ensures k == l
    {
      var i := ReplayKeys(calls, k);
      var j := ReplayKeys(calls, l);
      CallsAreAllowed(allowed, requests, calls[i]);
      CallsAreAllowed(allowed, requests, calls[j]);
    }
  }

  lemma NamesKeepTarget<G(!new), N(!new), S(!new)>(
    allowed: RuleSetOf<G, N, S> -> bool, r: RuleSetOf<G, N, S>, r': RuleSetOf<G, N, S>)
    requires KeepsOnePerName(allowed) && allowed(r) && allowed(r') && r.name == r'.name
    ensures r.GVR() == r'.GVR()
  {
    if r.GVR() != r'.GVR() {
      var requests := [Setup(r, true), Setup(r', true)];
      assert Allows(allowed, requests);
      TwoSetups(r, r');
      RetargetedIsCached(r, r');
    }
  }
}
