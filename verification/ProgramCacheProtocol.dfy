/** internal/evaluator/program_cache.go: GetOrCompile by any number of threads, one lock or map
    operation at a time. Threads are numbered, and may call again once they have returned. */
module ProgramCacheProtocol {
  import opened Prelude

  /** Where a thread is inside GetOrCompile. */
  datatype Point<P> =
    | Called
    | ReadLocked
    | Looked(hit: Option<P>)
    | Missed
    | WriteLocked
    | Compiling
    | Unlocking(result: Option<P>)
    | Returned(result: Option<P>)

  datatype Thread<E, P> = Thread(expression: E, at: Point<P>)

  /** The cache, its read-write lock, and how often each expression was compiled successfully. */
  datatype State<E(==), P> = State(
    programs: map<E, P>, readers: set<nat>, writer: Option<nat>, threads: map<nat, Thread<E, P>>, compiled: multiset<E>)

  datatype Action<E> = Call(t: nat, expression: E) | Move(t: nat)

  predicate Reads<P>(at: Point<P>) {
    at.ReadLocked? || at.Looked?
  }

  predicate Writes<P>(at: Point<P>) {
    at.WriteLocked? || at.Compiling? || at.Unlocking?
  }

  /** Whether a thread can move: all but the two lock acquisitions always can. */
  predicate Enabled<E, P>(s: State<E, P>, t: nat) {
    t in s.threads &&
    match s.threads[t].at
    case Called => s.writer.None?
    case Missed => s.writer.None? && s.readers == {}
    case Returned(_) => false
    case _ => true
  }

  function At<E(==), P>(s: State<E, P>, t: nat, at: Point<P>): State<E, P>
    requires t in s.threads
  {
    s.(threads := s.threads[t := s.threads[t].(at := at)])
  }

  /** The next step of an enabled thread. */
  function Next<E(==), P>(compile: E -> Option<P>, s: State<E, P>, t: nat): State<E, P>
    requires Enabled(s, t)
  {
    var e := s.threads[t].expression;
    var cached := if e in s.programs then Some(s.programs[e]) else None;
    match s.threads[t].at
    case Called => At(s, t, ReadLocked).(readers := s.readers + {t})
    case ReadLocked => At(s, t, Looked(cached))
    case Looked(hit) => At(s, t, if hit.Some? then Returned(hit) else Missed).(readers := s.readers - {t})
    case Missed => At(s, t, WriteLocked).(writer := Some(t))
    case WriteLocked => At(s, t, if cached.Some? then Unlocking(cached) else Compiling)
    case Compiling =>
      var result := compile(e);
      if result.None? then At(s, t, Unlocking(None))
      else At(s, t, Unlocking(result)).(programs := s.programs[e := result.value], compiled := s.compiled + multiset{e})
    case Unlocking(result) => At(s, t, Returned(result)).(writer := None)
  }

  ghost predicate Step<E, P>(compile: E -> Option<P>, s: State<E, P>, s': State<E, P>, a: Action<E>) {
    match a
    case Call(t, e) =>
      (t in s.threads ==> s.threads[t].at.Returned?) && s' == s.(threads := s.threads[t := Thread(e, Called)])
    case Move(t) => Enabled(s, t) && s' == Next(compile, s, t)
  }

  ghost predicate IsRun<E, P>(compile: E -> Option<P>, states: seq<State<E, P>>, actions: seq<Action<E>>) {
    && |states| == |actions| + 1
    && states[0] == State(map[], {}, None, map[], multiset{})
    && forall i {:trigger actions[i]} :: 0 <= i < |actions| ==> Step(compile, states[i], states[i + 1], actions[i])
  }

  /** What a thread knows: a result is the compilation of its expression, a hit a successful one,
      and while it compiles the expression is not cached. */
  ghost predicate Honest<E, P>(compile: E -> Option<P>, s: State<E, P>, th: Thread<E, P>) {
    match th.at
    case Looked(hit) => hit.Some? ==> hit == compile(th.expression)
    case Unlocking(result) => result == compile(th.expression)
    case Returned(result) => result == compile(th.expression)
    case Compiling => th.expression !in s.programs
    case _ => true
  }

  ghost predicate LocksHeld<E, P>(s: State<E, P>) {
    && (forall t :: t in s.readers <==> t in s.threads && Reads(s.threads[t].at))
    && (forall t :: s.writer == Some(t) <==> t in s.threads && Writes(s.threads[t].at))
    && (s.writer.Some? ==> s.readers == {})
  }

  ghost predicate Invariant<E(!new), P>(compile: E -> Option<P>, s: State<E, P>) {
    && LocksHeld(s)
    && (forall e <- s.programs :: compile(e) == Some(s.programs[e]))
    && (forall e :: s.compiled[e] == if e in s.programs then 1 else 0)
    && (forall t <- s.threads :: Honest(compile, s, s.threads[t]))
  }

  lemma MoveKeepsLocks<E, P>(compile: E -> Option<P>, s: State<E, P>, t: nat)
    requires LocksHeld(s) && Enabled(s, t)
    ensures LocksHeld(Next(compile, s, t))
  {
    var s' := Next(compile, s, t);
    assert s'.threads.Keys == s.threads.Keys && forall u <- s.threads :: u != t ==> s'.threads[u] == s.threads[u];
    assert t in s.readers <==> Reads(s.threads[t].at);
    assert s.writer == Some(t) <==> Writes(s.threads[t].at);
  }

  lemma MoveKeepsHonest<E, P>(compile: E -> Option<P>, s: State<E, P>, t: nat)
    requires LocksHeld(s) && Enabled(s, t)
    requires (forall e <- s.programs :: compile(e) == Some(s.programs[e])) &&
      (forall u <- s.threads :: Honest(compile, s, s.threads[u]))
    ensures var s' := Next(compile, s, t);
      && (forall e <- s'.programs :: compile(e) == Some(s'.programs[e]))
      && (forall u <- s'.threads :: Honest(compile, s', s'.threads[u]))
  {
    assert Honest(compile, s, s.threads[t]);
    var s' := Next(compile, s, t);
    forall u | u in s'.threads && u != t
      ensures Honest(compile, s', s'.threads[u])
    {
      assert s'.threads[u] == s.threads[u] && Honest(compile, s, s.threads[u]);
      assert s.writer == Some(t) <==> Writes(s.threads[t].at);
      assert s.writer == Some(u) <==> Writes(s.threads[u].at);
    }
  }

  lemma MoveKeepsInvariant<E(!new), P>(compile: E -> Option<P>, s: State<E, P>, t: nat)
    requires Invariant(compile, s) && Enabled(s, t)
    ensures Invariant(compile, Next(compile, s, t))
  {
    MoveKeepsLocks(compile, s, t);
    MoveKeepsHonest(compile, s, t);
    assert Honest(compile, s, s.threads[t]);
  }

  /** In every state of every interleaving: cached programs are the compilations of their keys, each
      expression has been compiled successfully once if it is cached and never otherwise, and
      whatever a thread returns is what compiling its expression gives. */
  lemma {:induction false} CacheIsCorrect<E(!new), P>(
    compile: E -> Option<P>, states: seq<State<E, P>>, actions: seq<Action<E>>, i: nat)
    requires IsRun(compile, states, actions) && i < |states|
    ensures Invariant(compile, states[i])
  {
    if i > 0 {
      CacheIsCorrect(compile, states, actions, i - 1);
      var s, s', a := states[i - 1], states[i], actions[i - 1];
      match a
      case Call(t, e) =>
        forall u | u in s'.threads
          ensures Honest(compile, s', s'.threads[u])
        {
          assert u != t ==> Honest(compile, s, s.threads[u]);
        }
      case Move(t) => MoveKeepsInvariant(compile, s, t);
    }
  }

  /** No deadlock: while a call has not returned, some thread can move. */
  lemma SomeThreadMoves<E(!new), P>(compile: E -> Option<P>, s: State<E, P>, t: nat) returns (u: nat)
    requires Invariant(compile, s) && t in s.threads && !s.threads[t].at.Returned?
    ensures Enabled(s, u)
  {
    if s.writer.Some? {
      u := s.writer.value;
      assert s.writer == Some(u);
    } else if r :| r in s.readers {
      u := r;
    } else {
      u := t;
    }
  }
}
