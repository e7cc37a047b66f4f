/** The identity of an IFO across detections: reuse within the debounce threshold, a fresh IFO past
    it. First for the IFOs that the desired labels select, whatever labels came before; then for
    labels that stay fixed. */
module LifecycleDebounce {
  import opened Api
  import opened Evaluator
  import opened Operations
  import opened Lifecycle
  import opened LifecycleSafety
  import opened LifecycleOutcome
  import opened LifecycleLabels

  // ----- what the desired labels select

  ghost predicate Selected(labels: Labels, s: Store, n: Name) {
    n in s && Matches(labels, s[n].labels)
  }

  /** The same IFOs are selected, created when they were. */
  ghost predicate SameShape(labels: Labels, s: Store, s': Store) {
    && (forall a :: Selected(labels, s', a) <==> Selected(labels, s, a))
    && (forall a :: Selected(labels, s, a) ==> s'[a].created == s[a].created)
  }

  /** The same IFOs are selected, in the same state. */
  ghost predicate SameSelected(labels: Labels, s: Store, s': Store) {
    SameShape(labels, s, s') && forall a :: Selected(labels, s, a) ==> s'[a] == s[a]
  }

  lemma SameNewest(labels: Labels, s: Store, s': Store)
    requires SameShape(labels, s, s')
    ensures forall n :: Newest(s', labels, n) <==> Newest(s, labels, n)
  {
    forall n
      ensures Newest(s', labels, n) <==> Newest(s, labels, n)
    {
      assert Selected(labels, s', n) <==> Selected(labels, s, n);
      assert forall m :: m in s' && Matches(labels, s'[m].labels) <==> Selected(labels, s', m);
      assert forall m :: m in s && Matches(labels, s[m].labels) <==> Selected(labels, s, m);
    }
  }

  /** Some IFO is selected, and no newest one is past the threshold. */
  ghost predicate AllLive(c: Context, labels: Labels, s: Store) {
    (exists m :: Selected(labels, s, m)) && forall m :: Newest(s, labels, m) ==> !c.Past(s[m])
  }

  ghost predicate AllPast(c: Context, labels: Labels, s: Store) {
    forall m :: Newest(s, labels, m) ==> c.Past(s[m])
  }

  /** Of the selected IFOs only newest ones have changed, and only by a detection. */
  ghost predicate OnlyRedetected(c: Context, d: Ifo, s: Store, s': Store) {
    && SameShape(d.labels, s, s')
    && forall a :: Selected(d.labels, s, a) ==>
      s'[a] == s[a] || (Newest(s, d.labels, a) && s'[a] == c.Redetected(s[a], d))
  }

  /** The selected IFOs are the same ones: n, one of the newest, is detected, and of the others at
      most newest ones are detected as well. */
  ghost predicate Reused(c: Context, d: Ifo, s: Store, s': Store, n: Name) {
    OnlyRedetected(c, d, s, s') && Newest(s, d.labels, n) && s'[n] == c.Redetected(s[n], d)
  }

  /** One more IFO is selected, created and detected now; the others are as they were. */
  ghost predicate Created(c: Context, d: Ifo, w: World, w': World, n: Name) {
    && w.next <= n < w'.next && DetectedAs(c, w'.store, d, n)
    && w'.store[n].labels == d.labels && w'.store[n].created == c.now
    && (forall a :: Selected(d.labels, w'.store, a) <==> Selected(d.labels, w.store, a) || a == n)
    && (forall a :: Selected(d.labels, w.store, a) ==> a != n && w'.store[a] == w.store[a])
  }

  // ----- one detect step

  /** All that one event desires of an operation it desires with the same labels. */
  ghost predicate Agree(desired: seq<Ifo>) {
    forall d <- desired, x <- desired :: Key(x) == Key(d) ==> x.labels == d.labels
  }

  ghost predicate Seen(desired: seq<Ifo>, d: Ifo, i: nat)
    requires i <= |desired|
  {
    exists k :: 0 <= k < i && Key(desired[k]) == Key(d)
  }

  lemma SeenNext(desired: seq<Ifo>, d: Ifo, i: nat)
    requires 0 < i <= |desired|
    ensures Seen(desired, d, i) <==> Seen(desired, d, i - 1) || Key(desired[i - 1]) == Key(d)
  {
  }

  /** A step for another operation. */
  lemma OtherStep(c: Context, d: Ifo, x: Ifo, w: World, w': World)
    requires Good(w, c.now) && Indexed(d) && Indexed(x) && Key(x) != Key(d) && DetectStep(c, x, true, w, w')
    ensures SameSelected(d.labels, w.store, w'.store) && w.next <= w'.next
  {
    IndexedSelectsOwn(d, w.store);
    var t := DetectTouchesOne(c, x, true, w, w');
    if t !in w.store {
      assert Indexed(w'.store[t]) by {
        DetectKeepsGood(c, x, true, w, w') by { IndexedSelectsOwn(x, w.store); }
      }
      if Matches(d.labels, w'.store[t].labels) {
        MatchIsSameKey(d, w'.store[t]);
      }
    }
  }

  /** A step for the operation itself reuses a newest IFO or creates one. */
  lemma OwnStep(c: Context, d: Ifo, x: Ifo, w: World, w': World) returns (t: Name)
    requires Timely(w, c.now) && Key(x) == Key(d) && x.labels == d.labels && DetectStep(c, x, true, w, w')
    ensures
      || (Newest(w.store, d.labels, t) && !c.Past(w.store[t]) &&
           w' == w.(store := w.store[t := c.Redetected(w.store[t], d)]))
      || (NeedsFresh(c, d, w.store) && t == w.next && t !in w.store &&
           w' == World(w.store[t := c.Redetected(c.Created(x, t), d)], t + 1))
  {
    assert w.next !in w.store;
    if n :| Reuses(c, x, w.store, n) && w' == w.(store := w.store[n := c.Redetected(w.store[n], x)]) {
      t := n;
    } else {
      t := w.next;
    }
  }

  lemma NoneNeedsFresh(c: Context, d: Ifo, s: Store)
    requires AllLive(c, d.labels, s)
    ensures !NeedsFresh(c, d, s)
  {
    var m :| Selected(d.labels, s, m);
  }

  /** While all newest IFOs are live one of them is detected. */
  lemma LiveStep(c: Context, d: Ifo, x: Ifo, w: World, w': World) returns (t: Name)
    requires Timely(w, c.now) && Key(x) == Key(d) && x.labels == d.labels && DetectStep(c, x, true, w, w')
    requires AllLive(c, d.labels, w.store)
    ensures Reused(c, d, w.store, w'.store, t) && w'.next == w.next
  {
    NoneNeedsFresh(c, d, w.store);
    t := OwnStep(c, d, x, w, w');
    var s, s' := w.store, w'.store;
    forall a
      ensures Selected(d.labels, s', a) <==> Selected(d.labels, s, a)
    {
      assert a != t ==> (a in s' <==> a in s) && (a in s ==> s'[a] == s[a]);
    }
  }

  lemma LiveStays(c: Context, d: Ifo, s: Store, s': Store)
    requires AllLive(c, d.labels, s) && OnlyRedetected(c, d, s, s')
    ensures AllLive(c, d.labels, s')
  {
    SameNewest(d.labels, s, s');
    var m :| Selected(d.labels, s, m);
    assert Selected(d.labels, s', m);
    forall n | Newest(s', d.labels, n)
      ensures !c.Past(s'[n])
    {
      assert Newest(s, d.labels, n) && Selected(d.labels, s, n);
    }
  }

  lemma OnlyRedetectedTwice(c: Context, d: Ifo, s: Store, s': Store, s'': Store)
    requires OnlyRedetected(c, d, s, s') && OnlyRedetected(c, d, s', s'')
    ensures OnlyRedetected(c, d, s, s'')
  {
    SameNewest(d.labels, s, s');
    forall a | Selected(d.labels, s, a)
      ensures s''[a] == s[a] || (Newest(s, d.labels, a) && s''[a] == c.Redetected(s[a], d))
    {
      assert Selected(d.labels, s', a);
    }
  }

  // ----- a detection pass while the newest IFOs are live

  lemma {:induction false} TraceReuses(c: Context, desired: seq<Ifo>, d: Ifo, trace: seq<World>, i: nat)
    returns (t: Name)
    requires DetectionPass(c, desired, true, trace) && i < |trace| && d in desired && Agree(desired)
    requires Good(trace[0], c.now) && (forall x <- desired :: Indexed(x)) && AllLive(c, d.labels, trace[0].store)
    ensures OnlyRedetected(c, d, trace[0].store, trace[i].store)
    ensures Seen(desired, d, i) ==> Reused(c, d, trace[0].store, trace[i].store, t)
  {
    t := 0;
    if i > 0 {
      t := TraceReuses(c, desired, d, trace, i - 1);
      TraceKeepsGood(c, desired, true, trace, i - 1);
      SeenNext(desired, d, i);
      t := NextReuses(c, d, desired[i - 1], trace[0].store, trace[i - 1], trace[i], Seen(desired, d, i - 1), t);
    }
  }

  lemma NextReuses(c: Context, d: Ifo, x: Ifo, s0: Store, w: World, w': World, seen: bool, before: Name)
    returns (t: Name)
    requires Good(w, c.now) && Indexed(d) && Indexed(x) && (Key(x) == Key(d) ==> x.labels == d.labels)
    requires AllLive(c, d.labels, s0) && OnlyRedetected(c, d, s0, w.store) && DetectStep(c, x, true, w, w')
    requires seen ==> Reused(c, d, s0, w.store, before)
    ensures OnlyRedetected(c, d, s0, w'.store)
    ensures seen || Key(x) == Key(d) ==> Reused(c, d, s0, w'.store, t)
  {
    t := before;
    SameNewest(d.labels, s0, w.store);
    if Key(x) == Key(d) {
      LiveStays(c, d, s0, w.store);
      t := LiveStep(c, d, x, w, w');
    } else {
      OtherStep(c, d, x, w, w');
    }
    OnlyRedetectedTwice(c, d, s0, w.store, w'.store);
    assert Newest(s0, d.labels, t) ==> Selected(d.labels, s0, t) && Selected(d.labels, w.store, t);
  }

  // ----- a detection pass when the newest IFOs are past the threshold

  /** What is selected was created before the newest one completed. */
  lemma PastAreOlder(c: Context, d: Ifo, w: World)
    requires c.config.threshold > 0 && Timely(w, c.now) && AllPast(c, d.labels, w.store)
    ensures forall a :: Selected(d.labels, w.store, a) ==> w.store[a].created < c.now
  {
    forall a | Selected(d.labels, w.store, a)
      ensures w.store[a].created < c.now
    {
      var m := NewestExists(w.store, d.labels, a);
      assert c.Past(w.store[m]) && GoodIfo(m, w.store[m], w.next, c.now);
    }
  }

  lemma PastStep(c: Context, d: Ifo, x: Ifo, w: World, w': World)
    requires c.config.threshold > 0 && Timely(w, c.now) && Indexed(d)
    requires Key(x) == Key(d) && x.labels == d.labels && DetectStep(c, x, true, w, w')
    requires AllPast(c, d.labels, w.store)
    ensures Created(c, d, w, w', w.next)
  {
    var t := OwnStep(c, d, x, w, w');
    var s, s' := w.store, w'.store;
    forall a
      ensures Selected(d.labels, s', a) <==> Selected(d.labels, s, a) || a == t
    {
      assert a != t ==> (a in s' <==> a in s) && (a in s ==> s'[a] == s[a]);
    }
  }

  /** The IFO created is the sole newest one. */
  lemma CreatedIsNewest(c: Context, d: Ifo, w: World, w': World, t: Name)
    requires Created(c, d, w, w', t) && forall a :: Selected(d.labels, w.store, a) ==> w.store[a].created < c.now
    ensures AllLive(c, d.labels, w'.store)
    ensures forall m :: Newest(w'.store, d.labels, m) ==> m == t
  {
    assert Selected(d.labels, w'.store, t);
    forall m | Newest(w'.store, d.labels, m)
      ensures m == t
    {
      assert Selected(d.labels, w'.store, m);
    }
  }

  lemma {:induction false} TraceCreatesOne(c: Context, desired: seq<Ifo>, d: Ifo, trace: seq<World>, i: nat)
    returns (t: Name)
    requires DetectionPass(c, desired, true, trace) && i < |trace| && d in desired && Agree(desired)
    requires Good(trace[0], c.now) && (forall x <- desired :: Indexed(x)) && AllPast(c, d.labels, trace[0].store)
    requires c.config.threshold > 0
    ensures if Seen(desired, d, i) then Created(c, d, trace[0], trace[i], t)
      else SameSelected(d.labels, trace[0].store, trace[i].store) && trace[0].next <= trace[i].next
  {
    t := 0;
    if i > 0 {
      t := TraceCreatesOne(c, desired, d, trace, i - 1);
      TraceKeepsGood(c, desired, true, trace, i - 1);
      SeenNext(desired, d, i);
      PastAreOlder(c, d, trace[0]);
      if Seen(desired, d, i - 1) {
        StaysCreated(c, d, desired[i - 1], trace[0], trace[i - 1], trace[i], t);
      } else {
        t := NextCreates(c, d, desired[i - 1], trace[0], trace[i - 1], trace[i]);
      }
    }
  }

  lemma StaysCreated(c: Context, d: Ifo, x: Ifo, w0: World, w: World, w': World, t: Name)
    requires Good(w, c.now) && Indexed(d) && Indexed(x) && (Key(x) == Key(d) ==> x.labels == d.labels)
    requires Created(c, d, w0, w, t) && DetectStep(c, x, true, w, w')
    requires forall a :: Selected(d.labels, w0.store, a) ==> w0.store[a].created < c.now
    ensures Created(c, d, w0, w', t)
  {
    CreatedIsNewest(c, d, w0, w, t);
    assert Selected(d.labels, w.store, t);
    if Key(x) == Key(d) {
      var u := LiveStep(c, d, x, w, w');
      assert Selected(d.labels, w.store, u);
    } else {
      OtherStep(c, d, x, w, w');
    }
    assert Selected(d.labels, w'.store, t);
  }

  lemma NextCreates(c: Context, d: Ifo, x: Ifo, w0: World, w: World, w': World) returns (t: Name)
    requires c.config.threshold > 0 && Good(w, c.now) && Indexed(d) && Indexed(x)
    requires Key(x) == Key(d) ==> x.labels == d.labels
    requires SameSelected(d.labels, w0.store, w.store) && w0.next <= w.next && DetectStep(c, x, true, w, w')
    requires AllPast(c, d.labels, w0.store)
    ensures if Key(x) == Key(d) then Created(c, d, w0, w', t)
      else SameSelected(d.labels, w0.store, w'.store) && w0.next <= w'.next
  {
    t := w.next;
    SameNewest(d.labels, w0.store, w.store);
    if Key(x) == Key(d) {
      forall m | Newest(w.store, d.labels, m)
        ensures c.Past(w.store[m])
      {
        assert Newest(w0.store, d.labels, m) && Selected(d.labels, w0.store, m);
      }
      PastStep(c, d, x, w, w');
    } else {
      OtherStep(c, d, x, w, w');
    }
  }

  // ----- the identity of what is detected

  /** The completion pass leaves alone what is detected. */
  lemma CompletionSpares(c: Context, desired: seq<Ifo>, d: Ifo, clean: bool, s: Store, s': Store)
    requires d in desired && Indexed(d) && AllIndexed(s) && CompletionPass(c, OperationNames(desired), clean, s, s')
    ensures SameSelected(d.labels, s, s')
  {
    forall n | Selected(d.labels, s, n)
      ensures s[n].spec.operation in OperationNames(desired)
    {
      MatchIsSameKey(d, s[n]);
    }
    forall n
      ensures Selected(d.labels, s', n) <==> Selected(d.labels, s, n)
    {
      assert n in s' ==> n in s && s'[n].labels == s[n].labels;
    }
  }

  /** A clean event with one set of labels per operation: what becomes of the IFOs that the labels of
      one desired operation select. */
  ghost predicate Debounced(c: Context, d: Ifo, w: World, w': World, n: Name) {
    && (AllLive(c, d.labels, w.store) ==> Reused(c, d, w.store, w'.store, n))
    && (c.config.threshold > 0 && AllPast(c, d.labels, w.store) ==> Created(c, d, w, w', n))
  }

  lemma PassesDebounce(c: Context, desired: seq<Ifo>, d: Ifo, w: World, trace: seq<World>) returns (n: Name)
    requires Good(w, c.now) && d in desired && Agree(desired) && forall x <- desired :: Indexed(x)
    requires DetectionPass(c, desired, true, trace) && trace[0].next == w.next
    requires CompletionPass(c, OperationNames(desired), true, w.store, trace[0].store)
    ensures Debounced(c, d, w, trace[|trace| - 1], n)
  {
    n := 0;
    CompletionSpares(c, desired, d, true, w.store, trace[0].store);
    CompletionKeepsGood(c, OperationNames(desired), true, w, trace[0]);
    SameStatus(c, d, w.store, trace[0].store);
    DesiredIsSeen(desired, d);
    if AllLive(c, d.labels, w.store) {
      n := TraceReuses(c, desired, d, trace, |desired|);
      ReusedSinceCompletion(c, d, w.store, trace[0].store, trace[|desired|].store, n);
    } else if c.config.threshold > 0 && AllPast(c, d.labels, w.store) {
      n := TraceCreatesOne(c, desired, d, trace, |desired|);
      CreatedSinceCompletion(c, d, w, trace[0], trace[|desired|], n);
    }
    NotLiveAndPast(c, d.labels, w.store);
  }

  lemma DesiredIsSeen(desired: seq<Ifo>, d: Ifo)
    requires d in desired
    ensures Seen(desired, d, |desired|)
  {
    var k :| 0 <= k < |desired| && desired[k] == d;
  }

  lemma NotLiveAndPast(c: Context, labels: Labels, s: Store)
    ensures !(AllLive(c, labels, s) && AllPast(c, labels, s))
  {
    if m :| Selected(labels, s, m) {
      var n := NewestExists(s, labels, m);
    }
  }

  lemma ReusedSinceCompletion(c: Context, d: Ifo, s: Store, s0: Store, s': Store, n: Name)
    requires SameSelected(d.labels, s, s0) && Reused(c, d, s0, s', n)
    ensures Reused(c, d, s, s', n)
  {
    SameStatus(c, d, s, s0);
    OnlyRedetectedTwice(c, d, s, s0, s');
    assert Selected(d.labels, s, n);
  }

  lemma CreatedSinceCompletion(c: Context, d: Ifo, w: World, w0: World, w': World, n: Name)
    requires SameSelected(d.labels, w.store, w0.store) && w.next == w0.next && Created(c, d, w0, w', n)
    ensures Created(c, d, w, w', n)
  {
  }

  lemma SameStatus(c: Context, d: Ifo, s: Store, s': Store)
    requires SameSelected(d.labels, s, s')
    ensures forall n :: Newest(s', d.labels, n) <==> Newest(s, d.labels, n)
    ensures AllLive(c, d.labels, s) ==> AllLive(c, d.labels, s')
    ensures AllPast(c, d.labels, s) ==> AllPast(c, d.labels, s')
    ensures OnlyRedetected(c, d, s, s')
  {
    SameNewest(d.labels, s, s');
    forall n | Newest(s, d.labels, n)
      ensures s'[n] == s[n]
    {
      assert Selected(d.labels, s, n);
    }
    if m :| Selected(d.labels, s, m) {
      assert Selected(d.labels, s', m);
    }
  }

  /** In any store, whatever labels its IFOs were created with: a detection reuses one of the newest IFOs
      that its labels select, if these are not past the threshold, and touches no other selected IFO
      that is not among the newest. When all newest ones are past a positive threshold, or none is
      selected, it creates exactly one and leaves the others as they are. */
  lemma DebounceIdentity(config: Config, cel: Cel, e: Event, w: World, w': World, before: Time, d: Ifo)
    returns (n: Name)
    requires e.Handled? && e.clean && NamesDiffer(e.ruleSets) && d in DesiredBy(cel, e)
    requires Good(w, before) && before <= e.now && Step(config, cel, e, w, w')
    ensures Debounced(ContextOf(config, e), d, w, w', n)
  {
    var trace := CleanPasses(config, cel, e, w, w');
    DesiredAgree(cel, e);
    n := PassesDebounce(ContextOf(config, e), DesiredBy(cel, e), d, w, trace);
  }

  lemma DesiredAgree(cel: Cel, e: Event)
    requires e.Handled? && NamesDiffer(e.ruleSets)
    ensures Agree(DesiredBy(cel, e))
  {
    forall d | d in DesiredBy(cel, e)
      ensures forall x <- DesiredBy(cel, e) :: Key(x) == Key(d) ==> x.labels == d.labels
    {
      AllAgree(cel, e, d);
    }
  }

  /** A sole newest IFO that is not past the threshold keeps its identity: nothing else selected changes. */
  lemma SoleNewestIsReused(c: Context, d: Ifo, w: World, w': World, n: Name, m: Name)
    requires Debounced(c, d, w, w', n) && Newest(w.store, d.labels, m) && !c.Past(w.store[m])
    requires forall a :: Newest(w.store, d.labels, a) ==> a == m
    ensures forall a :: Selected(d.labels, w'.store, a) <==> Selected(d.labels, w.store, a)
    ensures forall a :: Selected(d.labels, w.store, a) ==>
      w'.store[a] == if a == m then c.Redetected(w.store[m], d) else w.store[a]
  {
    assert Selected(d.labels, w.store, m);
  }

  // ----- fixed labels

  ghost predicate Carries(labels: Labels, s: Store, n: Name) {
    n in s && s[n].labels == labels
  }

  ghost predicate LiveTwin(c: Context, labels: Labels, s: Store, n: Name) {
    Carries(labels, s, n) && !c.Past(s[n])
  }

  /** The IFOs with given labels are the same ones, and n is live among them before and after. */
  ghost predicate Kept(c: Context, labels: Labels, s: Store, s': Store, n: Name) {
    && LiveTwin(c, labels, s, n) && LiveTwin(c, labels, s', n) && s'[n] == s[n].(status := s'[n].status)
    && (forall a :: Carries(labels, s', a) <==> Carries(labels, s, a))
    && (forall a :: Carries(labels, s, a) && a != n ==> s'[a] == s[a])
  }

  /** There is one more IFO with the labels, live and created now; the others are as they were. */
  ghost predicate Renewed(c: Context, labels: Labels, w: World, w': World, n: Name) {
    && w.next <= n < w'.next && LiveTwin(c, labels, w'.store, n) && w'.store[n].created == c.now
    && (forall a :: Carries(labels, w'.store, a) <==> Carries(labels, w.store, a) || a == n)
    && (forall a :: Carries(labels, w.store, a) ==> a != n && w'.store[a] == w.store[a])
  }

  /** The only live IFO with the desired labels is the one a detection finds. */
  lemma LiveIsNewest(c: Context, d: Ifo, w: World, n: Name)
    requires Timely(w, c.now) && Ladder(c.config.threshold, w.store) && SelectsTwins(d, w.store)
    requires LiveTwin(c, d.labels, w.store, n)
    ensures Newest(w.store, d.labels, n)
    ensures forall m {:trigger Newest(w.store, d.labels, m)} :: Newest(w.store, d.labels, m) ==> m == n
  {
    var s := w.store;
    forall m | m in s && Matches(d.labels, s[m].labels) && m != n
      ensures s[m].created < s[n].created
    {
      assert Twin(s, m, n) && Twin(s, n, m);
      assert GoodIfo(m, s[m], w.next, c.now);
    }
  }

  lemma SelectedCarry(d: Ifo, s: Store)
    requires SelectsTwins(d, s)
    ensures forall a :: Selected(d.labels, s, a) <==> Carries(d.labels, s, a)
  {
  }

  /** With labels fixed per operation and a positive threshold there are no ties: a detection keeps the one
      live IFO with its labels, and creates exactly one when there is none. */
  lemma FixedDebounce(
    config: Config, cel: Cel, labelsOf: OperationKey -> Labels, e: Event, w: World, w': World, before: Time, d: Ifo)
    returns (n: Name)
    requires e.Handled? && e.clean && d in DesiredBy(cel, e) && LabelsFixed(cel, labelsOf, e)
    requires config.threshold > 0 && before <= e.now && Invariant(config.threshold, labelsOf, w, before)
    requires Step(config, cel, e, w, w')
    ensures var c := ContextOf(config, e);
      if exists m :: LiveTwin(c, d.labels, w.store, m)
      then Kept(c, d.labels, w.store, w'.store, n)
      else Renewed(c, d.labels, w, w', n)
  {
    var c := ContextOf(config, e);
    var trace := CleanPasses(config, cel, e, w, w');
    assert Good(w, c.now) && Invariant(config.threshold, labelsOf, w, c.now);
    n := PassesDebounce(c, DesiredBy(cel, e), d, w, trace);
    StepKeepsInvariant(config, cel, labelsOf, e, w, w', before);
    FixedLabelsSelectTwins(labelsOf, d, w.store);
    FixedLabelsSelectTwins(labelsOf, d, w'.store);
    n := DebouncedTwins(c, d, w, w', n);
  }

  lemma DebouncedTwins(c: Context, d: Ifo, w: World, w': World, t: Name) returns (n: Name)
    requires c.config.threshold > 0 && Timely(w, c.now) && Ladder(c.config.threshold, w.store)
    requires SelectsTwins(d, w.store) && SelectsTwins(d, w'.store) && Debounced(c, d, w, w', t)
    ensures if exists m :: LiveTwin(c, d.labels, w.store, m)
      then Kept(c, d.labels, w.store, w'.store, n)
      else Renewed(c, d.labels, w, w', n)
  {
    SelectedCarry(d, w.store);
    SelectedCarry(d, w'.store);
    n := t;
    if m :| LiveTwin(c, d.labels, w.store, m) {
      n := m;
      LiveIsNewest(c, d, w, m);
      SoleNewestIsReused(c, d, w, w', t, m);
    } else {
      NoneLiveIsPast(c, d.labels, w.store);
    }
  }

  lemma NoneLiveIsPast(c: Context, labels: Labels, s: Store)
    requires (forall m :: !LiveTwin(c, labels, s, m)) && forall m :: Selected(labels, s, m) ==> Carries(labels, s, m)
    ensures AllPast(c, labels, s)
  {
    forall m | Newest(s, labels, m)
      ensures c.Past(s[m])
    {
      assert Selected(labels, s, m) && !LiveTwin(c, labels, s, m);
    }
  }
}
