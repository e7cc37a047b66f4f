/** What whole staging sessions do: the report is an exact difference, a repeated session changes
    nothing, and what is left depends only on durable and set conditions. */
module ConditionSessions {
  import opened Prelude
  import opened ConditionLists

  // ----- lists with distinct types

  lemma ApplyKeepsDistinct<K, V>(s: State<K, V>, op: Op<K, V>)
    requires DistinctKeys(s.list)
    ensures DistinctKeys(Apply(s, op).list)
  {
    var list' := Apply(s, op).list;
    if op.Set? {
      PositionFinds(s.list, op.condition.key);
    }
    forall i: nat, j: nat
      ensures !SameKey(list', i, j)
    {
      assert !SameKey(s.list, i, j);
    }
  }

  lemma {:induction false} ApplyAllKeepsDistinct<K, V>(s: State<K, V>, ops: seq<Op<K, V>>)
    requires DistinctKeys(s.list)
    ensures DistinctKeys(ApplyAll(s, ops).list)
  {
    if ops != [] {
      ApplyAllKeepsDistinct(s, ops[..|ops| - 1]);
      ApplyKeepsDistinct(ApplyAll(s, ops[..|ops| - 1]), ops[|ops| - 1]);
    }
  }

  lemma FrontIsDistinct<K, V>(list: Conditions<K, V>)
    requires list != [] && DistinctKeys(list)
    ensures DistinctKeys(list[..|list| - 1])
    ensures list[|list| - 1].key !in Keys(list[..|list| - 1])
  {
    var front := list[..|list| - 1];
    forall i: nat, j: nat ensures !SameKey(front, i, j) {
      assert !SameKey(list, i, j);
    }
    forall i | 0 <= i < |front| ensures front[i].key != list[|list| - 1].key {
      assert !SameKey(list, i, |list| - 1);
    }
  }

  lemma {:induction false} KeysOfDistinct<K, V>(list: Conditions<K, V>)
    requires DistinctKeys(list)
    ensures |Keys(list)| == |list|
  {
    if list == [] {
      assert Keys(list) == {};
    } else {
      FrontIsDistinct(list);
      KeysOfDistinct(list[..|list| - 1]);
      assert list == list[..|list| - 1] + [list[|list| - 1]];
      assert Keys(list) == Keys(list[..|list| - 1]) + {list[|list| - 1].key};
    }
  }

  lemma {:induction false} KeptIn<K, V>(list: Conditions<K, V>, c: Condition<K, V>)
    ensures c in Kept(list) <==> c in list && c.staged
  {
    if list != [] {
      assert list == list[..|list| - 1] + [list[|list| - 1]];
      KeptIn(list[..|list| - 1], c);
    }
  }

  lemma {:induction false} KeptIsDistinct<K, V>(list: Conditions<K, V>)
    requires DistinctKeys(list)
    ensures DistinctKeys(Kept(list))
  {
    if list != [] {
      var front, kept := list[..|list| - 1], Kept(list);
      FrontIsDistinct(list);
      KeptIsDistinct(front);
      forall i: nat, j: nat ensures !SameKey(kept, i, j) {
        assert !SameKey(Kept(front), i, j);
        if i < |Kept(front)| {
          KeptIn(front, Kept(front)[i]);
        }
      }
    }
  }

  lemma KeptHasStaged<K, V>(list: Conditions<K, V>, k: K)
    ensures k in Keys(Kept(list)) <==> HasStaged(list, k)
  {
    if c :| c in list && c.staged && c.key == k {
      KeptIn(list, c);
    }
    if c :| c in Kept(list) && c.key == k {
      KeptIn(list, c);
    }
  }

  lemma {:induction false} ReportedIs<K, V>(list: Conditions<K, V>, r: Report<K, V>)
    requires forall c <- list :: !c.staged ==> c.key !in r.added && c.key !in r.updated
    ensures var r' := Reported(list, r);
      && r'.added == r.added && r'.updated == r.updated
      && forall k :: k in r'.deleted <==> k in r.deleted || exists c <- list :: !c.staged && c.key == k
  {
    if list != [] {
      var front, last := list[..|list| - 1], list[|list| - 1];
      assert list == front + [last];
      ReportedIs(front, r);
    }
  }

  lemma FoundIs<K, V>(list: Conditions<K, V>, c: Condition<K, V>)
    requires DistinctKeys(list) && c in list
    ensures Find(list, c.key) == Some(c)
  {
    var i :| 0 <= i < |list| && list[i] == c;
    forall j | 0 <= j < i ensures list[j].key != c.key {
      assert !SameKey(list, j, i);
    }
    PositionIs(list, c.key, i);
  }

  // ----- the report is an exact difference

  ghost predicate IsDurable<K, V>(list: Conditions<K, V>, k: K) {
    exists c <- list :: c.key == k && c.durable
  }

  /** What the report must say about one type. */
  ghost predicate ExactFor<K, V>(list: Conditions<K, V>, ops: seq<Op<K, V>>, r: Report<K, V>, k: K) {
    var p := Find(list, k);
    && (k in r.added <==> p.None? && IsSet(ops, k))
    && (k in r.updated <==> p.Some? && IsChanged(p.value.(staged := p.value.durable), ops, k))
    && (k in r.deleted <==> p.Some? && !p.value.durable && !IsSet(ops, k) && !IsStaged(ops, k))
  }

  lemma ChangedIsSet<K, V>(p: Condition<K, V>, ops: seq<Op<K, V>>, k: K)
    ensures IsChanged(p, ops, k) ==> IsSet(ops, k)
  {
    if i :| 0 <= i < |ops| && Changes(p, ops, k, i) {
      assert ops[i] in ops;
    }
  }

  lemma MidState<K, V>(s: State<K, V>, ops: seq<Op<K, V>>, k: K)
    requires s.report == Report(map[], map[], map[])
    ensures var mid, p := ApplyAll(s.(list := Begin(s.list)), ops), Find(s.list, k);
      && Find(mid.list, k) == Current(if p.None? then None else Some(p.value.(staged := p.value.durable)), ops, k)
      && (k in mid.report.added <==> p.None? && IsSet(ops, k))
      && (k in mid.report.updated <==> p.Some? && IsChanged(p.value.(staged := p.value.durable), ops, k))
      && mid.report.deleted == map[]
  {
    BeginFinds(s.list, k);
    ApplyAllFinds(s.(list := Begin(s.list)), ops, k);
    MidReport(s.(list := Begin(s.list)), ops, k);
  }

  lemma BeginIsDistinct<K, V>(list: Conditions<K, V>)
    requires DistinctKeys(list)
    ensures DistinctKeys(Begin(list))
  {
    forall i: nat, j: nat ensures !SameKey(Begin(list), i, j) {
      assert !SameKey(list, i, j);
    }
  }

  lemma SessionIsExactFor<K, V>(s: State<K, V>, ops: seq<Op<K, V>>, k: K)
    requires s.report == Report(map[], map[], map[]) && DistinctKeys(s.list)
    ensures ExactFor(s.list, ops, Session(s, ops).report, k)
    ensures k in Keys(Session(s, ops).list) <==>
      (k in Keys(s.list) || k in Session(s, ops).report.added) && k !in Session(s, ops).report.deleted
  {
    var s0 := s.(list := Begin(s.list));
    var mid := ApplyAll(s0, ops);
    BeginIsDistinct(s.list);
    ApplyAllKeepsDistinct(s0, ops);
    forall c | c in mid.list && !c.staged
      ensures c.key !in mid.report.added && c.key !in mid.report.updated
    {
      UnstagedIsUnreported(s, ops, c);
    }
    ReportedIs(mid.list, mid.report);
    MidState(s, ops, k);
    var p := Find(s.list, k);
    StagedWhen(if p.None? then None else Some(p.value.(staged := p.value.durable)), ops, k);
    FindKeys(s.list, k);
    AtMostOne(mid.list, k);
    KeptHasStaged(mid.list, k);
  }

  lemma UnstagedIsUnreported<K, V>(s: State<K, V>, ops: seq<Op<K, V>>, c: Condition<K, V>)
    requires s.report == Report(map[], map[], map[])
    requires var mid := ApplyAll(s.(list := Begin(s.list)), ops); DistinctKeys(mid.list) && c in mid.list && !c.staged
    ensures var mid := ApplyAll(s.(list := Begin(s.list)), ops);
      c.key !in mid.report.added && c.key !in mid.report.updated
  {
    var mid, p := ApplyAll(s.(list := Begin(s.list)), ops), Find(s.list, c.key);
    MidState(s, ops, c.key);
    FoundIs(mid.list, c);
    StagedWhen(if p.None? then None else Some(p.value.(staged := p.value.durable)), ops, c.key);
    if p.Some? {
      ChangedIsSet(p.value.(staged := p.value.durable), ops, c.key);
    }
  }

  lemma AtMostOne<K, V>(list: Conditions<K, V>, k: K)
    requires DistinctKeys(list)
    ensures forall c <- list :: c.key == k ==> Find(list, k) == Some(c)
    ensures Find(list, k).Some? ==> Find(list, k).value in list && Find(list, k).value.key == k
  {
    forall c | c in list && c.key == k
      ensures Find(list, k) == Some(c)
    {
      FoundIs(list, c);
    }
    PositionFinds(list, k);
  }

  lemma LengthsBalance<K, V>(before: Conditions<K, V>, after: Conditions<K, V>, r: Report<K, V>)
    requires DistinctKeys(before) && DistinctKeys(after)
    requires Keys(before) !! r.added.Keys && r.deleted.Keys <= Keys(before)
    requires Keys(after) == Keys(before) + r.added.Keys - r.deleted.Keys
    ensures |after| == |before| + |r.added| - |r.deleted|
  {
    KeysOfDistinct(before);
    KeysOfDistinct(after);
    assert Keys(after) + r.deleted.Keys == Keys(before) + r.added.Keys;
  }

  /** The report of a session is an exact, disjoint difference, and the list's length balances. */
  lemma ExplainIsExact<K(!new), V>(s: State<K, V>, ops: seq<Op<K, V>>)
    requires s.report == Report(map[], map[], map[]) && DistinctKeys(s.list)
    ensures var f := Session(s, ops);
      && (forall k :: ExactFor(s.list, ops, f.report, k))
      && f.report.added.Keys !! f.report.updated.Keys !! f.report.deleted.Keys
      && |f.list| == |s.list| + |f.report.added| - |f.report.deleted|
      && Keys(f.list) == Keys(s.list) + f.report.added.Keys - f.report.deleted.Keys
  {
    var f := Session(s, ops);
    forall k
      ensures ExactFor(s.list, ops, f.report, k)
      ensures k in Keys(f.list) <==> (k in Keys(s.list) || k in f.report.added) && k !in f.report.deleted
    {
      SessionIsExactFor(s, ops, k);
    }
    ExactIsDisjoint(s.list, ops, f.report);
    SessionIsDistinct(s, ops);
    LengthsBalance(s.list, f.list, f.report);
  }

  lemma ExactIsDisjoint<K(!new), V>(list: Conditions<K, V>, ops: seq<Op<K, V>>, r: Report<K, V>)
    requires forall k :: ExactFor(list, ops, r, k)
    ensures r.added.Keys !! r.updated.Keys !! r.deleted.Keys
    ensures Keys(list) !! r.added.Keys && r.deleted.Keys <= Keys(list)
  {
    forall k
      ensures !(k in r.added && (k in r.updated || k in r.deleted)) && !(k in r.updated && k in r.deleted)
      ensures k in r.added ==> k !in Keys(list)
      ensures k in r.deleted ==> k in Keys(list)
    {
      assert ExactFor(list, ops, r, k);
      FindKeys(list, k);
      var p := Find(list, k);
      if p.Some? {
        ChangedIsSet(p.value.(staged := p.value.durable), ops, k);
      }
    }
  }

  lemma SessionIsDistinct<K, V>(s: State<K, V>, ops: seq<Op<K, V>>)
    requires DistinctKeys(s.list)
    ensures DistinctKeys(Session(s, ops).list)
  {
    BeginIsDistinct(s.list);
    ApplyAllKeepsDistinct(s.(list := Begin(s.list)), ops);
    KeptIsDistinct(ApplyAll(s.(list := Begin(s.list)), ops).list);
  }

  // ----- what is left, for any list

  ghost predicate HasStaged<K, V>(list: Conditions<K, V>, k: K) {
    exists c <- list :: c.staged && c.key == k
  }

  ghost predicate OnlySets<K, V>(ops: seq<Op<K, V>>) {
    forall op <- ops :: op.Set?
  }

  lemma SetOneStages<K, V>(s: State<K, V>, c: Condition<K, V>, now: Time, k: K)
    ensures HasStaged(SetOne(s, c, now).list, k) <==> HasStaged(s.list, k) || c.key == k
  {
    var i, list, list' := Position(s.list, c.key), s.list, SetOne(s, c, now).list;
    PositionFinds(list, c.key);
    assert list'[i] in list' && list'[i].staged && list'[i].key == c.key;
    forall j | 0 <= j < |list| && j != i
      ensures list[j] in list' && list'[j] in list
    {
      assert list'[j] == list[j];
    }
  }

  lemma {:induction false} SetsStage<K, V>(s: State<K, V>, ops: seq<Op<K, V>>, k: K)
    requires OnlySets(ops)
    ensures HasStaged(ApplyAll(s, ops).list, k) <==> HasStaged(s.list, k) || IsSet(ops, k)
  {
    if ops != [] {
      var front, last := ops[..|ops| - 1], ops[|ops| - 1];
      assert ops == front + [last];
      SetsStage(s, front, k);
      SetOneStages(ApplyAll(s, front), last.condition, last.now, k);
    }
  }

  lemma BeginStages<K, V>(list: Conditions<K, V>, k: K)
    ensures HasStaged(Begin(list), k) <==> IsDurable(list, k)
  {
    forall i | 0 <= i < |list| ensures Begin(list)[i] in Begin(list) && list[i] in list {
    }
  }

  /** For any list, duplicates included: a type is left after set calls exactly if it had a durable
      condition or was set. */
  lemma SetsLeave<K, V>(s: State<K, V>, ops: seq<Op<K, V>>, k: K)
    requires OnlySets(ops)
    ensures k in Keys(Session(s, ops).list) <==> IsDurable(s.list, k) || IsSet(ops, k)
  {
    var s0 := s.(list := Begin(s.list));
    BeginStages(s.list, k);
    SetsStage(s0, ops, k);
    KeptHasStaged(ApplyAll(s0, ops).list, k);
  }

  // ----- repeating a session

  /** Only the first condition of a type can be staged without being durable. */
  ghost predicate FirstsOnly<K, V>(list: Conditions<K, V>) {
    forall i :: 0 <= i < |list| && list[i].staged && !list[i].durable ==> Position(list, list[i].key) == i
  }

  lemma SetOneFirsts<K, V>(s: State<K, V>, c: Condition<K, V>, now: Time)
    requires FirstsOnly(s.list)
    ensures FirstsOnly(SetOne(s, c, now).list)
  {
    var i, list, list' := Position(s.list, c.key), s.list, SetOne(s, c, now).list;
    PositionFinds(list, c.key);
    forall j | 0 <= j < |list'| && list'[j].staged && !list'[j].durable
      ensures Position(list', list'[j].key) == j
    {
      if j != i {
        assert list'[j] == list[j];
        PositionFinds(list, list[j].key);
      }
      PositionIs(list', list'[j].key, j);
    }
  }

  lemma {:induction false} SetsFirsts<K, V>(s: State<K, V>, ops: seq<Op<K, V>>)
    requires FirstsOnly(s.list) && OnlySets(ops)
    ensures FirstsOnly(ApplyAll(s, ops).list)
  {
    if ops != [] {
      SetsFirsts(s, ops[..|ops| - 1]);
      assert ops[|ops| - 1] in ops;
      SetOneFirsts(ApplyAll(s, ops[..|ops| - 1]), ops[|ops| - 1].condition, ops[|ops| - 1].now);
    }
  }

  lemma {:induction false} KeptFirsts<K, V>(list: Conditions<K, V>)
    requires FirstsOnly(list)
    ensures FirstsOnly(Kept(list))
  {
    if list != [] {
      var front, last := list[..|list| - 1], list[|list| - 1];
      forall i | 0 <= i < |front| && front[i].staged && !front[i].durable
        ensures Position(front, front[i].key) == i
      {
        PositionFinds(list, list[i].key);
        PositionIs(front, front[i].key, i);
      }
      KeptFirsts(front);
      var kept := Kept(list);
      forall i | 0 <= i < |kept| && !kept[i].durable
        ensures Position(kept, kept[i].key) == i
      {
        if i < |Kept(front)| {
          KeptIn(front, kept[i]);
          assert Position(Kept(front), Kept(front)[i].key) == i;
          PositionFinds(Kept(front), Kept(front)[i].key);
        } else {
          assert Position(list, last.key) == |front|;
          PositionFinds(list, last.key);
          forall j | 0 <= j < i ensures kept[j].key != last.key {
            KeptIn(front, kept[j]);
          }
        }
        PositionIs(kept, kept[i].key, i);
      }
    }
  }

  lemma {:induction false} KeptFinds<K, V>(list: Conditions<K, V>, k: K)
    requires Find(list, k).Some? && Find(list, k).value.staged
    ensures Find(Kept(list), k) == Find(list, k)
  {
    var front, last, i := list[..|list| - 1], list[|list| - 1], Position(list, k);
    PositionFinds(list, k);
    if i < |front| {
      PositionIs(front, k, i);
      KeptFinds(front, k);
      PositionFinds(Kept(front), k);
      PositionIs(Kept(list), k, Position(Kept(front), k));
    } else {
      forall j | 0 <= j < |Kept(front)| ensures Kept(front)[j].key != k {
        KeptIn(front, Kept(front)[j]);
      }
      PositionIs(Kept(list), k, |Kept(front)|);
    }
  }

  /** The set calls of a session name each type once. */
  ghost predicate DistinctSets<K, V>(ops: seq<Op<K, V>>) {
    OnlySets(ops) && forall i, j :: 0 <= i < j < |ops| && ops[i].Set? && ops[j].Set? ==>
      ops[i].condition.key != ops[j].condition.key
  }

  /** Each set call finds an equal condition. */
  ghost predicate AllEqual<K, V>(list: Conditions<K, V>, ops: seq<Op<K, V>>) {
    forall op <- ops :: op.Set? ==>
      Find(list, op.condition.key).Some? && Equal(Find(list, op.condition.key).value, op.condition)
  }

  lemma {:induction false} SetsAreFound<K, V>(s: State<K, V>, ops: seq<Op<K, V>>)
    requires DistinctSets(ops)
    ensures AllEqual(ApplyAll(s, ops).list, ops)
    ensures forall op <- ops ::
      Find(ApplyAll(s, ops).list, op.condition.key).Some? && Find(ApplyAll(s, ops).list, op.condition.key).value.staged
  {
    if ops != [] {
      var front, last := ops[..|ops| - 1], ops[|ops| - 1];
      assert last in ops;
      forall op | op in front ensures op in ops && op.condition.key != last.condition.key {
        var i :| 0 <= i < |front| && front[i] == op;
        assert ops[i] == op;
      }
      SetsAreFound(s, front);
      forall op | op in ops
        ensures Find(ApplyAll(s, ops).list, op.condition.key) ==
          Next(Find(ApplyAll(s, front).list, op.condition.key), last, op.condition.key)
      {
        ApplyFinds(ApplyAll(s, front), last, op.condition.key);
      }
      assert forall op <- ops :: op in front || op == last;
    }
  }

  /** The list with the durable conditions staged, and the first ones of the types set so far. */
  function Marked<K(==), V>(list: Conditions<K, V>, keys: set<K>): Conditions<K, V> {
    seq(|list|, i requires 0 <= i < |list| =>
      list[i].(staged := list[i].durable || (list[i].key in keys && Position(list, list[i].key) == i)))
  }

  ghost function SetKeys<K, V>(ops: seq<Op<K, V>>): set<K> {
    set op | op in ops && op.Set? :: op.condition.key
  }

  lemma {:induction false} SetsMark<K, V>(list: Conditions<K, V>, ops: seq<Op<K, V>>, r: Report<K, V>)
    requires OnlySets(ops) && AllEqual(list, ops)
    ensures ApplyAll(State(Begin(list), r), ops) == State(Marked(list, SetKeys(ops)), r)
  {
    if ops == [] {
      assert Marked(list, {}) == Begin(list);
    } else {
      var front, last := ops[..|ops| - 1], ops[|ops| - 1];
      assert ops == front + [last];
      SetsMark(list, front, r);
      assert SetKeys(ops) == SetKeys(front) + {last.condition.key};
      SetMarks(list, SetKeys(front), last, r);
    }
  }

  lemma SetMarks<K, V>(list: Conditions<K, V>, keys: set<K>, op: Op<K, V>, r: Report<K, V>)
    requires op.Set? && AllEqual(list, [op])
    ensures Apply(State(Marked(list, keys), r), op) == State(Marked(list, keys + {op.condition.key}), r)
  {
    var marked, k := Marked(list, keys), op.condition.key;
    assert op in [op];
    PositionFinds(list, k);
    PositionIs(marked, k, Position(list, k));
    assert Apply(State(marked, r), op).list == Marked(list, keys + {k});
  }

  lemma {:induction false} AllKept<K, V>(list: Conditions<K, V>, r: Report<K, V>)
    requires forall c <- list :: c.staged
    ensures Kept(list) == list && Reported(list, r) == r
  {
    if list != [] {
      AllKept(list[..|list| - 1], r);
      assert list[|list| - 1] in list;
    }
  }

  /** Running the same set calls again, at whatever times, changes neither the list, in order,
      content and transition times, nor the report. */
  lemma RepeatChangesNothing<K, V>(s: State<K, V>, ops: seq<Op<K, V>>, again: seq<Op<K, V>>)
    requires DistinctSets(ops) && |again| == |ops|
    requires forall i :: 0 <= i < |ops| ==> again[i].Set? && again[i].condition == ops[i].condition
    ensures Session(Session(s, ops), again) == Session(s, ops)
  {
    var s0, f := s.(list := Begin(s.list)), Session(s, ops);
    var mid := ApplyAll(s0, ops);
    SetsFirsts(s0, ops);
    KeptFirsts(mid.list);
    SetsAreFound(s0, ops);
    forall op | op in again
      ensures op.Set? && Find(f.list, op.condition.key).Some? &&
        Equal(Find(f.list, op.condition.key).value, op.condition)
    {
      var i :| 0 <= i < |again| && again[i] == op;
      assert ops[i] in ops;
      KeptFinds(mid.list, op.condition.key);
    }
    SetsMark(f.list, again, f.report);
    AllMarked(s, ops, again);
    AllKept(f.list, f.report);
  }

  /** A staged condition that is not durable is of a type that was set. */
  lemma {:induction false} StagedAreSet<K, V>(s: State<K, V>, ops: seq<Op<K, V>>, c: Condition<K, V>)
    requires OnlySets(ops) && (forall x <- s.list :: x.staged ==> x.durable)
    requires c in ApplyAll(s, ops).list && c.staged && !c.durable
    ensures c.key in SetKeys(ops)
  {
    if ops != [] {
      var front, last := ops[..|ops| - 1], ops[|ops| - 1];
      assert ops == front + [last];
      assert last in ops;
      if c in ApplyAll(s, front).list {
        StagedAreSet(s, front, c);
      }
    }
  }

  lemma AllMarked<K, V>(s: State<K, V>, ops: seq<Op<K, V>>, again: seq<Op<K, V>>)
    requires DistinctSets(ops) && |again| == |ops|
    requires forall i :: 0 <= i < |ops| ==> again[i].Set? && again[i].condition == ops[i].condition
    ensures var f := Session(s, ops); Marked(f.list, SetKeys(again)) == f.list && forall c <- f.list :: c.staged
  {
    var s0, f := s.(list := Begin(s.list)), Session(s, ops);
    var mid := ApplyAll(s0, ops);
    SetsFirsts(s0, ops);
    KeptFirsts(mid.list);
    forall i | 0 <= i < |f.list|
      ensures f.list[i].staged && Marked(f.list, SetKeys(again))[i] == f.list[i]
    {
      var c := f.list[i];
      KeptIn(mid.list, c);
      if !c.durable {
        StagedAreSet(s0, ops, c);
        var op :| op in ops && op.Set? && op.condition.key == c.key;
        var j :| 0 <= j < |ops| && ops[j] == op;
        assert again[j] in again;
      }
    }
  }
}
