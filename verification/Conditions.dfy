/** lib/condition: staged conditions and the report of their changes, as values. A condition's type
    is its key; its content is what else Equal compares besides durability. */
module ConditionLists {
  import opened Prelude

  type Time = int

  datatype Condition<K, V> = Condition(key: K, content: V, durable: bool, lastTransitionTime: Time, staged: bool)

  predicate Equal<K(==), V(==)>(a: Condition<K, V>, b: Condition<K, V>) {
    a.key == b.key && a.content == b.content && a.durable == b.durable
  }

  /** Update: an equal condition is only staged, any other is replaced as of now. */
  function Updated<K(==), V(==)>(a: Condition<K, V>, b: Condition<K, V>, now: Time): Condition<K, V> {
    if Equal(a, b) then a.(staged := true) else b.(lastTransitionTime := now, staged := true)
  }

  type Conditions<K, V> = seq<Condition<K, V>>

  /** The Explain report. */
  datatype Report<K(==), V> = Report(
    added: map<K, Condition<K, V>>, updated: map<K, Condition<K, V>>, deleted: map<K, Condition<K, V>>) {

    function Add(c: Condition<K, V>): Report<K, V> {
      Report(added[c.key := c], updated - {c.key}, deleted - {c.key})
    }

    function Update(c: Condition<K, V>): Report<K, V> {
      if c.key in added then this else Report(added, updated[c.key := c], deleted - {c.key})
    }

    function Delete(c: Condition<K, V>): Report<K, V> {
      Report(added - {c.key}, updated - {c.key}, deleted[c.key := c])
    }
  }

  datatype State<K(==), V> = State(list: Conditions<K, V>, report: Report<K, V>)

  /** The position of the first condition of a type, or the length. */
  function Position<K(==), V>(list: Conditions<K, V>, k: K): (i: nat)
    ensures i <= |list|
  {
    if list == [] || list[0].key == k then 0 else 1 + Position(list[1..], k)
  }

  lemma {:induction false} PositionFinds<K, V>(list: Conditions<K, V>, k: K)
    ensures var i := Position(list, k); i < |list| ==> list[i].key == k
    ensures forall j :: 0 <= j < Position(list, k) ==> list[j].key != k
  {
    if list != [] && list[0].key != k {
      PositionFinds(list[1..], k);
      forall j | 0 <= j < Position(list, k)
        ensures list[j].key != k
      {
        assert j > 0 ==> list[j] == list[1..][j - 1];
      }
    }
  }

  function Find<K(==), V>(list: Conditions<K, V>, k: K): Option<Condition<K, V>> {
    var i := Position(list, k);
    if i == |list| then None else Some(list[i])
  }

  /** Beginning to stage: only durable conditions count as staged. */
  function Begin<K, V>(list: Conditions<K, V>): Conditions<K, V> {
    seq(|list|, i requires 0 <= i < |list| => list[i].(staged := list[i].durable))
  }

  function Kept<K, V>(list: Conditions<K, V>): Conditions<K, V> {
    if list == [] then [] else
      var last := list[|list| - 1];
      if last.staged then Kept(list[..|list| - 1]) + [last] else Kept(list[..|list| - 1])
  }

  function Reported<K(==), V>(list: Conditions<K, V>, report: Report<K, V>): Report<K, V> {
    if list == [] then report else
      var last := list[|list| - 1];
      var before := Reported(list[..|list| - 1], report);
      if last.staged then before else before.Delete(last)
  }

  /** Ending: un-staged conditions are deleted and reported. */
  function End<K(==), V>(s: State<K, V>): State<K, V> {
    State(Kept(s.list), Reported(s.list, s.report))
  }

  datatype Op<K, V> = Set(condition: Condition<K, V>, now: Time) | Stage(keys: seq<K>)

  function SetOne<K(==), V(==)>(s: State<K, V>, c: Condition<K, V>, now: Time): State<K, V> {
    var c, i := c.(staged := true), Position(s.list, c.key);
    if i == |s.list| then
      State(s.list + [c.(lastTransitionTime := now)], s.report.Add(c))
    else
      State(s.list[i := Updated(s.list[i], c, now)], if Equal(s.list[i], c) then s.report else s.report.Update(c))
  }

  function StageAll<K(==), V>(list: Conditions<K, V>, keys: seq<K>): Conditions<K, V> {
    seq(|list|, i requires 0 <= i < |list| => if list[i].key in keys then list[i].(staged := true) else list[i])
  }

  function Apply<K(==), V(==)>(s: State<K, V>, op: Op<K, V>): State<K, V> {
    match op
    case Set(c, now) => SetOne(s, c, now)
    case Stage(keys) => s.(list := StageAll(s.list, keys))
  }

  function ApplyAll<K(==), V(==)>(s: State<K, V>, ops: seq<Op<K, V>>): State<K, V> {
    if ops == [] then s else Apply(ApplyAll(s, ops[..|ops| - 1]), ops[|ops| - 1])
  }

  /** A whole session: begin, set and stage, end. */
  function Session<K(==), V(==)>(s: State<K, V>, ops: seq<Op<K, V>>): State<K, V> {
    End(ApplyAll(s.(list := Begin(s.list)), ops))
  }

  ghost function Keys<K, V>(list: Conditions<K, V>): set<K> {
    set c | c in list :: c.key
  }

  // ----- one type at a time

  lemma {:induction false} PositionIs<K, V>(list: Conditions<K, V>, k: K, i: nat)
    requires i <= |list| && (i < |list| ==> list[i].key == k)
    requires forall j :: 0 <= j < i ==> list[j].key != k
    ensures Position(list, k) == i
  {
    PositionFinds(list, k);
  }

  lemma FindKeys<K, V>(list: Conditions<K, V>, k: K)
    ensures Find(list, k).Some? <==> k in Keys(list)
  {
    var i := Position(list, k);
    PositionFinds(list, k);
    if i < |list| {
      assert list[i] in list;
    }
  }

  /** An operation acts on the first condition of each type on its own. */
  function Next<K(==), V(==)>(p: Option<Condition<K, V>>, op: Op<K, V>, k: K): Option<Condition<K, V>> {
    match op
    case Set(c, now) =>
      if c.key != k then p
      else if p.None? then Some(c.(lastTransitionTime := now, staged := true))
      else Some(Updated(p.value, c.(staged := true), now))
    case Stage(keys) =>
      if p.Some? && k in keys then Some(p.value.(staged := true)) else p
  }

  function Current<K(==), V(==)>(p: Option<Condition<K, V>>, ops: seq<Op<K, V>>, k: K): Option<Condition<K, V>> {
    if ops == [] then p else Next(Current(p, ops[..|ops| - 1], k), ops[|ops| - 1], k)
  }

  lemma ApplyFinds<K, V>(s: State<K, V>, op: Op<K, V>, k: K)
    ensures Find(Apply(s, op).list, k) == Next(Find(s.list, k), op, k)
  {
    var i, list' := Position(s.list, k), Apply(s, op).list;
    PositionFinds(s.list, k);
    if op.Set? {
      PositionFinds(s.list, op.condition.key);
    }
    if op.Set? && op.condition.key == k && i == |s.list| {
      PositionIs(list', k, i);
    } else if i == |s.list| {
      PositionIs(list', k, |list'|);
    } else {
      PositionIs(list', k, i);
    }
  }

  lemma {:induction false} ApplyAllFinds<K, V>(s: State<K, V>, ops: seq<Op<K, V>>, k: K)
    ensures Find(ApplyAll(s, ops).list, k) == Current(Find(s.list, k), ops, k)
  {
    if ops != [] {
      ApplyAllFinds(s, ops[..|ops| - 1], k);
      ApplyFinds(ApplyAll(s, ops[..|ops| - 1]), ops[|ops| - 1], k);
    }
  }

  lemma BeginFinds<K, V>(list: Conditions<K, V>, k: K)
    ensures Find(Begin(list), k) == match Find(list, k) case None => None case Some(c) => Some(c.(staged := c.durable))
  {
    PositionFinds(list, k);
    PositionIs(Begin(list), k, Position(list, k));
  }

  // ----- what the report says

  ghost predicate IsSet<K, V>(ops: seq<Op<K, V>>, k: K) {
    exists op <- ops :: op.Set? && op.condition.key == k
  }

  ghost predicate IsStaged<K, V>(ops: seq<Op<K, V>>, k: K) {
    exists op <- ops :: op.Stage? && k in op.keys
  }

  /** Some set call met a condition of the type that was not equal to the one it set. */
  ghost predicate IsChanged<K, V>(p: Condition<K, V>, ops: seq<Op<K, V>>, k: K) {
    exists i :: 0 <= i < |ops| && Changes(p, ops, k, i)
  }

  ghost predicate Changes<K, V>(p: Condition<K, V>, ops: seq<Op<K, V>>, k: K, i: nat)
    requires i < |ops|
  {
    ops[i].Set? && ops[i].condition.key == k &&
    match Current(Some(p), ops[..i], k) case None => false case Some(c) => !Equal(c, ops[i].condition)
  }

  lemma {:induction false} StagedWhen<K, V>(p: Option<Condition<K, V>>, ops: seq<Op<K, V>>, k: K)
    ensures var c := Current(p, ops, k);
      && (c.Some? <==> p.Some? || IsSet(ops, k))
      && (c.Some? ==> (c.value.staged <==> (p.Some? && (p.value.staged || IsStaged(ops, k))) || IsSet(ops, k)))
  {
    if ops != [] {
      var front, last := ops[..|ops| - 1], ops[|ops| - 1];
      StagedWhen(p, front, k);
      assert ops == front + [last];
      assert IsSet(ops, k) <==> IsSet(front, k) || (last.Set? && last.condition.key == k);
      assert IsStaged(ops, k) <==> IsStaged(front, k) || (last.Stage? && k in last.keys);
    }
  }

  /** During a session from an empty report nothing is reported deleted; a type absent at first is
      added when set, and one present at first is updated when changed. */
  lemma {:induction false} MidReport<K, V>(s: State<K, V>, ops: seq<Op<K, V>>, k: K)
    requires s.report == Report(map[], map[], map[])
    ensures var r, p := ApplyAll(s, ops).report, Find(s.list, k);
      && (k in r.added <==> p.None? && IsSet(ops, k))
      && (k in r.updated <==> p.Some? && IsChanged(p.value, ops, k))
      && r.deleted == map[]
  {
    var p := Find(s.list, k);
    if ops != [] {
      var front, last := ops[..|ops| - 1], ops[|ops| - 1];
      MidReport(s, front, k);
      ApplyAllFinds(s, front, k);
      StagedWhen(p, front, k);
      assert ops == front + [last];
      assert IsSet(ops, k) <==> IsSet(front, k) || (last.Set? && last.condition.key == k);
      if p.Some? {
        ChangedLast(p.value, ops, k);
      }
    }
  }

  lemma ChangedLast<K, V>(p: Condition<K, V>, ops: seq<Op<K, V>>, k: K)
    requires ops != []
    ensures IsChanged(p, ops, k) <==> IsChanged(p, ops[..|ops| - 1], k) || Changes(p, ops, k, |ops| - 1)
  {
    var front := ops[..|ops| - 1];
    assert forall i :: 0 <= i < |front| ==> front[..i] == ops[..i];
    assert forall i {:trigger Changes(p, ops, k, i)} {:trigger Changes(p, front, k, i)} :: 0 <= i < |front| ==>
      (Changes(p, ops, k, i) <==> Changes(p, front, k, i));
  }

  ghost predicate SameKey<K, V>(list: Conditions<K, V>, i: nat, j: nat) {
    i < j < |list| && list[i].key == list[j].key
  }

  ghost predicate DistinctKeys<K, V>(list: Conditions<K, V>) {
    forall i, j {:trigger SameKey(list, i, j)} :: !SameKey(list, i, j)
  }

  // ----- one set call, in terms of the first condition of each type

  /** Afterwards the first condition of the type says what was set and is staged. It changed now, unless one that
      said the same was there, which keeps its time; the first condition of any other type is as before. */
  lemma SetFinds<K, V>(s: State<K, V>, c: Condition<K, V>, now: Time, k: K)
    ensures var p, q := Find(s.list, k), Find(SetOne(s, c, now).list, k);
      if k != c.key then q == p
      else
        && q.Some? && q.value.key == c.key && q.value.content == c.content && q.value.durable == c.durable
        && q.value.staged
        && q.value.lastTransitionTime ==
             if p.Some? && p.value.content == c.content && p.value.durable == c.durable
             then p.value.lastTransitionTime else now
  {
    ApplyFinds(s, Set(c, now), k);
    PositionFinds(s.list, k);
  }

  /** Every other condition, and the order, stay; a new one comes last. */
  lemma SetKeepsOthers<K, V>(s: State<K, V>, c: Condition<K, V>, now: Time)
    ensures var list', found := SetOne(s, c, now).list, Find(s.list, c.key);
      && |list'| == |s.list| + (if found.Some? then 0 else 1)
      && (forall i :: 0 <= i < |s.list| && s.list[i].key != c.key ==> list'[i] == s.list[i])
      && (forall i, j :: 0 <= i < j < |s.list| && s.list[i].key == c.key ==> list'[j] == s.list[j])
  {
    PositionFinds(s.list, c.key);
  }

  // ----- one call's report, map by map

  ghost predicate Disjoint<K, V>(r: Report<K, V>) {
    r.added.Keys !! r.updated.Keys !! r.deleted.Keys
  }

  /** A type that was absent is reported added; one that changed is reported updated, unless it was added before; and
      neither counts as deleted any more. What did not change is reported as before. */
  lemma SetReports<K, V>(s: State<K, V>, c: Condition<K, V>, now: Time)
    ensures var r, r', p, k := s.report, SetOne(s, c, now).report, Find(s.list, c.key), c.key;
      && r'.added - {k} == r.added - {k} && r'.updated - {k} == r.updated - {k} && r'.deleted - {k} == r.deleted - {k}
      && (p.None? ==> k in r'.added && r'.added[k] == c.(staged := true) && k !in r'.updated && k !in r'.deleted)
      && (p.Some? && p.value.content == c.content && p.value.durable == c.durable ==> r' == r)
      && (p.Some? && !(p.value.content == c.content && p.value.durable == c.durable) && k in r.added ==> r' == r)
      && (p.Some? && !(p.value.content == c.content && p.value.durable == c.durable) && k !in r.added ==>
           k !in r'.added && k in r'.updated && r'.updated[k] == c.(staged := true) && k !in r'.deleted)
  {
    PositionFinds(s.list, c.key);
  }

  lemma SetKeepsDisjoint<K, V>(s: State<K, V>, c: Condition<K, V>, now: Time)
    requires Disjoint(s.report)
    ensures Disjoint(SetOne(s, c, now).report)
  {
  }

  /** Ending reports exactly the types of un-staged conditions as deleted, on top of those deleted before, each with
      one of these conditions, and as nothing else. */
  lemma {:induction false} EndReports<K, V>(list: Conditions<K, V>, r: Report<K, V>, k: K)
    requires Disjoint(r)
    ensures var r' := Reported(list, r);
      && Disjoint(r')
      && ((exists c <- list :: !c.staged && c.key == k) ==>
           k in r'.deleted && exists c <- list :: !c.staged && c.key == k && r'.deleted[k] == c)
      && (!(exists c <- list :: !c.staged && c.key == k) ==>
           && (k in r'.added <==> k in r.added) && (k in r.added ==> r'.added[k] == r.added[k])
           && (k in r'.updated <==> k in r.updated) && (k in r.updated ==> r'.updated[k] == r.updated[k])
           && (k in r'.deleted <==> k in r.deleted) && (k in r.deleted ==> r'.deleted[k] == r.deleted[k]))
  {
    if list != [] {
      var front, last := list[..|list| - 1], list[|list| - 1];
      EndReports(front, r, k);
      assert list == front + [last];
      assert last in list && forall c :: c in list <==> c in front || c == last;
    }
  }
}
