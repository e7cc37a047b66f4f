/** The conditions one reconcile pass sets on a ruleset, and those it leaves. */
module ReconcilePass {
  import opened Prelude
  import opened ConditionLists
  import opened ConditionSessions
  import opened StatusConditions

  const TypeReady := "Ready"
  const TypeInvalidTarget := "InvalidTarget"
  const TypeInvalidRule := "InvalidRule"
  const TypeWatchFailed := "WatchFailed"
  const TypeValidated := "Validated"
  const Required := "Required"
  const Advisory := "Advisory"

  /** The errors a pass met, with their messages, and the printed name of the target. */
  datatype Findings = Findings(target: Option<string>, rule: Option<string>, setup: Option<string>, gvr: string)

  function NewCondition(k: string, reason: string, category: string, message: string): StatusCondition {
    Condition(k, Content(True, reason, category, message, None), false, 0, false)
  }

  function InvalidTarget(message: string): StatusCondition {
    NewCondition(TypeInvalidTarget, "GVRNotFound", Critical, "Target GVR does not exist: " + message)
  }

  function InvalidRule(message: string): StatusCondition {
    NewCondition(TypeInvalidRule, "InvalidExpression", Critical, "Invalid CEL expression: " + message)
  }

  const Validated := NewCondition(TypeValidated, "Completed", Advisory, "Validation has been completed.")

  /** The source gives this one no category, so it never blocks. */
  function WatchFailed(message: string): StatusCondition {
    NewCondition(TypeWatchFailed, "WatchSetupFailed", "", "Failed to setup watch: " + message)
  }

  function Ready(gvr: string): StatusCondition {
    NewCondition(TypeReady, "WatchActive", Required, "Dynamic watch is active for " + gvr)
  }

  const Blockers := [Critical, Error]

  /** Validation blocks the setup: an error now, or a durable blocker from before. */
  predicate Blocked(list: StatusList, f: Findings) {
    f.target.Some? || f.rule.Some? || HasBlocking(Begin(list), Blockers, true)
  }

  function InvalidConditions(f: Findings): seq<StatusCondition> {
    (if f.target.Some? then [InvalidTarget(f.target.value)] else [])
    + (if f.rule.Some? then [InvalidRule(f.rule.value)] else [])
  }

  function PassConditions(f: Findings, blocked: bool): seq<StatusCondition> {
    if blocked then InvalidConditions(f)
    else InvalidConditions(f) + [Validated] + [if f.setup.Some? then WatchFailed(f.setup.value) else Ready(f.gvr)]
  }

  /** The status after a pass. */
  function Pass(s: StatusState, f: Findings, now: Time): StatusState {
    Session(s, SetOps(PassConditions(f, Blocked(s.list, f)), now))
  }

  // ----- blocking, call by call

  lemma SetBlocks(s: StatusState, c: StatusCondition, now: Time)
    requires Blocks(c.(staged := true), Blockers, true)
    ensures HasBlocking(SetOne(s, c, now).list, Blockers, true)
  {
    var i, list' := Position(s.list, c.key), SetOne(s, c, now).list;
    assert Blocks(list'[i], Blockers, true) && list'[i] in list';
  }

  lemma SetBlocksNot(s: StatusState, c: StatusCondition, now: Time)
    requires !Blocks(c.(staged := true), Blockers, true) && !HasBlocking(s.list, Blockers, true)
    ensures !HasBlocking(SetOne(s, c, now).list, Blockers, true)
  {
    var i, list' := Position(s.list, c.key), SetOne(s, c, now).list;
    forall j | 0 <= j < |list'|
      ensures !Blocks(list'[j], Blockers, true)
    {
      if j != i {
        assert list'[j] == s.list[j] && s.list[j] in s.list;
      } else {
        assert list'[j].content == c.content;
      }
    }
  }

  lemma {:induction false} AppendOps<K, V>(s: State<K, V>, a: seq<Condition<K, V>>, c: Condition<K, V>, now: Time)
    ensures ApplyAll(s, SetOps(a + [c], now)) == SetOne(ApplyAll(s, SetOps(a, now)), c, now)
  {
    var ops := SetOps(a + [c], now);
    assert ops[..|ops| - 1] == SetOps(a, now);
  }

  /** After the validation errors are set, the blocker check sees exactly what should block. */
  lemma BlockedAfterValidation(s: StatusState, f: Findings, now: Time)
    ensures var s1 := ApplyAll(s.(list := Begin(s.list)), SetOps(InvalidConditions(f), now));
      && (HasBlocking(s1.list, Blockers, true) <==> Blocked(s.list, f))
      && (!Blocked(s.list, f) ==> !HasBlocking(SetOne(s1, Validated, now).list, Blockers, true))
  {
    var s0, inv := s.(list := Begin(s.list)), InvalidConditions(f);
    var s1 := ApplyAll(s0, SetOps(inv, now));
    if inv == [] {
      assert SetOps(inv, now) == [];
      if !Blocked(s.list, f) {
        SetBlocksNot(s1, Validated, now);
      }
    } else {
      var front, last := inv[..|inv| - 1], inv[|inv| - 1];
      assert inv == front + [last];
      AppendOps(s0, front, last, now);
      SetBlocks(ApplyAll(s0, SetOps(front, now)), last, now);
    }
  }

  /** The status between validation and the report of the setup. */
  ghost function AfterValidation(s: StatusState, f: Findings, blocked: bool, now: Time): StatusState {
    ApplyAll(s.(list := Begin(s.list)), SetOps(
      if blocked then InvalidConditions(f) else InvalidConditions(f) + [Validated], now))
  }

  lemma ValidationIgnoresSetup(
      s: StatusState, f: Findings, setup: Option<string>, gvr: string, blocked: bool, now: Time)
    ensures Blocked(s.list, f.(setup := setup, gvr := gvr)) == Blocked(s.list, f)
    ensures AfterValidation(s, f.(setup := setup, gvr := gvr), blocked, now) == AfterValidation(s, f, blocked, now)
  {
    assert InvalidConditions(f.(setup := setup, gvr := gvr)) == InvalidConditions(f);
  }

  /** The calls of a pass, the last of them reporting the setup. */
  lemma PassEnds(s: StatusState, f: Findings, blocked: bool, now: Time)
    requires blocked == Blocked(s.list, f)
    ensures var s0 := s.(list := Begin(s.list));
      Pass(s, f, now) == End(
        if blocked then ApplyAll(s0, SetOps(InvalidConditions(f), now))
        else SetOne(ApplyAll(s0, SetOps(InvalidConditions(f) + [Validated], now)),
          if f.setup.Some? then WatchFailed(f.setup.value) else Ready(f.gvr), now))
  {
    if !blocked {
      AppendOps(s.(list := Begin(s.list)), InvalidConditions(f) + [Validated],
        if f.setup.Some? then WatchFailed(f.setup.value) else Ready(f.gvr), now);
    }
  }

  // ----- the types left

  ghost predicate NoneDurable(list: StatusList) {
    forall c <- list :: !c.durable
  }

  /** The types a pass leaves when no condition is durable. */
  function TypesFor(f: Findings): set<string> {
    if f.target.None? && f.rule.None? then
      {TypeValidated, if f.setup.None? then TypeReady else TypeWatchFailed}
    else
      (if f.target.Some? then {TypeInvalidTarget} else {}) + (if f.rule.Some? then {TypeInvalidRule} else {})
  }

  lemma PassSets(f: Findings, blocked: bool, now: Time, k: string)
    ensures OnlySets(SetOps(PassConditions(f, blocked), now))
    ensures IsSet(SetOps(PassConditions(f, blocked), now), k) <==> exists c <- PassConditions(f, blocked) :: c.key == k
  {
    var cs := PassConditions(f, blocked);
    var ops := SetOps(cs, now);
    forall i | 0 <= i < |cs|
      ensures ops[i] in ops && cs[i] in cs && ops[i] == Set(cs[i], now)
    {
    }
  }

  /** Whatever conditions came before, a pass leaves the durable types and those it set. */
  lemma TypesLeft(s: StatusState, f: Findings, now: Time, k: string)
    ensures k in Keys(Pass(s, f, now).list) <==>
      IsDurable(s.list, k) || exists c <- PassConditions(f, Blocked(s.list, f)) :: c.key == k
  {
    PassSets(f, Blocked(s.list, f), now, k);
    SetsLeave(s, SetOps(PassConditions(f, Blocked(s.list, f)), now), k);
  }

  lemma NoneDurableUnblocked(list: StatusList, f: Findings)
    requires NoneDurable(list)
    ensures Blocked(list, f) <==> f.target.Some? || f.rule.Some?
  {
    forall i | 0 <= i < |list|
      ensures !Begin(list)[i].staged
    {
      assert list[i] in list;
    }
  }

  /** History independence: without durable conditions the types left depend on the findings only. */
  lemma TypesDependOnFindings(s: StatusState, f: Findings, now: Time)
    requires NoneDurable(s.list)
    ensures Keys(Pass(s, f, now).list) == TypesFor(f)
  {
    NoneDurableUnblocked(s.list, f);
    forall k
      ensures k in Keys(Pass(s, f, now).list) <==> k in TypesFor(f)
    {
      TypesLeft(s, f, now, k);
    }
  }

  lemma TypesDiffer()
    ensures TypeReady != TypeInvalidTarget && TypeReady != TypeInvalidRule &&
      TypeReady != TypeWatchFailed && TypeReady != TypeValidated
  {
    assert TypeReady[0] == 'R' && TypeInvalidTarget[0] == 'I' && TypeInvalidRule[0] == 'I';
    assert TypeWatchFailed[0] == 'W' && TypeValidated[0] == 'V';
  }

  /** Whatever is durable: Ready is left if it was durable or nothing blocked the pass or failed in
      it, and in the latter case an error type is left only if it was durable. */
  lemma ReadyLeft(s: StatusState, f: Findings, now: Time)
    ensures var left, passed := Keys(Pass(s, f, now).list), !Blocked(s.list, f) && f.setup.None?;
      && (TypeReady in left <==> IsDurable(s.list, TypeReady) || passed)
      && (passed ==> forall k <- [TypeInvalidTarget, TypeInvalidRule, TypeWatchFailed] ::
        k in left <==> IsDurable(s.list, k))
  {
    TypesDiffer();
    assert TypeValidated[0] == 'V' && TypeInvalidTarget[0] == 'I' &&
      TypeInvalidRule[0] == 'I' && TypeWatchFailed[0] == 'W';
    TypesLeft(s, f, now, TypeReady);
    forall k | k in [TypeInvalidTarget, TypeInvalidRule, TypeWatchFailed]
      ensures !Blocked(s.list, f) && f.setup.None? ==> (k in Keys(Pass(s, f, now).list) <==> IsDurable(s.list, k))
    {
      TypesLeft(s, f, now, k);
    }
  }

  /** Without durable conditions Ready is left exactly after a pass without findings, and then no
      error condition is. */
  lemma ReadyMeansNoError(s: StatusState, f: Findings, now: Time)
    requires NoneDurable(s.list)
    ensures var left := Keys(Pass(s, f, now).list);
      && (TypeReady in left <==> f.target.None? && f.rule.None? && f.setup.None?)
      && (TypeReady in left ==> TypeInvalidTarget !in left && TypeInvalidRule !in left && TypeWatchFailed !in left)
  {
    NoneDurableUnblocked(s.list, f);
    ReadyLeft(s, f, now);
    assert forall k <- [TypeInvalidTarget, TypeInvalidRule, TypeWatchFailed] :: !IsDurable(s.list, k);
  }

  // ----- repeated passes

  ghost predicate HasDurableBlocker(list: StatusList) {
    exists c <- list :: c.durable && Blocks(c, Blockers, false)
  }

  lemma BeginBlocks(list: StatusList)
    ensures HasBlocking(Begin(list), Blockers, true) <==> HasDurableBlocker(list)
  {
    forall i | 0 <= i < |list|
      ensures Begin(list)[i] in Begin(list) && list[i] in list
    {
    }
  }

  /** Set calls of conditions that are not durable leave no new durable blocker. */
  lemma {:induction false} SetsAddNoBlocker(s: StatusState, ops: seq<Op<string, Content>>)
    requires OnlySets(ops) && forall op <- ops :: op.Set? ==> !op.condition.durable
    ensures HasDurableBlocker(ApplyAll(s, ops).list) ==> HasDurableBlocker(s.list)
  {
    if ops != [] {
      SetsAddNoBlocker(s, ops[..|ops| - 1]);
      assert ops[|ops| - 1] in ops;
    }
  }

  /** A pass does not change whether the same findings block the next one. */
  lemma PassKeepsBlocked(s: StatusState, f: Findings, now: Time)
    ensures Blocked(Pass(s, f, now).list, f) == Blocked(s.list, f)
  {
    var ops, s0 := SetOps(PassConditions(f, Blocked(s.list, f)), now), s.(list := Begin(s.list));
    var mid := ApplyAll(s0, ops);
    BeginBlocks(s.list);
    BeginBlocks(Kept(mid.list));
    assert HasDurableBlocker(s0.list) <==> HasDurableBlocker(s.list) by {
      BeginBlocks(s0.list);
    }
    if Blocked(s.list, f) {
      if f.target.None? && f.rule.None? {
        assert ops == [];
        var c :| c in s0.list && Blocks(c, Blockers, true);
        KeptIn(s0.list, c);
      }
    } else {
      PassSets(f, false, now, "");
      SetsAddNoBlocker(s0, ops);
      forall c | c in Kept(mid.list)
        ensures c in mid.list
      {
        KeptIn(mid.list, c);
      }
    }
  }

  lemma PassIsDistinct(f: Findings, blocked: bool, now: Time)
    requires blocked || InvalidConditions(f) == []
    ensures DistinctSets(SetOps(PassConditions(f, blocked), now))
  {
    PassSets(f, blocked, now, "");
    assert TypeInvalidTarget[7] == 'T' && TypeInvalidRule[7] == 'R';
    assert TypeReady[0] == 'R' && TypeWatchFailed[0] == 'W' && TypeValidated[0] == 'V';
  }

  /** A pass with the same findings leaves the conditions of the pass before as they are. */
  lemma RepeatedPass(s: StatusState, f: Findings, now: Time, later: Time)
    ensures Pass(Pass(s, f, now), f, later) == Pass(s, f, now)
  {
    PassKeepsBlocked(s, f, now);
    var cs := PassConditions(f, Blocked(s.list, f));
    PassIsDistinct(f, Blocked(s.list, f), now);
    RepeatChangesNothing(s, SetOps(cs, now), SetOps(cs, later));
  }

  // ----- what the conditions left say

  /** The first condition of this type has this content, and is not durable. */
  ghost predicate Says(list: StatusList, k: string, status: string, reason: string, category: string, message: string) {
    exists i: nat :: IsFirst(list, k, i) && !list[i].durable &&
      list[i].content == Content(status, reason, category, message, None)
  }

  /** An error now, or a durable and true condition of category Critical or Error from before. */
  ghost predicate IsBlocked(list: StatusList, f: Findings) {
    || f.target.Some? || f.rule.Some?
    || exists c <- list ::
         c.durable && c.content.status == "True" && (c.content.category == "Critical" || c.content.category == "Error")
  }

  lemma BlockedMeaning(list: StatusList, f: Findings)
    ensures Blocked(list, f) <==> IsBlocked(list, f)
  {
    BeginBlocks(list);
  }

  /** Each error found is reported as a critical one. A pass that is not blocked reports that validation
      completed, and whether the watch could be set up. */
  ghost predicate Reports(list: StatusList, f: Findings, blocked: bool) {
    && (f.target.Some? ==> Says(list, "InvalidTarget", "True", "GVRNotFound", "Critical",
          "Target GVR does not exist: " + f.target.value))
    && (f.rule.Some? ==> Says(list, "InvalidRule", "True", "InvalidExpression", "Critical",
          "Invalid CEL expression: " + f.rule.value))
    && (!blocked ==>
          && Says(list, "Validated", "True", "Completed", "Advisory", "Validation has been completed.")
          && (f.setup.None? ==> Says(list, "Ready", "True", "WatchActive", "Required",
                "Dynamic watch is active for " + f.gvr))
          && (f.setup.Some? ==> Says(list, "WatchFailed", "True", "WatchSetupFailed", "",
                "Failed to setup watch: " + f.setup.value)))
  }

  /** What a session sets comes first of its type afterwards. */
  lemma SetIsFirst(s: StatusState, cs: seq<StatusCondition>, now: Time, c: StatusCondition) returns (i: nat)
    requires DistinctSets(SetOps(cs, now)) && c in cs
    ensures var left := Session(s, SetOps(cs, now)).list; IsFirst(left, c.key, i) && Equal(left[i], c)
  {
    var ops, s0 := SetOps(cs, now), s.(list := Begin(s.list));
    var k :| 0 <= k < |cs| && cs[k] == c;
    assert ops[k] in ops && ops[k] == Set(c, now);
    SetsAreFound(s0, ops);
    var mid := ApplyAll(s0, ops).list;
    KeptFinds(mid, c.key);
    PositionFinds(Kept(mid), c.key);
    i := Position(Kept(mid), c.key);
  }

  lemma SetSays(s: StatusState, cs: seq<StatusCondition>, now: Time, c: StatusCondition)
    requires DistinctSets(SetOps(cs, now)) && c in cs && !c.durable && c.content.items == None
    ensures Says(Session(s, SetOps(cs, now)).list, c.key, c.content.status, c.content.reason, c.content.category,
      c.content.message)
  {
    var i := SetIsFirst(s, cs, now, c);
  }

  lemma PassReports(s: StatusState, f: Findings, now: Time)
    ensures Reports(Pass(s, f, now).list, f, IsBlocked(s.list, f))
  {
    BlockedMeaning(s.list, f);
    var blocked := Blocked(s.list, f);
    var cs := PassConditions(f, blocked);
    PassIsDistinct(f, blocked, now);
    if f.target.Some? {
      SetSays(s, cs, now, InvalidTarget(f.target.value));
    }
    if f.rule.Some? {
      SetSays(s, cs, now, InvalidRule(f.rule.value));
    }
    if !blocked {
      SetSays(s, cs, now, Validated);
      SetSays(s, cs, now, if f.setup.Some? then WatchFailed(f.setup.value) else Ready(f.gvr));
    }
  }

  /** Without durable conditions the status says Ready, and that this is true, iff nothing was found. */
  lemma ReadyIsTrue(s: StatusState, f: Findings, now: Time)
    requires NoneDurable(s.list)
    ensures var left := Pass(s, f, now).list;
      (exists i: nat :: IsFirst(left, "Ready", i) && left[i].content.status == "True") <==>
        f.target.None? && f.rule.None? && f.setup.None?
  {
    var left := Pass(s, f, now).list;
    PassReports(s, f, now);
    ReadyMeansNoError(s, f, now);
    assert forall i: nat :: IsFirst(left, "Ready", i) ==> left[i] in left && "Ready" in Keys(left);
  }
}
