/** lib/condition/condition.go: the managed list of conditions inside a resource status. */
module StatusConditions {
  import opened Prelude
  import opened ConditionLists

  const True := "True"
  const Critical := "Critical"
  const Error := "Error"

  datatype Content = Content(status: string, reason: string, category: string,
    message: string, items: Option<seq<string>>)

  type StatusCondition = Condition<string, Content>
  type StatusList = Conditions<string, Content>
  type StatusState = State<string, Content>

  /** A condition that blocks readiness; while staging only staged ones count. */
  predicate Blocks(c: StatusCondition, categories: seq<string>, staging: bool) {
    c.content.category in categories && c.content.status == True && (staging ==> c.staged)
  }

  predicate HasBlocking(list: StatusList, categories: seq<string>, staging: bool) {
    exists c <- list :: Blocks(c, categories, staging)
  }

  ghost predicate IsFirst(list: StatusList, k: string, i: nat) {
    i < |list| && list[i].key == k && forall j :: 0 <= j < i ==> list[j].key != k
  }

  /** The set calls SetCondition makes, one after the other. */
  function SetOps<K, V>(conditions: seq<Condition<K, V>>, now: Time): seq<Op<K, V>> {
    seq(|conditions|, i requires 0 <= i < |conditions| => Set(conditions[i], now))
  }

  class Explain<K(==), V> {
    var Added: map<K, Condition<K, V>>
    var Updated: map<K, Condition<K, V>>
    var Deleted: map<K, Condition<K, V>>

    ghost function Current(): Report<K, V>
      reads this
    {
      Report(Added, Updated, Deleted)
    }

    constructor ()
      ensures Current() == Report(map[], map[], map[])
    {
      Added, Updated, Deleted := map[], map[], map[];
    }

    method RecordAdded(c: Condition<K, V>)
      modifies this
      ensures Current() == old(Current()).Add(c)
    {
      Added := Added[c.key := c];
      Updated := Updated - {c.key};
      Deleted := Deleted - {c.key};
    }

    method RecordUpdated(c: Condition<K, V>)
      modifies this
      ensures Current() == old(Current()).Update(c)
    {
      if c.key in Added {
        return;
      }
      Updated := Updated[c.key := c];
      Deleted := Deleted - {c.key};
    }

    method RecordDeleted(c: Condition<K, V>)
      modifies this
      ensures Current() == old(Current()).Delete(c)
    {
      Deleted := Deleted[c.key := c];
      Added := Added - {c.key};
      Updated := Updated - {c.key};
    }
  }

  class ManagedConditions {
    var List: StatusList
    var staging: bool
    const explain: Explain<string, Content>

    ghost function Current(): StatusState
      reads this, explain
    {
      State(List, explain.Current())
    }

    constructor (list: StatusList)
      ensures Current() == State(list, Report(map[], map[], map[])) && !staging && fresh(explain)
    {
      List, staging := list, false;
      explain := new Explain();
    }

    method BeginStagingConditions()
      modifies this
      ensures staging && List == Begin(old(List))
    {
      staging := true;
      for i := 0 to |List|
        invariant staging && |List| == |old(List)|
        invariant List[..i] == Begin(old(List))[..i] && List[i..] == old(List)[i..]
      {
        List := List[i := List[i].(staged := List[i].durable)];
      }
    }

    method EndStagingConditions()
      modifies this, explain
      ensures !staging && Current() == End(old(Current()))
    {
      staging := false;
      var kept := [];
      for i := 0 to |List|
        invariant !staging && List == old(List)
        invariant kept == Kept(List[..i]) && explain.Current() == Reported(List[..i], old(explain.Current()))
      {
        assert List[..i + 1][..i] == List[..i];
        if List[i].staged {
          kept := kept + [List[i]];
        } else {
          explain.RecordDeleted(List[i]);
        }
      }
      assert List[..|List|] == List;
      List := kept;
    }

    /** The place of the first condition of a type, staged or not; the length stands for nil. */
    method find(k: string) returns (found: nat)
      ensures found <= |List| && (found < |List| ==> IsFirst(List, k, found))
      ensures found == |List| ==> k !in Keys(List)
    {
      for i := 0 to |List|
        invariant forall j :: 0 <= j < i ==> List[j].key != k
      {
        if List[i].key == k {
          return i;
        }
      }
      return |List|;
    }

    method SetCondition(conditions: seq<StatusCondition>, now: Time)
      modifies this, explain
      ensures staging == old(staging)
      ensures Current() == ApplyAll(old(Current()), SetOps(conditions, now))
    {
      for i := 0 to |conditions|
        invariant staging == old(staging)
        invariant Current() == ApplyAll(old(Current()), SetOps(conditions, now)[..i])
      {
        assert SetOps(conditions, now)[..i + 1][..i] == SetOps(conditions, now)[..i];
        SetNext(conditions[i], now);
      }
      assert SetOps(conditions, now)[..|conditions|] == SetOps(conditions, now);
    }

    /** The body of SetCondition's loop. */
    method SetNext(c: StatusCondition, now: Time)
      modifies this, explain
      ensures staging == old(staging)
      ensures Current() == SetOne(old(Current()), c, now)
    {
      var condition := c.(staged := true);
      var found := find(condition.key);
      PositionIs(List, condition.key, found);
      if found == |List| {
        explain.RecordAdded(condition);
        condition := condition.(lastTransitionTime := now);
        List := List + [condition];
      } else {
        var updated := !Equal(List[found], condition);
        List := List[found := Updated(List[found], condition, now)];
        if updated {
          explain.RecordUpdated(condition);
        }
      }
    }

    method StageCondition(types: seq<string>)
      modifies this
      ensures staging == old(staging) && List == StageAll(old(List), types)
    {
      for i := 0 to |List|
        invariant staging == old(staging) && |List| == |old(List)|
        invariant List[..i] == StageAll(old(List), types)[..i] && List[i..] == old(List)[i..]
      {
        if List[i].key in types {
          List := List[i := List[i].(staged := true)];
        }
      }
    }

    /** The condition of a type that is visible: the first one, which while staging must be staged. */
    method FindCondition(k: string) returns (found: Option<StatusCondition>)
      ensures found.Some? ==> exists i: nat ::
        IsFirst(List, k, i) && List[i] == found.value && (staging ==> found.value.staged)
      ensures found.None? ==> k !in Keys(List) || (staging && exists i: nat :: IsFirst(List, k, i) && !List[i].staged)
    {
      var i := find(k);
      if i == |List| {
        return None;
      }
      assert IsFirst(List, k, i);
      if staging && !List[i].staged {
        return None;
      }
      return Some(List[i]);
    }

    method HasConditionCategory(names: seq<string>) returns (has: bool)
      ensures has <==> HasBlocking(List, names, staging)
    {
      for i := 0 to |List|
        invariant forall j :: 0 <= j < i ==> !Blocks(List[j], names, staging)
      {
        if List[i].content.category !in names || List[i].content.status != True {
          continue;
        }
        if staging && !List[i].staged {
          continue;
        }
        assert Blocks(List[i], names, staging) && List[i] in List;
        return true;
      }
      return false;
    }

    method HasBlockerCondition() returns (has: bool)
      ensures has <==> HasBlocking(List, [Critical, Error], staging)
    {
      has := HasConditionCategory([Critical, Error]);
    }
  }
}
