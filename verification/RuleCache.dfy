/** The slice-per-GVR index of rulesets as a value, and the plain map it stands for. */
module RuleIndex {
  import opened Api

  type RuleMap<G(==), N(==), S> = map<(G, N), RuleSetOf<G, N, S>>
  type Index<G(==), N, S> = map<G, seq<RuleSetOf<G, N, S>>>

  function KeyOf<G, N, S>(r: RuleSetOf<G, N, S>): (G, N) {
    (r.GVR(), r.name)
  }

  ghost predicate SameName<G, N, S>(rules: seq<RuleSetOf<G, N, S>>, i: nat, j: nat) {
    i < j < |rules| && rules[i].name == rules[j].name
  }

  /** Exactly the map's rulesets for a GVR, each once. */
  ghost predicate Lists<G, N, S>(m: RuleMap<G, N, S>, g: G, rules: seq<RuleSetOf<G, N, S>>) {
    && (forall i, j {:trigger SameName(rules, i, j)} :: !SameName(rules, i, j))
    && (forall i :: 0 <= i < |rules| ==> (g, rules[i].name) in m && m[(g, rules[i].name)] == rules[i])
    && (forall k {:trigger m[k] in rules} :: k in m && k.0 == g ==> m[k] in rules)
  }

  /** No list is empty, and each lists the map's rulesets for its GVR. */
  ghost predicate Represents<G, N, S>(index: Index<G, N, S>, m: RuleMap<G, N, S>) {
    && (forall k <- m :: KeyOf(m[k]) == k && k.0 in index)
    && (forall g {:trigger Lists(m, g, index[g])} :: g in index ==> index[g] != [] && Lists(m, g, index[g]))
  }

  function Get<G, N, S>(index: Index<G, N, S>, g: G): seq<RuleSetOf<G, N, S>> {
    if g in index then index[g] else []
  }

  /** Overwriting an element with the last one and dropping the last place. */
  function SwapRemove<G, N, S>(rules: seq<RuleSetOf<G, N, S>>, i: nat): seq<RuleSetOf<G, N, S>>
    requires i < |rules|
  {
    rules[i := rules[|rules| - 1]][..|rules| - 1]
  }

  lemma PutLists<G, N, S>(m: RuleMap<G, N, S>, rules: seq<RuleSetOf<G, N, S>>, r: RuleSetOf<G, N, S>)
    requires Lists(m, r.GVR(), rules) && KeyOf(r) !in m
    ensures Lists(m[KeyOf(r) := r], r.GVR(), rules + [r])
  {
    var rules' := rules + [r];
    forall i: nat, j: nat
      ensures !SameName(rules', i, j)
    {
      if i < j < |rules| {
        assert !SameName(rules, i, j);
      } else if i < j == |rules| {
        assert (r.GVR(), rules[i].name) in m;
      }
    }
  }

  /** The first position of a name, or the length. */
  function Position<G, N(==), S>(rules: seq<RuleSetOf<G, N, S>>, name: N): (i: nat)
    ensures i <= |rules|
  {
    if rules == [] || rules[0].name == name then 0 else 1 + Position(rules[1..], name)
  }

  lemma {:induction false} PositionFinds<G, N, S>(rules: seq<RuleSetOf<G, N, S>>, name: N)
    ensures var i := Position(rules, name); i < |rules| ==> rules[i].name == name
    ensures forall j :: 0 <= j < Position(rules, name) ==> rules[j].name != name
  {
    if rules != [] && rules[0].name != name {
      PositionFinds(rules[1..], name);
      forall j | 0 <= j < Position(rules, name)
        ensures rules[j].name != name
      {
        assert j > 0 ==> rules[j] == rules[1..][j - 1];
      }
    }
  }

  /** The cache as a value: its lists and the ActiveRulesets gauge. */
  datatype State<G(==), N, S> = State(index: Index<G, N, S>, active: int)

  /** addRule. */
  function Add<G(==), N, S>(s: State<G, N, S>, r: RuleSetOf<G, N, S>): State<G, N, S> {
    State(s.index[r.GVR() := Get(s.index, r.GVR()) + [r]], s.active + 1)
  }

  /** removeRule: the first ruleset of that name under that target goes, by a swap; so does an emptied list. */
  function Remove<G(==), N(==), S>(s: State<G, N, S>, g: G, name: N): State<G, N, S> {
    var rules := Get(s.index, g);
    var i := Position(rules, name);
    if i == |rules| then s else
      var rules' := SwapRemove(rules, i);
      State(if |rules'| == 0 then s.index - {g} else s.index[g := rules'], s.active - 1)
  }

  /** The cache stands for the map: its lists are the map's, and the gauge counts its entries. */
  ghost predicate Stands<G, N, S>(s: State<G, N, S>, m: RuleMap<G, N, S>) {
    Represents(s.index, m) && s.active == |m|
  }

  lemma AddStands<G, N, S>(s: State<G, N, S>, m: RuleMap<G, N, S>, r: RuleSetOf<G, N, S>)
    requires Stands(s, m) && KeyOf(r) !in m
    ensures Stands(Add(s, r), m[KeyOf(r) := r])
  {
    var g, m', index' := r.GVR(), m[KeyOf(r) := r], Add(s, r).index;
    forall h | h in index'
      ensures index'[h] != [] && Lists(m', h, index'[h])
    {
      if h != g {
        assert Lists(m, h, s.index[h]);
      } else {
        PutLists(m, Get(s.index, g), r);
      }
    }
  }

  lemma SwapRemoveLists<G, N, S>(m: RuleMap<G, N, S>, g: G, rules: seq<RuleSetOf<G, N, S>>, i: nat)
    requires Lists(m, g, rules) && i < |rules| && forall k <- m :: m[k].name == k.1
    ensures Lists(m - {(g, rules[i].name)}, g, SwapRemove(rules, i))
  {
    var rules', m' := SwapRemove(rules, i), m - {(g, rules[i].name)};
    forall a: nat, b: nat
      ensures !SameName(rules', a, b)
    {
      assert !SameName(rules, a, b);
      assert !SameName(rules, a, |rules| - 1) && !SameName(rules, b, |rules| - 1);
    }
    forall j | 0 <= j < |rules'|
      ensures (g, rules'[j].name) in m' && m'[(g, rules'[j].name)] == rules'[j]
    {
      var j0 := if j == i then |rules| - 1 else j;
      assert !SameName(rules, j0, i) && !SameName(rules, i, j0);
    }
    forall k | k in m' && k.0 == g
      ensures m'[k] in rules'
    {
      assert m[k] in rules;
      var j :| 0 <= j < |rules| && rules[j] == m[k];
      assert j != i;
      assert rules'[if j == |rules| - 1 then i else j] == m[k];
    }
  }

  lemma RemoveStands<G, N, S>(s: State<G, N, S>, m: RuleMap<G, N, S>, g: G, name: N)
    requires Stands(s, m)
    ensures Stands(Remove(s, g, name), m - {(g, name)})
  {
    var rules, i := Get(s.index, g), Position(Get(s.index, g), name);
    PositionFinds(rules, name);
    assert (g, name) in m ==> Lists(m, g, rules) && m[(g, name)] in rules && KeyOf(m[(g, name)]) == (g, name);
    if i == |rules| {
      assert m - {(g, name)} == m;
    } else {
      assert Lists(m, g, rules);
      CutRepresents(s.index, m, g, i);
    }
  }

  lemma CutRepresents<G, N, S>(index: Index<G, N, S>, m: RuleMap<G, N, S>, g: G, i: nat)
    requires Represents(index, m) && g in index && i < |index[g]|
    ensures var rules := SwapRemove(index[g], i);
      Represents(if |rules| == 0 then index - {g} else index[g := rules], m - {(g, index[g][i].name)})
  {
    var rules, m' := SwapRemove(index[g], i), m - {(g, index[g][i].name)};
    var index' := if |rules| == 0 then index - {g} else index[g := rules];
    assert Lists(m, g, index[g]);
    SwapRemoveLists(m, g, index[g], i);
    forall h | h in index'
      ensures index'[h] != [] && Lists(m', h, index'[h])
    {
      if h != g {
        assert Lists(m, h, index[h]);
      }
    }
    forall k | k in m'
      ensures k.0 in index'
    {
      assert k.0 == g ==> m'[k] in rules;
    }
  }

  // ----- sequences of calls

  datatype Call<G, N, S> = Put(rule: RuleSetOf<G, N, S>) | Drop(rule: RuleSetOf<G, N, S>)

  /** What AddOrUpdateRule and RemoveRule do to the cache. */
  function After<G(==), N(==), S>(s: State<G, N, S>, call: Call<G, N, S>): State<G, N, S> {
    var removed := Remove(s, call.rule.GVR(), call.rule.name);
    if call.Put? then Add(removed, call.rule) else removed
  }

  function Run<G(==), N(==), S>(s: State<G, N, S>, calls: seq<Call<G, N, S>>): State<G, N, S> {
    if calls == [] then s else After(Run(s, calls[..|calls| - 1]), calls[|calls| - 1])
  }

  /** The same calls on the plain map. */
  function Replay<G(==), N(==), S>(m: RuleMap<G, N, S>, calls: seq<Call<G, N, S>>): RuleMap<G, N, S> {
    if calls == [] then m else
      var before, last := Replay(m, calls[..|calls| - 1]), calls[|calls| - 1];
      match last
      case Put(r) => before[KeyOf(r) := r]
      case Drop(r) => before - {KeyOf(r)}
  }

  lemma AfterStands<G, N, S>(s: State<G, N, S>, m: RuleMap<G, N, S>, call: Call<G, N, S>)
    requires Stands(s, m)
    ensures Stands(After(s, call), if call.Put? then m[KeyOf(call.rule) := call.rule] else m - {KeyOf(call.rule)})
  {
    var k := KeyOf(call.rule);
    RemoveStands(s, m, k.0, k.1);
    if call.Put? {
      AddStands(Remove(s, k.0, k.1), m - {k}, call.rule);
      assert (m - {k})[k := call.rule] == m[k := call.rule];
    }
  }

  /** Whatever the calls, the cache stands for the plain map they build. */
  lemma {:induction false} CacheRefinesMap<G, N, S>(s: State<G, N, S>, m: RuleMap<G, N, S>, calls: seq<Call<G, N, S>>)
    requires Stands(s, m)
    ensures Stands(Run(s, calls), Replay(m, calls))
  {
    if calls != [] {
      CacheRefinesMap(s, m, calls[..|calls| - 1]);
      AfterStands(Run(s, calls[..|calls| - 1]), Replay(m, calls[..|calls| - 1]), calls[|calls| - 1]);
    }
  }

  /** The last call for a key decides: the ruleset put, or none; without one the key is as before. */
  lemma {:induction false} LastCallWins<G, N, S>(m: RuleMap<G, N, S>, calls: seq<Call<G, N, S>>, k: (G, N), i: nat)
    requires i <= |calls| && forall j :: i <= j < |calls| ==> KeyOf(calls[j].rule) != k
    requires i > 0 ==> KeyOf(calls[i - 1].rule) == k
    ensures var m' := Replay(m, calls);
      if i == 0 then (k in m' <==> k in m) && (k in m ==> m'[k] == m[k])
      else if calls[i - 1].Put? then k in m' && m'[k] == calls[i - 1].rule
      else k !in m'
  {
    if i < |calls| {
      LastCallWins(m, calls[..|calls| - 1], k, i);
    }
  }

  /** The targets with a list are the targets with a rule. */
  lemma KeysAreRuled<G, N, S>(index: Index<G, N, S>, m: RuleMap<G, N, S>)
    requires Represents(index, m)
    ensures index.Keys == set k <- m :: k.0
  {
    forall g | g in index
      ensures exists k <- m :: k.0 == g
    {
      assert Lists(m, g, index[g]) && index[g] != [];
      assert (g, index[g][0].name) in m;
    }
  }
}

/** internal/watch/rule_cache.go. Slices share their backing arrays the way Go's do: a removal swaps
    in place and an append may write in place. */
module RuleCaches {
  import opened Prelude
  import opened Api
  import opened RuleIndex

  /** A slice with offset zero; its capacity is the length of the backing array. */
  datatype Slice<R> = Slice(backing: array<R>, len: nat)

  /** Go's append: in place while there is room, otherwise into a larger array. */
  method Append<R>(s: Slice<R>, x: R) returns (s': Slice<R>)
    requires s.len <= s.backing.Length
    modifies s.backing
    ensures s'.len == s.len + 1 <= s'.backing.Length
    ensures s'.backing == s.backing || fresh(s'.backing)
    ensures s'.backing[..s'.len] == old(s.backing[..s.len]) + [x]
  {
    if s.len < s.backing.Length {
      s.backing[s.len] := x;
      s' := Slice(s.backing, s.len + 1);
    } else {
      var bigger := new R[2 * s.len + 1](i requires 0 <= i < 2 * s.len + 1 reads s.backing =>
        if i < s.len then s.backing[i] else x);
      s' := Slice(bigger, s.len + 1);
    }
  }

  class RuleCache<G(==), N(==), S> {
    var cache: map<G, Slice<RuleSetOf<G, N, S>>>
    /** The ActiveRulesets gauge. */
    var activeRulesets: int
    /** What the slices hold. */
    ghost var index: Index<G, N, S>
    /** The target each backing array was made for. */
    ghost var owners: map<array<RuleSetOf<G, N, S>>, G>

    /** A slice lies within its array and holds what the index says; an array has one owner, so
        slices do not share memory. */
    ghost predicate SliceOk(g: G)
      requires g in cache
      reads this`cache, this`index, this`owners, owners.Keys
    {
      var slice := cache[g];
      && slice.backing in owners && owners[slice.backing] == g
      && g in index && slice.len == |index[g]| <= slice.backing.Length && slice.backing[..slice.len] == index[g]
    }

    ghost predicate Valid()
      reads this`cache, this`index, this`owners, owners.Keys
    {
      index.Keys == cache.Keys && forall g {:trigger SliceOk(g)} :: g in cache ==> SliceOk(g)
    }

    ghost function Abstract(): State<G, N, S>
      reads this
    {
      State(index, activeRulesets)
    }

    constructor ()
      ensures Valid() && owners == map[] && Abstract() == State(map[], 0)
    {
      cache, activeRulesets := map[], 0;
      index, owners := map[], map[];
    }

    method AddOrUpdateRule(or: RuleSetOf<G, N, S>)
      requires Valid()
      modifies this, owners.Keys
      ensures Valid() && (forall a <- owners :: a in old(owners) || fresh(a))
      ensures Abstract() == After(old(Abstract()), Put(or))
    {
      removeRule(or);
      addRule(or);
    }

    method RemoveRule(or: RuleSetOf<G, N, S>)
      requires Valid()
      modifies this, owners.Keys
      ensures Valid() && owners == old(owners)
      ensures Abstract() == After(old(Abstract()), Drop(or))
    {
      removeRule(or);
    }

    method addRule(or: RuleSetOf<G, N, S>)
      requires Valid()
      modifies this, owners.Keys
      ensures Valid() && (forall a <- owners :: a in old(owners) || fresh(a))
      ensures Abstract() == Add(old(Abstract()), or)
    {
      var key := or.GVR();
      var slice;
      assert key in cache ==> SliceOk(key);
      if key in cache {
        slice := Append(cache[key], or);
      } else {
        var a := new RuleSetOf<G, N, S>[1](_ => or);
        slice := Slice(a, 1);
      }
      cache := cache[key := slice];
      owners := owners[slice.backing := key];
      index := index[key := Get(index, key) + [or]];
      forall g | g in cache
        ensures SliceOk(g)
      {
        assert g != key ==> old(SliceOk(g));
      }
      activeRulesets := activeRulesets + 1;
    }

    method removeRule(or: RuleSetOf<G, N, S>)
      requires Valid()
      modifies this, owners.Keys
      ensures Valid() && owners == old(owners)
      ensures Abstract() == Remove(old(Abstract()), or.GVR(), or.name)
    {
      var key := or.GVR();
      if key !in cache {
        return;
      }
      var slice := cache[key];
      assert SliceOk(key);
      PositionFinds(index[key], or.name);
      for i := 0 to slice.len
        invariant forall j :: 0 <= j < i ==> index[key][j].name != or.name
      {
        assert slice.backing[i] == index[key][i];
        if slice.backing[i].name == or.name {
          assert i == Position(index[key], or.name);
          RemoveAt(key, i);
          activeRulesets := activeRulesets - 1;
          return;
        }
      }
    }

    /** The swap removal inside removeRule's loop. */
    method RemoveAt(key: G, i: nat)
      requires Valid() && key in cache && i < |index[key]|
      modifies this, owners.Keys
      ensures Valid() && unchanged(this`activeRulesets, this`owners)
      ensures var rules := SwapRemove(old(index)[key], i);
        index == if |rules| == 0 then old(index) - {key} else old(index)[key := rules]
    {
      var slice := cache[key];
      assert SliceOk(key);
      slice.backing[i] := slice.backing[slice.len - 1];
      slice := Slice(slice.backing, slice.len - 1);
      ghost var rules := SwapRemove(index[key], i);
      assert slice.backing[..slice.len] == rules;
      if slice.len == 0 {
        cache := cache - {key};
        index := index - {key};
      } else {
        cache := cache[key := slice];
        index := index[key := rules];
      }
      forall g | g in cache
        ensures SliceOk(g)
      {
        assert g != key ==> old(SliceOk(g));
      }
    }

    /** The rulesets of a GVR in an array of the caller's own. */
    method List(gvr: G) returns (rulesets: array<RuleSetOf<G, N, S>>)
      requires Valid()
      ensures fresh(rulesets) && rulesets[..] == Get(index, gvr)
    {
      assert gvr in cache ==> SliceOk(gvr);
      var cached := if gvr in cache then cache[gvr].backing[..cache[gvr].len] else [];
      rulesets := new RuleSetOf<G, N, S>[|cached|](i requires 0 <= i < |cached| => cached[i]);
    }

    /** The GVRs with at least one ruleset, each once. */
    method GVRs() returns (gvrs: seq<G>)
      requires Valid()
      ensures |gvrs| == |Elements(gvrs)| && Elements(gvrs) == set g | g in index && index[g] != []
    {
      gvrs := [];
      var todo := cache.Keys;
      while todo != {}
        invariant todo <= cache.Keys && |gvrs| == |Elements(gvrs)|
        invariant Elements(gvrs) == set g | g in index && index[g] != [] && g !in todo
      {
        var gvr :| gvr in todo;
        assert SliceOk(gvr);
        if cache[gvr].len > 0 {
          assert gvr !in Elements(gvrs);
          ghost var before := gvrs;
          gvrs := gvrs + [gvr];
          assert Elements(gvrs) == Elements(before) + {gvr};
        }
        todo := todo - {gvr};
      }
    }
  }

  /** A list taken before any calls still reads the same after them, whatever they do in place. */
  method ListThenCalls<G(==), N(==), S>(c: RuleCache<G, N, S>, gvr: G, calls: seq<Call<G, N, S>>)
    returns (list: array<RuleSetOf<G, N, S>>)
    requires c.Valid()
    modifies c, c.owners.Keys
    ensures c.Valid() && c.Abstract() == Run(old(c.Abstract()), calls)
    ensures list[..] == Get(old(c.index), gvr)
  {
    list := c.List(gvr);
    for i := 0 to |calls|
      invariant c.Valid() && list !in c.owners && (forall a <- c.owners :: a in old(c.owners) || fresh(a))
      invariant c.Abstract() == Run(old(c.Abstract()), calls[..i]) && list[..] == Get(old(c.index), gvr)
    {
      assert calls[..i + 1][..i] == calls[..i];
      match calls[i] {
        case Put(r) => c.AddOrUpdateRule(r);
        case Drop(r) => c.RemoveRule(r);
      }
    }
    assert calls[..|calls|] == calls;
  }
}
