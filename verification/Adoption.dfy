/** Regrouping roots: in every group with a leader, the leader adopts the other roots. */
module Adoption {
  import opened Prelude
  import opened OwnerGraph

  // ----- links

  /** From p to q only roots change, and each that does moves under a root that stays one. */
  ghost predicate Adopts<T>(p: Parents<T>, roots: seq<T>, q: Parents<T>) {
    && q.Keys == p.Keys
    && (forall x <- p :: x !in roots ==> q[x] == p[x])
    && (forall x <- roots :: x in q && q[x].Some? ==> q[x].value in roots && q[x].value in q && q[q[x].value] == None)
  }

  /** Adopted roots follow the children their adopter had. */
  ghost predicate Extends<T>(c: Children<T>, roots: seq<T>, q: Parents<T>, d: Children<T>) {
    d.Keys == c.Keys && forall x <- c :: d[x] == c[x] + Linked(roots, q, Some(x))
  }

  lemma AdoptionClosed<T>(p: Parents<T>, roots: seq<T>, q: Parents<T>)
    requires Closed(p) && AreRoots(p, roots) && Adopts(p, roots, q)
    ensures Closed(q)
  {
  }

  lemma ExtendedList<T>(p: Parents<T>, roots: seq<T>, q: Parents<T>, x: T, list: seq<T>, added: seq<T>)
    requires AreRoots(p, roots) && Adopts(p, roots, q) && ChildList(p, x, list) && added == Linked(roots, q, Some(x))
    ensures ChildList(q, x, list + added)
  {
    LinkedHolds(roots, q, Some(x), added);
    DistinctConcat(list, added);
  }

  /** Parent links and child lists still agree after an adoption. */
  lemma AdoptionMirrors<T>(p: Parents<T>, c: Children<T>, roots: seq<T>, q: Parents<T>, d: Children<T>)
    requires Mirrors(p, c) && AreRoots(p, roots) && Adopts(p, roots, q) && Extends(c, roots, q, d)
    ensures Mirrors(q, d)
  {
    AdoptionClosed(p, roots, q);
    forall x | x in d
      ensures ChildList(q, x, d[x])
    {
      assert ChildList(p, x, c[x]);
      ExtendedList(p, roots, q, x, c[x], Linked(roots, q, Some(x)));
    }
    forall y | y in q
      ensures Listed(q, d, y)
    {
      assert Listed(p, c, y);
      if q[y].Some? {
        LinkedHolds(roots, q, q[y], Linked(roots, q, q[y]));
      }
    }
  }

  /** Adoption makes no node reachable or unreachable. */
  lemma AdoptionKeepsRooted<T>(p: Parents<T>, roots: seq<T>, q: Parents<T>, x: T)
    requires Closed(p) && AreRoots(p, roots) && Adopts(p, roots, q)
    ensures Rooted(q, x) <==> Rooted(p, x)
  {
    if Rooted(p, x) {
      var k: nat :| RootedAt(p, x, k);
      StaysRooted(p, roots, q, x, k);
    }
    if Rooted(q, x) {
      var k: nat :| RootedAt(q, x, k);
      WasRooted(p, roots, q, x, k);
    }
  }

  lemma {:induction false} StaysRooted<T>(p: Parents<T>, roots: seq<T>, q: Parents<T>, x: T, k: nat)
    requires Closed(p) && AreRoots(p, roots) && Adopts(p, roots, q) && RootedAt(p, x, k)
    ensures Rooted(q, x)
  {
    AdoptionClosed(p, roots, q);
    ParentDecides(q, x);
    if k > 0 {
      StaysRooted(p, roots, q, p[x].value, k - 1);
    } else if q[x].Some? {
      ParentDecides(q, q[x].value);
    }
  }

  lemma {:induction false} WasRooted<T>(p: Parents<T>, roots: seq<T>, q: Parents<T>, x: T, k: nat)
    requires Closed(p) && AreRoots(p, roots) && Adopts(p, roots, q) && RootedAt(q, x, k)
    ensures Rooted(p, x)
  {
    ParentDecides(p, x);
    if k > 0 && x !in roots {
      WasRooted(p, roots, q, p[x].value, k - 1);
    }
  }

  // ----- groups

  /** x is one of the oldest candidates among the roots of its group. */
  ghost predicate Oldest<T, K>(
    roots: seq<T>, group: T -> Option<K>, candidate: T -> bool, created: T -> int, key: K, x: T)
  {
    && x in roots && group(x) == Some(key) && candidate(x)
    && (forall r <- roots :: candidate(r) && group(r) == Some(key) ==> created(x) <= created(r))
  }

  /** Exactly the groups with a candidate are led, each by one of its oldest candidates. */
  ghost predicate Leads<T, K>(
    roots: seq<T>, group: T -> Option<K>, candidate: T -> bool, created: T -> int, leaders: map<K, T>)
  {
    && (forall key <- leaders :: Oldest(roots, group, candidate, created, key, leaders[key]))
    && (forall r <- roots :: candidate(r) && group(r).Some? ==> group(r).value in leaders)
  }

  /** The leader that a root comes under, if that is another node. */
  ghost function LeaderOf<T, K>(group: T -> Option<K>, leaders: map<K, T>, x: T): Option<T> {
    match group(x)
    case None => None
    case Some(key) => if key in leaders && leaders[key] != x then Some(leaders[key]) else None
  }

  /** q is p with every root of a led group, except the leader, moved under the leader. */
  ghost predicate Regrouped<T, K>(
    p: Parents<T>, roots: seq<T>, group: T -> Option<K>, leaders: map<K, T>, q: Parents<T>)
  {
    && q.Keys == p.Keys
    && (forall x <- p :: q[x] == if x in roots then LeaderOf(group, leaders, x) else p[x])
  }

  lemma RegroupingAdopts<T, K>(
    p: Parents<T>, roots: seq<T>, group: T -> Option<K>, candidate: T -> bool, created: T -> int,
    leaders: map<K, T>, q: Parents<T>)
    requires AreRoots(p, roots) && Leads(roots, group, candidate, created, leaders)
    requires Regrouped(p, roots, group, leaders, q)
    ensures Adopts(p, roots, q)
  {
    forall x | x in roots && q[x].Some?
      ensures q[x].value in roots && q[x].value in q && q[q[x].value] == None
    {
      var key := group(x).value;
      assert Oldest(roots, group, candidate, created, key, leaders[key]);
    }
  }

  /** What regrouping makes of a led group: l, one of its oldest candidates, is its only root and has
      adopted the other members. */
  ghost predicate LeadsAlone<T, K>(
    roots: seq<T>, group: T -> Option<K>, candidate: T -> bool, created: T -> int, key: K,
    q: Parents<T>, after: seq<T>, l: T)
  {
    && l in after && Oldest(roots, group, candidate, created, key, l)
    && (forall r <- roots :: r in q && group(r) == Some(key) ==> q[r] == if r == l then None else Some(l))
    && (forall s <- after :: group(s) == Some(key) ==> s == l)
  }

  /** Afterwards a group with a candidate is led alone, and the roots of every other group stay roots. */
  lemma LeaderIsOnlyRoot<T, K>(
    p: Parents<T>, roots: seq<T>, group: T -> Option<K>, candidate: T -> bool, created: T -> int,
    leaders: map<K, T>, q: Parents<T>, after: seq<T>, r: T)
    requires AreRoots(p, roots) && Leads(roots, group, candidate, created, leaders) && r in roots
    requires Regrouped(p, roots, group, leaders, q) && AreRoots(q, after)
    ensures group(r).Some? && (exists m :: m in roots && candidate(m) && group(m) == group(r)) ==>
      exists l :: LeadsAlone(roots, group, candidate, created, group(r).value, q, after, l)
    ensures (group(r) == None || !exists m :: m in roots && candidate(m) && group(m) == group(r)) ==> r in after
  {
    if group(r).Some? {
      var key := group(r).value;
      assert key in leaders ==> Oldest(roots, group, candidate, created, key, leaders[key]);
      if m :| m in roots && candidate(m) && group(m) == group(r) {
        assert LeadsAlone(roots, group, candidate, created, key, q, after, leaders[key]);
      }
    }
  }

  /** A leader has the other members, in root order, after the children it had. */
  lemma LeaderAdoptsInOrder<T, K>(
    p: Parents<T>, c: Children<T>, roots: seq<T>, group: T -> Option<K>, leaders: map<K, T>,
    q: Parents<T>, d: Children<T>, key: K)
    requires AreRoots(p, roots) && Regrouped(p, roots, group, leaders, q) && LeadersMatch(roots, group, leaders)
    requires key in leaders && leaders[key] in c && Extends(c, roots, q, d)
    ensures leaders[key] in d && d[leaders[key]] ==
      c[leaders[key]] + Without(Members(roots, group, Some(key)), leaders[key])
  {
    LeaderLinks(p, roots, group, leaders, q, key);
    LinkedAreMembers(roots, group, key, leaders[key], q);
  }

  lemma LeaderLinks<T, K>(
    p: Parents<T>, roots: seq<T>, group: T -> Option<K>, leaders: map<K, T>, q: Parents<T>, key: K)
    requires AreRoots(p, roots) && Regrouped(p, roots, group, leaders, q) && key in leaders
    requires LeadersMatch(roots, group, leaders)
    ensures forall x <- roots :: x in q && (q[x] == Some(leaders[key]) <==> group(x) == Some(key) && x != leaders[key])
  {
    forall x | x in roots && group(x).Some? && group(x).value in leaders && leaders[group(x).value] == leaders[key]
      ensures group(x).value == key
    {
      assert group(leaders[group(x).value]) == group(x);
    }
  }

  /** A second regrouping finds nothing to adopt. */
  lemma RegroupingTwice<T, K>(
    p: Parents<T>, roots: seq<T>, group: T -> Option<K>, candidate: T -> bool, created: T -> int,
    leaders: map<K, T>, q: Parents<T>, d: Children<T>,
    after: seq<T>, again: map<K, T>, q2: Parents<T>, d2: Children<T>)
    requires AreRoots(p, roots) && Leads(roots, group, candidate, created, leaders)
    requires Regrouped(p, roots, group, leaders, q) && AreRoots(q, after)
    requires Leads(after, group, candidate, created, again)
    requires Regrouped(q, after, group, again, q2) && Extends(d, after, q2, d2)
    ensures q2 == q && d2 == d
  {
    forall x | x in after
      ensures LeaderOf(group, again, x) == None
    {
      SoleRoot(p, roots, group, candidate, created, leaders, q, after, again, x);
    }
    assert q2 == q;
    forall x | x in d
      ensures d2[x] == d[x]
    {
      NothingLinked(after, q2, x, Linked(after, q2, Some(x)));
    }
    assert d2 == d;
  }

  lemma NothingLinked<T>(roots: seq<T>, q: Parents<T>, x: T, added: seq<T>)
    requires Distinct(roots) && (forall y <- roots :: y in q && q[y] != Some(x)) && added == Linked(roots, q, Some(x))
    ensures added == []
  {
    assert added != [] ==> added[0] in added;
    LinkedHolds(roots, q, Some(x), added);
  }

  lemma SoleRoot<T, K>(
    p: Parents<T>, roots: seq<T>, group: T -> Option<K>, candidate: T -> bool, created: T -> int,
    leaders: map<K, T>, q: Parents<T>, after: seq<T>, again: map<K, T>, x: T)
    requires AreRoots(p, roots) && Leads(roots, group, candidate, created, leaders)
    requires Regrouped(p, roots, group, leaders, q) && AreRoots(q, after)
    requires Leads(after, group, candidate, created, again) && x in after
    ensures LeaderOf(group, again, x) == None
  {
    if group(x).Some? && group(x).value in again {
      var l := again[group(x).value];
      assert Oldest(after, group, candidate, created, group(x).value, l);
      assert l in roots && x in roots;
    }
  }

  // ----- one group at a time

  /** The roots of one group, or those of none, in order. */
  ghost function Members<T, K>(roots: seq<T>, group: T -> Option<K>, key: Option<K>): seq<T> {
    if roots == [] then []
    else
      var last := roots[|roots| - 1];
      Members(roots[..|roots| - 1], group, key) + if group(last) == key then [last] else []
  }

  lemma {:induction false} MembersAre<T, K>(roots: seq<T>, group: T -> Option<K>, key: Option<K>, members: seq<T>)
    requires members == Members(roots, group, key)
    ensures forall x :: x in members <==> x in roots && group(x) == key
  {
    if roots != [] {
      var front, last := roots[..|roots| - 1], roots[|roots| - 1];
      assert roots == front + [last];
      MembersAre(front, group, key, Members(front, group, key));
    }
  }

  lemma {:induction false} MembersHold<T, K>(roots: seq<T>, group: T -> Option<K>, key: Option<K>, members: seq<T>)
    requires Distinct(roots) && members == Members(roots, group, key)
    ensures Distinct(members)
    ensures forall x :: x in members <==> x in roots && group(x) == key
  {
    MembersAre(roots, group, key, members);
    if roots != [] {
      var front, last := roots[..|roots| - 1], roots[|roots| - 1];
      assert roots == front + [last];
      var before := Members(front, group, key);
      MembersHold(front, group, key, before);
      DistinctConcat(before, if group(last) == key then [last] else []);
    }
  }

  ghost function Without<T>(xs: seq<T>, x: T): seq<T> {
    if xs == [] then []
    else
      var last := xs[|xs| - 1];
      Without(xs[..|xs| - 1], x) + if last == x then [] else [last]
  }

  /** Every member but the leader moves under the leader. */
  ghost function Moved<T>(q: Parents<T>, members: seq<T>, leader: T): Parents<T> {
    map x | x in q :: if x in members && x != leader then Some(leader) else q[x]
  }

  lemma {:induction false} WithoutAppends<T>(xs: seq<T>, y: T, x: T)
    ensures Without(xs + [y], x) == Without(xs, x) + if y == x then [] else [y]
  {
    assert (xs + [y])[..|xs|] == xs;
  }

  /** The members have moved under the leader, in both directions. */
  ghost predicate Adopted<T>(
    q: Parents<T>, d: Children<T>, members: seq<T>, leader: T, r: Parents<T>, e: Children<T>)
    requires leader in d
  {
    r == Moved(q, members, leader) && e == d[leader := d[leader] + Without(members, leader)]
  }

  lemma AdoptedNone<T>(q: Parents<T>, d: Children<T>, leader: T)
    requires leader in d
    ensures Adopted(q, d, [], leader, q, d)
  {
    assert d[leader] + [] == d[leader];
  }

  lemma AdoptedOneMore<T>(
    q: Parents<T>, d: Children<T>, members: seq<T>, i: nat, leader: T, r: Parents<T>, e: Children<T>)
    requires leader in d && i < |members| && members[i] in q && Adopted(q, d, members[..i], leader, r, e)
    ensures members[i] == leader ==> Adopted(q, d, members[..i + 1], leader, r, e)
    ensures members[i] != leader ==>
      Adopted(q, d, members[..i + 1], leader, r[members[i] := Some(leader)], e[leader := e[leader] + [members[i]]])
  {
    assert members[..i + 1] == members[..i] + [members[i]];
    WithoutAppends(members[..i], members[i], leader);
    var before := Without(members[..i], leader);
    assert before + [] == before;
    assert (d[leader] + before) + [members[i]] == d[leader] + (before + [members[i]]);
  }

  lemma {:induction false} LinkedSame<T>(roots: seq<T>, q: Parents<T>, r: Parents<T>, parent: Option<T>)
    requires forall x <- roots :: x in q && x in r && (q[x] == parent <==> r[x] == parent)
    ensures Linked(roots, q, parent) == Linked(roots, r, parent)
  {
    if roots != [] {
      var front, last := roots[..|roots| - 1], roots[|roots| - 1];
      assert roots == front + [last];
      LinkedSame(front, q, r, parent);
    }
  }

  lemma {:induction false} LinkedAreMembers<T, K>(
    roots: seq<T>, group: T -> Option<K>, key: K, leader: T, q: Parents<T>)
    requires forall x <- roots :: x in q && (q[x] == Some(leader) <==> group(x) == Some(key) && x != leader)
    ensures Linked(roots, q, Some(leader)) == Without(Members(roots, group, Some(key)), leader)
  {
    if roots != [] {
      var front, last := roots[..|roots| - 1], roots[|roots| - 1];
      assert roots == front + [last];
      LinkedAreMembers(front, group, key, leader, q);
      if group(last) == Some(key) {
        WithoutAppends(Members(front, group, Some(key)), last, leader);
      } else {
        assert Members(roots, group, Some(key)) == Members(front, group, Some(key));
      }
    }
  }

  ghost predicate LeadersMatch<T, K>(roots: seq<T>, group: T -> Option<K>, leaders: map<K, T>) {
    forall key <- leaders :: leaders[key] in roots && group(leaders[key]) == Some(key)
  }

  /** Leading one more group moves its members and extends the leader's list. */
  lemma LeadGroupLinks<T, K>(
    p: Parents<T>, roots: seq<T>, group: T -> Option<K>, leaders: map<K, T>, q: Parents<T>,
    key: K, leader: T, members: seq<T>)
    requires AreRoots(p, roots) && Regrouped(p, roots, group, leaders, q)
    requires key !in leaders && group(leader) == Some(key) && members == Members(roots, group, Some(key))
    ensures Regrouped(p, roots, group, leaders[key := leader], Moved(q, members, leader))
  {
    MembersHold(roots, group, Some(key), members);
  }

  /** Nothing has moved within a group that is not led yet, and nothing under its future leader. */
  ghost predicate Unmoved<T, K>(roots: seq<T>, group: T -> Option<K>, q: Parents<T>, key: K, leader: T) {
    forall y <- roots :: y in q && q[y] != Some(leader) && (group(y) == Some(key) ==> q[y] == None)
  }

  lemma UnledIsUnmoved<T, K>(
    p: Parents<T>, roots: seq<T>, group: T -> Option<K>, leaders: map<K, T>, q: Parents<T>, key: K, leader: T)
    requires AreRoots(p, roots) && Regrouped(p, roots, group, leaders, q)
    requires key !in leaders && LeadersMatch(roots, group, leaders) && group(leader) == Some(key)
    ensures Unmoved(roots, group, q, key, leader)
  {
  }

  lemma LeadGroupLists<T, K>(
    c: Children<T>, roots: seq<T>, group: T -> Option<K>, q: Parents<T>, d: Children<T>, key: K, leader: T,
    members: seq<T>, r: Parents<T>)
    requires Distinct(roots) && Unmoved(roots, group, q, key, leader) && Extends(c, roots, q, d) && leader in d
    requires members == Members(roots, group, Some(key)) && r == Moved(q, members, leader)
    ensures Extends(c, roots, r, d[leader := d[leader] + Without(members, leader)])
  {
    var e := d[leader := d[leader] + Without(members, leader)];
    forall x | x in c
      ensures e[x] == c[x] + Linked(roots, r, Some(x))
    {
      MovedLists(roots, group, q, key, leader, members, r, x, c[x], d[x]);
    }
  }

  lemma MovedLists<T, K>(
    roots: seq<T>, group: T -> Option<K>, q: Parents<T>, key: K, leader: T, members: seq<T>, r: Parents<T>,
    x: T, before: seq<T>, now: seq<T>)
    requires Distinct(roots) && members == Members(roots, group, Some(key)) && r == Moved(q, members, leader)
    requires Unmoved(roots, group, q, key, leader) && now == before + Linked(roots, q, Some(x))
    ensures (if x == leader then now + Without(members, leader) else now) == before + Linked(roots, r, Some(x))
  {
    MovedLinks(roots, group, q, key, leader, members, r);
    if x == leader {
      MovedToLeader(roots, group, q, key, leader, members, r);
      assert before + [] == before;
    } else {
      MovedElsewhere(roots, q, leader, r, x);
    }
  }

  lemma MovedToLeader<T, K>(
    roots: seq<T>, group: T -> Option<K>, q: Parents<T>, key: K, leader: T, members: seq<T>, r: Parents<T>)
    requires Distinct(roots) && members == Members(roots, group, Some(key))
    requires forall y <- roots :: y in q && q[y] != Some(leader)
    requires forall y <- roots :: y in r && (r[y] == Some(leader) <==> group(y) == Some(key) && y != leader)
    ensures Linked(roots, q, Some(leader)) == [] && Linked(roots, r, Some(leader)) == Without(members, leader)
  {
    LinkedAreMembers(roots, group, key, leader, r);
    NothingLinked(roots, q, leader, Linked(roots, q, Some(leader)));
  }

  lemma MovedElsewhere<T>(roots: seq<T>, q: Parents<T>, leader: T, r: Parents<T>, x: T)
    requires forall y <- roots :: y in q && y in r && (r[y] == q[y] || (r[y] == Some(leader) && q[y] == None))
    requires x != leader
    ensures Linked(roots, q, Some(x)) == Linked(roots, r, Some(x))
  {
    LinkedSame(roots, q, r, Some(x));
  }

  lemma MovedLinks<T, K>(
    roots: seq<T>, group: T -> Option<K>, q: Parents<T>, key: K, leader: T, members: seq<T>, r: Parents<T>)
    requires Distinct(roots) && members == Members(roots, group, Some(key)) && r == Moved(q, members, leader)
    requires Unmoved(roots, group, q, key, leader)
    ensures forall y <- roots :: y in q && y in r && (r[y] == Some(leader) <==> group(y) == Some(key) && y != leader)
    ensures forall y <- roots :: r[y] == q[y] || (r[y] == Some(leader) && q[y] == None)
  {
    MembersHold(roots, group, Some(key), members);
  }

  /** The roots left over once the groups in `done` have been dealt with. */
  ghost predicate Kept<T, K>(roots: seq<T>, group: T -> Option<K>, done: set<K>, q: Parents<T>, remaining: seq<T>) {
    && Distinct(remaining)
    && (forall x <- remaining :: x in roots && Settled(group(x), done) && x in q && q[x] == None)
    && (forall x <- roots :: Settled(group(x), done) && x in q && q[x] == None ==> x in remaining)
  }

  ghost predicate Settled<K>(key: Option<K>, done: set<K>) {
    key == None || key.value in done
  }

  lemma NoneSettled<T, K>(p: Parents<T>, roots: seq<T>, group: T -> Option<K>, remaining: seq<T>)
    requires AreRoots(p, roots) && remaining == Members(roots, group, None)
    ensures Kept(roots, group, {}, p, remaining)
  {
    MembersHold(roots, group, None, remaining);
  }

  /** A group without a candidate keeps all its roots. */
  lemma SettleUnled<T, K>(
    roots: seq<T>, group: T -> Option<K>, done: set<K>, q: Parents<T>, remaining: seq<T>, key: K, members: seq<T>)
    requires Distinct(roots) && Kept(roots, group, done, q, remaining) && key !in done
    requires members == Members(roots, group, Some(key)) && forall x <- members :: x in q && q[x] == None
    ensures Kept(roots, group, done + {key}, q, remaining + members)
  {
    MembersHold(roots, group, Some(key), members);
    DistinctConcat(remaining, members);
  }

  /** A led group keeps its leader. */
  lemma SettleLed<T, K>(
    roots: seq<T>, group: T -> Option<K>, done: set<K>, q: Parents<T>, remaining: seq<T>, key: K, members: seq<T>,
    leader: T)
    requires Distinct(roots) && Kept(roots, group, done, q, remaining) && key !in done
    requires members == Members(roots, group, Some(key)) && leader in members && leader in q && q[leader] == None
    ensures Kept(roots, group, done + {key}, Moved(q, members, leader), remaining + [leader])
  {
    MembersHold(roots, group, Some(key), members);
    DistinctConcat(remaining, [leader]);
  }

  /** The settled groups that have a candidate are led by one of their oldest. */
  ghost predicate LedSoFar<T, K>(
    roots: seq<T>, group: T -> Option<K>, candidate: T -> bool, created: T -> int, done: set<K>, leaders: map<K, T>)
  {
    && leaders.Keys <= done
    && (forall key <- leaders :: Oldest(roots, group, candidate, created, key, leaders[key]))
    && (forall r <- roots :: candidate(r) && group(r).Some? && group(r).value in done ==> group(r).value in leaders)
  }

  lemma LeadOneMore<T, K>(
    roots: seq<T>, group: T -> Option<K>, candidate: T -> bool, created: T -> int, done: set<K>, leaders: map<K, T>,
    key: K, members: seq<T>, leader: T)
    requires Distinct(roots) && LedSoFar(roots, group, candidate, created, done, leaders)
    requires members == Members(roots, group, Some(key)) && leader in members && candidate(leader)
    requires forall n <- members :: candidate(n) ==> created(leader) <= created(n)
    ensures Oldest(roots, group, candidate, created, key, leader)
    ensures LedSoFar(roots, group, candidate, created, done + {key}, leaders[key := leader])
  {
    MembersHold(roots, group, Some(key), members);
  }

  /** What has been regrouped once the groups in `done` have been dealt with. */
  ghost predicate Progress<T, K>(
    p: Parents<T>, c: Children<T>, roots: seq<T>, group: T -> Option<K>, done: set<K>, leaders: map<K, T>,
    q: Parents<T>, d: Children<T>, remaining: seq<T>)
  {
    Regrouped(p, roots, group, leaders, q) && Extends(c, roots, q, d) && Kept(roots, group, done, q, remaining)
  }

  lemma ProgressUnled<T, K>(
    p: Parents<T>, c: Children<T>, roots: seq<T>, group: T -> Option<K>, done: set<K>, leaders: map<K, T>,
    q: Parents<T>, d: Children<T>, remaining: seq<T>, key: K, members: seq<T>)
    requires AreRoots(p, roots) && Progress(p, c, roots, group, done, leaders, q, d, remaining)
    requires key !in done && leaders.Keys <= done && members == Members(roots, group, Some(key))
    ensures Progress(p, c, roots, group, done + {key}, leaders, q, d, remaining + members)
  {
    MembersHold(roots, group, Some(key), members);
    SettleUnled(roots, group, done, q, remaining, key, members);
  }

  lemma ProgressLed<T, K>(
    p: Parents<T>, c: Children<T>, roots: seq<T>, group: T -> Option<K>, done: set<K>, leaders: map<K, T>,
    q: Parents<T>, d: Children<T>, remaining: seq<T>, key: K, members: seq<T>, leader: T, r: Parents<T>, e: Children<T>)
    requires AreRoots(p, roots) && Progress(p, c, roots, group, done, leaders, q, d, remaining)
    requires key !in done && leaders.Keys <= done && LeadersMatch(roots, group, leaders)
    requires members == Members(roots, group, Some(key)) && leader in members && group(leader) == Some(key)
    requires leader in d && leader in q && Adopted(q, d, members, leader, r, e)
    ensures Progress(p, c, roots, group, done + {key}, leaders[key := leader], r, e, remaining + [leader])
  {
    LeadGroupLinks(p, roots, group, leaders, q, key, leader, members);
    UnledIsUnmoved(p, roots, group, leaders, q, key, leader);
    LeadGroupLists(c, roots, group, q, d, key, leader, members, r);
    MembersHold(roots, group, Some(key), members);
    SettleLed(roots, group, done, q, remaining, key, members, leader);
  }

  /** Everything the loop over the groups keeps. */
  ghost predicate Regrouping<T, K>(
    p: Parents<T>, c: Children<T>, roots: seq<T>, group: T -> Option<K>, candidate: T -> bool, created: T -> int,
    done: set<K>, leaders: map<K, T>, q: Parents<T>, d: Children<T>, remaining: seq<T>)
  {
    && AreRoots(p, roots) && LedSoFar(roots, group, candidate, created, done, leaders)
    && Progress(p, c, roots, group, done, leaders, q, d, remaining)
  }

  lemma RegroupingStarts<T, K>(
    p: Parents<T>, c: Children<T>, roots: seq<T>, group: T -> Option<K>, candidate: T -> bool, created: T -> int,
    remaining: seq<T>)
    requires c.Keys == p.Keys && AreRoots(p, roots) && remaining == Members(roots, group, None)
    ensures Regrouping(p, c, roots, group, candidate, created, {}, map[], p, c, remaining)
  {
    NoneSettled(p, roots, group, remaining);
    forall x | x in c
      ensures c[x] == c[x] + Linked(roots, p, Some(x))
    {
      NothingLinked(roots, p, x, Linked(roots, p, Some(x)));
    }
  }

  lemma StepUnled<T, K>(
    p: Parents<T>, c: Children<T>, roots: seq<T>, group: T -> Option<K>, candidate: T -> bool, created: T -> int,
    done: set<K>, leaders: map<K, T>, q: Parents<T>, d: Children<T>, remaining: seq<T>, key: K, members: seq<T>)
    requires Regrouping(p, c, roots, group, candidate, created, done, leaders, q, d, remaining) && key !in done
    requires members == Members(roots, group, Some(key)) && forall n <- members :: !candidate(n)
    ensures Regrouping(p, c, roots, group, candidate, created, done + {key}, leaders, q, d, remaining + members)
  {
    ProgressUnled(p, c, roots, group, done, leaders, q, d, remaining, key, members);
    MembersHold(roots, group, Some(key), members);
  }

  lemma StepLed<T, K>(
    p: Parents<T>, c: Children<T>, roots: seq<T>, group: T -> Option<K>, candidate: T -> bool, created: T -> int,
    done: set<K>, leaders: map<K, T>, q: Parents<T>, d: Children<T>, remaining: seq<T>, key: K, members: seq<T>,
    leader: T, r: Parents<T>, e: Children<T>)
    requires Regrouping(p, c, roots, group, candidate, created, done, leaders, q, d, remaining) && key !in done
    requires members == Members(roots, group, Some(key)) && leader in members && candidate(leader)
    requires forall n <- members :: candidate(n) ==> created(leader) <= created(n)
    requires leader in d && leader in q && Adopted(q, d, members, leader, r, e)
    ensures Regrouping(
      p, c, roots, group, candidate, created, done + {key}, leaders[key := leader], r, e, remaining + [leader])
  {
    LeadOneMore(roots, group, candidate, created, done, leaders, key, members, leader);
    ProgressLed(p, c, roots, group, done, leaders, q, d, remaining, key, members, leader, r, e);
  }

  /** When every group is settled, the leaders are those of all groups and what remains are the roots. */
  lemma RegroupingEnds<T, K>(
    p: Parents<T>, c: Children<T>, roots: seq<T>, group: T -> Option<K>, candidate: T -> bool, created: T -> int,
    done: set<K>, leaders: map<K, T>, q: Parents<T>, d: Children<T>, remaining: seq<T>)
    requires Regrouping(p, c, roots, group, candidate, created, done, leaders, q, d, remaining) && Mirrors(p, c)
    requires forall r <- roots :: group(r).Some? ==> group(r).value in done
    ensures Leads(roots, group, candidate, created, leaders) && Regrouped(p, roots, group, leaders, q)
    ensures Mirrors(q, d) && AreRoots(q, remaining)
  {
    RegroupingAdopts(p, roots, group, candidate, created, leaders, q);
    AdoptionMirrors(p, c, roots, q, d);
  }
}
