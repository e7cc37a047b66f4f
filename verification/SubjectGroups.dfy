/** How a list of IFOs divides into nodes, one per subject, and which node owns which. */
module SubjectGroups {
  import opened Prelude
  import opened Api

  /** One element of the listed slice: its position and what is stored there. */
  datatype Item = Item(position: nat, ifo: Ifo)

  function SubjectUID(ifo: Ifo): string {
    ifo.spec.subject.uid
  }

  /** Positions i and j belong to one node: the subject UIDs agree and are not empty. */
  predicate SameSubject(ifos: seq<Ifo>, i: nat, j: nat) {
    i < |ifos| && j < |ifos| && (i == j || SubjectUID(ifos[i]) == SubjectUID(ifos[j]) != "")
  }

  /** One node's positions, in list order. */
  ghost predicate Group(ifos: seq<Ifo>, n: nat, g: seq<nat>)
    requires n <= |ifos|
  {
    && g != []
    && (forall a <- g :: a < n && SameSubject(ifos, g[0], a))
    && (forall i, j :: 0 <= i < j < |g| ==> g[i] < g[j])
  }

  /** The first n positions divide into these groups: later groups start later and have other subjects. */
  ghost predicate Grouped(ifos: seq<Ifo>, n: nat, groups: seq<seq<nat>>)
    requires n <= |ifos|
  {
    && (forall g <- groups :: Group(ifos, n, g))
    && (forall i, j :: 0 <= i < j < |groups| ==> Apart(ifos, groups[i], groups[j]))
    && (forall i: nat | i < n :: InSome(groups, i))
  }

  ghost predicate Apart(ifos: seq<Ifo>, g: seq<nat>, h: seq<nat>) {
    g != [] && h != [] && g[0] < h[0] < |ifos| && !SameSubject(ifos, g[0], h[0])
  }

  ghost predicate InSome(groups: seq<seq<nat>>, i: nat) {
    exists g :: g in groups && i in g
  }

  lemma NewGroup(ifos: seq<Ifo>, n: nat, groups: seq<seq<nat>>)
    requires n < |ifos| && Grouped(ifos, n, groups)
    requires forall g <- groups :: g != [] && !SameSubject(ifos, g[0], n)
    ensures Grouped(ifos, n + 1, groups + [[n]])
  {
    var after := groups + [[n]];
    forall g | g in after
      ensures Group(ifos, n + 1, g)
    {
      assert g in groups ==> Group(ifos, n, g);
    }
    forall i, j | 0 <= i < j < |after|
      ensures Apart(ifos, after[i], after[j])
    {
      assert j < |groups| ==> Apart(ifos, groups[i], groups[j]);
      assert groups[i] in groups && Group(ifos, n, groups[i]) && groups[i][0] in groups[i];
    }
    forall i: nat | i < n + 1
      ensures InSome(after, i)
    {
      if i < n {
        assert InSome(groups, i);
        var g :| g in groups && i in g;
        assert g in after;
      } else {
        assert [n] in after && i in [n];
      }
    }
  }

  lemma GroupGrows(ifos: seq<Ifo>, n: nat, g: seq<nat>)
    requires n < |ifos| && Group(ifos, n, g) && SameSubject(ifos, g[0], n)
    ensures Group(ifos, n + 1, g + [n])
  {
    var joined := g + [n];
    forall i, j | 0 <= i < j < |joined|
      ensures joined[i] < joined[j]
    {
      assert joined[i] in g;
    }
  }

  lemma JoinGroup(ifos: seq<Ifo>, n: nat, groups: seq<seq<nat>>, a: nat)
    requires n < |ifos| && Grouped(ifos, n, groups)
    requires a < |groups| && groups[a] != [] && SameSubject(ifos, groups[a][0], n)
    ensures Grouped(ifos, n + 1, groups[a := groups[a] + [n]])
  {
    var joined := groups[a] + [n];
    var after := groups[a := joined];
    assert Group(ifos, n, groups[a]);
    GroupGrows(ifos, n, groups[a]);
    forall g | g in after
      ensures Group(ifos, n + 1, g)
    {
      assert g in groups ==> Group(ifos, n, g);
    }
    forall i, j | 0 <= i < j < |after|
      ensures Apart(ifos, after[i], after[j])
    {
      assert Apart(ifos, groups[i], groups[j]);
    }
    forall i: nat | i < n + 1
      ensures InSome(after, i)
    {
      if i < n {
        assert InSome(groups, i);
        var g :| g in groups && i in g;
        var k :| 0 <= k < |groups| && groups[k] == g;
        assert i in after[k];
      } else {
        assert after[a] == joined && n in joined;
      }
    }
  }

  /** Two positions are in one group exactly when they have one subject, and each position once. */
  lemma GroupsMatchSubjects(ifos: seq<Ifo>, groups: seq<seq<nat>>, i: nat, j: nat, a: nat, b: nat)
    requires Grouped(ifos, |ifos|, groups)
    requires a < |groups| && b < |groups| && i in groups[a] && j in groups[b]
    ensures a == b <==> SameSubject(ifos, i, j)
    ensures Distinct(groups[a])
  {
    assert Group(ifos, |ifos|, groups[a]) && Group(ifos, |ifos|, groups[b]);
    if a < b {
      assert Apart(ifos, groups[a], groups[b]);
    } else if b < a {
      assert Apart(ifos, groups[b], groups[a]);
    }
  }
}
