/** The row deletions of the deduplicating migrations 0003 and 0004. */
module Migrations {
  import opened Common

  datatype ContainerRow = ContainerRow(
    agent: string, image: string, tag: Option<string>, name: Option<string>, createdAt: int)
  datatype ScanRow = ScanRow(container: int)
  datatype FindingRow = FindingRow(scan: int)
  datatype MisconfigRow = MisconfigRow(container: int)
  datatype AcceptanceRow = AcceptanceRow(finding: Option<int>, misconfig: Option<int>)

  /** The five tables by primary key; ids stand for the hex strings, of which only the order matters. */
  datatype Tables = Tables(
    containers: map<int, ContainerRow>,
    scans: map<int, ScanRow>,
    findings: map<int, FindingRow>,
    misconfigs: map<int, MisconfigRow>,
    acceptances: map<int, AcceptanceRow>)

  /** 0003 groups by agent, image, tag and name; 0004 drops the tag. */
  datatype Grouping = WithTag | WithoutTag

  /** GROUP BY: two NULLs fall into the same group. */
  predicate SameGroup(g: Grouping, x: ContainerRow, y: ContainerRow) {
    && x.agent == y.agent && x.image == y.image && x.name == y.name
    && (g == WithTag ==> x.tag == y.tag)
  }

  /** SELECT MIN(id) FROM container GROUP BY ... */
  function Keep(containers: map<int, ContainerRow>, g: Grouping): set<int> {
    set id | id in containers
           && forall o :: o in containers && SameGroup(g, containers[id], containers[o]) ==> id <= o
  }

  // ── The six DELETE statements ──────────────────────────────────────────────

  function DeleteFindingAcceptances(t: Tables, g: Grouping): Tables {
    t.(acceptances := map a | a in t.acceptances
                           && !(var f := t.acceptances[a].finding;
                                && f.Some? && f.value in t.findings && t.findings[f.value].scan in t.scans
                                && t.scans[t.findings[f.value].scan].container !in Keep(t.containers, g))
                        :: t.acceptances[a])
  }

  function DeleteFindings(t: Tables, g: Grouping): Tables {
    t.(findings := map f | f in t.findings
                        && !(t.findings[f].scan in t.scans
                             && t.scans[t.findings[f].scan].container !in Keep(t.containers, g))
                     :: t.findings[f])
  }

  function DeleteScans(t: Tables, g: Grouping): Tables {
    t.(scans := map s | s in t.scans && t.scans[s].container in Keep(t.containers, g) :: t.scans[s])
  }

  function DeleteMisconfigAcceptances(t: Tables, g: Grouping): Tables {
    t.(acceptances := map a | a in t.acceptances
                           && !(var m := t.acceptances[a].misconfig;
                                && m.Some? && m.value in t.misconfigs
                                && t.misconfigs[m.value].container !in Keep(t.containers, g))
                        :: t.acceptances[a])
  }

  function DeleteMisconfigs(t: Tables, g: Grouping): Tables {
    t.(misconfigs := map m | m in t.misconfigs && t.misconfigs[m].container in Keep(t.containers, g)
                       :: t.misconfigs[m])
  }

  function DeleteContainers(t: Tables, g: Grouping): Tables {
    t.(containers := map c | c in t.containers && c in Keep(t.containers, g) :: t.containers[c])
  }

  /** Steps 1 and 2 of upgrade(), in order; each statement sees the tables its predecessors left. */
  function Upgrade(t: Tables, g: Grouping): Tables {
    DeleteContainers(DeleteMisconfigs(DeleteMisconfigAcceptances(
      DeleteScans(DeleteFindings(DeleteFindingAcceptances(t, g), g), g), g), g), g)
  }

  class Database {
    var containers: map<int, ContainerRow>
    var scans: map<int, ScanRow>
    var findings: map<int, FindingRow>
    var misconfigs: map<int, MisconfigRow>
    var acceptances: map<int, AcceptanceRow>

    function State(): Tables
      reads this
    {
      Tables(containers, scans, findings, misconfigs, acceptances)
    }

    method UpgradeRows(g: Grouping)
      modifies this
      ensures State() == Upgrade(old(State()), g)
      ensures State() == Restricted(old(State()), Keep(old(containers), g))
    {
      UpgradeIsRestriction(State(), g);
      acceptances := DeleteFindingAcceptances(State(), g).acceptances;
      findings := DeleteFindings(State(), g).findings;
      scans := DeleteScans(State(), g).scans;
      acceptances := DeleteMisconfigAcceptances(State(), g).acceptances;
      misconfigs := DeleteMisconfigs(State(), g).misconfigs;
      containers := DeleteContainers(State(), g).containers;
    }

    /** 0003 and then 0004 on one database: the same five tables as 0004 alone. */
    method UpgradeBoth()
      modifies this
      ensures State() == Upgrade(old(State()), WithoutTag)
    {
      UpgradesCompose(State());
      UpgradeRows(WithTag);
      UpgradeRows(WithoutTag);
    }
  }

  // ── Reference: what survives ───────────────────────────────────────────────

  predicate ScanLives(t: Tables, keep: set<int>, s: int) {
    s in t.scans ==> t.scans[s].container in keep
  }

  predicate FindingLives(t: Tables, keep: set<int>, f: int) {
    f in t.findings ==> ScanLives(t, keep, t.findings[f].scan)
  }

  predicate MisconfigLives(t: Tables, keep: set<int>, m: int) {
    m in t.misconfigs ==> t.misconfigs[m].container in keep
  }

  predicate AcceptanceLives(t: Tables, keep: set<int>, a: int)
    requires a in t.acceptances
  {
    && (t.acceptances[a].finding.Some? ==> FindingLives(t, keep, t.acceptances[a].finding.value))
    && (t.acceptances[a].misconfig.Some? ==> MisconfigLives(t, keep, t.acceptances[a].misconfig.value))
  }

  /** Every row survives unless its chain of references ends at a container that is not kept. */
  function Restricted(t: Tables, keep: set<int>): Tables {
    Tables(
      map c | c in t.containers && c in keep :: t.containers[c],
      map s | s in t.scans && ScanLives(t, keep, s) :: t.scans[s],
      map f | f in t.findings && FindingLives(t, keep, f) :: t.findings[f],
      map m | m in t.misconfigs && MisconfigLives(t, keep, m) :: t.misconfigs[m],
      map a | a in t.acceptances && AcceptanceLives(t, keep, a) :: t.acceptances[a])
  }

  lemma FindingsLeft(t: Tables, g: Grouping)
    ensures Upgrade(t, g).findings == Restricted(t, Keep(t.containers, g)).findings
    ensures Upgrade(t, g).scans == Restricted(t, Keep(t.containers, g)).scans
  {
    var t2 := DeleteFindings(DeleteFindingAcceptances(t, g), g);
    assert t2.findings == Restricted(t, Keep(t.containers, g)).findings;
    assert DeleteScans(t2, g).scans == Restricted(t, Keep(t.containers, g)).scans;
  }

  lemma MisconfigsLeft(t: Tables, g: Grouping)
    ensures Upgrade(t, g).misconfigs == Restricted(t, Keep(t.containers, g)).misconfigs
    ensures Upgrade(t, g).containers == Restricted(t, Keep(t.containers, g)).containers
  {
    var t4 := DeleteMisconfigAcceptances(DeleteScans(DeleteFindings(DeleteFindingAcceptances(t, g), g), g), g);
    assert t4.misconfigs == t.misconfigs && t4.containers == t.containers;
    assert DeleteMisconfigs(t4, g).misconfigs == Restricted(t, Keep(t.containers, g)).misconfigs;
    assert DeleteContainers(DeleteMisconfigs(t4, g), g).containers == Restricted(t, Keep(t.containers, g)).containers;
  }

  lemma AcceptancesLeft(t: Tables, g: Grouping)
    ensures Upgrade(t, g).acceptances == Restricted(t, Keep(t.containers, g)).acceptances
  {
    var t1 := DeleteFindingAcceptances(t, g);
    var t3 := DeleteScans(DeleteFindings(t1, g), g);
    assert t3.acceptances == t1.acceptances && t3.misconfigs == t.misconfigs && t3.containers == t.containers;
    assert DeleteMisconfigAcceptances(t3, g).acceptances == Restricted(t, Keep(t.containers, g)).acceptances;
  }

  /** The ordered deletes remove a row exactly when it hangs off a container that is not kept. */
  lemma UpgradeIsRestriction(t: Tables, g: Grouping)
    ensures Upgrade(t, g) == Restricted(t, Keep(t.containers, g))
  {
    FindingsLeft(t, g);
    MisconfigsLeft(t, g);
    AcceptancesLeft(t, g);
  }

  // ── Composition ────────────────────────────────────────────────────────────

  /** Every group has a minimum. */
  lemma {:induction false} GroupMinimum(containers: map<int, ContainerRow>, g: Grouping, id: int) returns (m: int)
    requires id in containers
    ensures m in Keep(containers, g) && m <= id && SameGroup(g, containers[m], containers[id])
    decreases set o | o in containers && o < id
  {
    if o :| o in containers && SameGroup(g, containers[id], containers[o]) && o < id {
      var below, further := set p | p in containers && p < id, set p | p in containers && p < o;
      assert further <= below && o in below && o !in further;
      m := GroupMinimum(containers, g, o);
    } else {
      m := id;
    }
  }

  /** The minimum of a coarse group is the minimum of its own fine group, and stays so once 0003 has run. */
  lemma KeepComposes(containers: map<int, ContainerRow>)
    ensures Keep(containers, WithoutTag) <= Keep(containers, WithTag)
    ensures Keep(map c | c in containers && c in Keep(containers, WithTag) :: containers[c], WithoutTag)
            == Keep(containers, WithoutTag)
  {
    var fine := Keep(containers, WithTag);
    var left := map c | c in containers && c in fine :: containers[c];
    forall id | id in Keep(left, WithoutTag)
      ensures id in Keep(containers, WithoutTag)
    {
      forall o | o in containers && SameGroup(WithoutTag, containers[id], containers[o])
        ensures id <= o
      {
        var m := GroupMinimum(containers, WithTag, o);
        assert m in left && SameGroup(WithoutTag, left[id], left[m]);
      }
    }
  }

  /** From any database whatsoever, 0003 followed by 0004 leaves the same rows as 0004 alone. */
  lemma UpgradesCompose(t: Tables)
    ensures Upgrade(Upgrade(t, WithTag), WithoutTag) == Upgrade(t, WithoutTag)
  {
    var fine, coarse := Keep(t.containers, WithTag), Keep(t.containers, WithoutTag);
    KeepComposes(t.containers);
    UpgradeIsRestriction(t, WithTag);
    UpgradeIsRestriction(t, WithoutTag);
    var mid := Restricted(t, fine);
    UpgradeIsRestriction(mid, WithoutTag);
    RestrictionsCompose(t, fine, coarse);
  }

  /** Liveness under the coarse keep set implies the fine one, and reads the same on what the fine one left. */
  lemma LivesCompose(t: Tables, fine: set<int>, coarse: set<int>)
    requires coarse <= fine
    ensures var mid := Restricted(t, fine);
      && (forall s :: ScanLives(t, coarse, s) ==> ScanLives(t, fine, s))
      && (forall s :: ScanLives(t, fine, s) ==> (ScanLives(mid, coarse, s) <==> ScanLives(t, coarse, s)))
      && (forall f :: FindingLives(t, coarse, f) ==> FindingLives(t, fine, f))
      && (forall f :: FindingLives(t, fine, f) ==> (FindingLives(mid, coarse, f) <==> FindingLives(t, coarse, f)))
      && (forall m :: MisconfigLives(t, coarse, m) ==> MisconfigLives(t, fine, m))
      && (forall m :: MisconfigLives(t, fine, m) ==> (MisconfigLives(mid, coarse, m) <==> MisconfigLives(t, coarse, m)))
  {
  }

  lemma AcceptancesCompose(t: Tables, fine: set<int>, coarse: set<int>, a: int)
    requires coarse <= fine && a in t.acceptances
    ensures AcceptanceLives(t, fine, a) && AcceptanceLives(Restricted(t, fine), coarse, a)
            <==> AcceptanceLives(t, coarse, a)
  {
    LivesCompose(t, fine, coarse);
    var mid := Restricted(t, fine);
    if AcceptanceLives(t, fine, a) {
      assert mid.acceptances[a] == t.acceptances[a];
    }
  }

  lemma RestrictionsCompose(t: Tables, fine: set<int>, coarse: set<int>)
    requires coarse <= fine
    ensures Restricted(Restricted(t, fine), coarse) == Restricted(t, coarse)
  {
    LivesCompose(t, fine, coarse);
    var mid := Restricted(t, fine);
    var two, one := Restricted(mid, coarse), Restricted(t, coarse);
    assert two.containers == one.containers;
    assert two.scans == one.scans;
    assert two.misconfigs == one.misconfigs;
    assert two.findings == one.findings;
    forall a | a in t.acceptances ensures a in two.acceptances <==> a in one.acceptances {
      AcceptancesCompose(t, fine, coarse, a);
    }
    assert two.acceptances == one.acceptances;
  }

  // ── Integrity ──────────────────────────────────────────────────────────────

  /** Every reference resolves; an acceptance refers to something. */
  ghost predicate NoDangling(t: Tables) {
    && (forall s :: s in t.scans ==> t.scans[s].container in t.containers)
    && (forall f :: f in t.findings ==> t.findings[f].scan in t.scans)
    && (forall m :: m in t.misconfigs ==> t.misconfigs[m].container in t.containers)
    && (forall a :: a in t.acceptances ==>
          && (t.acceptances[a].finding.Some? ==> t.acceptances[a].finding.value in t.findings)
          && (t.acceptances[a].misconfig.Some? ==> t.acceptances[a].misconfig.value in t.misconfigs))
  }

  /** No two containers of a group: the UNIQUE constraint of step 3, with NULLs counted as equal. */
  ghost predicate OnePerGroup(t: Tables, g: Grouping) {
    forall x, y :: x in t.containers && y in t.containers && SameGroup(g, t.containers[x], t.containers[y]) ==> x == y
  }

  /** `u` lost no row of a container it kept. */
  ghost predicate KeepsDependents(t: Tables, u: Tables) {
    && (forall s :: s in t.scans && t.scans[s].container in u.containers ==>
          s in u.scans && u.scans[s] == t.scans[s])
    && (forall f :: f in t.findings && t.findings[f].scan in u.scans ==>
          f in u.findings && u.findings[f] == t.findings[f])
    && (forall m :: m in t.misconfigs && t.misconfigs[m].container in u.containers ==>
          m in u.misconfigs && u.misconfigs[m] == t.misconfigs[m])
    && (forall a :: a in t.acceptances
                    && (t.acceptances[a].finding.Some? ==> t.acceptances[a].finding.value in u.findings)
                    && (t.acceptances[a].misconfig.Some? ==> t.acceptances[a].misconfig.value in u.misconfigs) ==>
          a in u.acceptances && u.acceptances[a] == t.acceptances[a])
  }

  lemma RestrictionKeepsIntegrity(t: Tables, keep: set<int>)
    requires NoDangling(t) && keep <= t.containers.Keys
    ensures NoDangling(Restricted(t, keep)) && KeepsDependents(t, Restricted(t, keep))
  {
    var u := Restricted(t, keep);
    assert forall s :: s in u.scans <==> s in t.scans && t.scans[s].container in keep;
    assert forall f :: f in u.findings <==> f in t.findings && t.findings[f].scan in u.scans;
    assert forall m :: m in u.misconfigs <==> m in t.misconfigs && t.misconfigs[m].container in keep;
  }

  /** Every container of `t` has a kept row of its own group, with an id no larger. */
  ghost predicate CoversGroups(t: Tables, u: Tables, g: Grouping) {
    forall c :: c in t.containers ==>
      exists k :: k in u.containers && k in t.containers && u.containers[k] == t.containers[k] && k <= c
                  && SameGroup(g, t.containers[k], t.containers[c])
  }

  lemma RestrictionCoversGroups(t: Tables, g: Grouping)
    ensures OnePerGroup(Restricted(t, Keep(t.containers, g)), g)
    ensures CoversGroups(t, Restricted(t, Keep(t.containers, g)), g)
  {
    var keep := Keep(t.containers, g);
    var u := Restricted(t, keep);
    forall x, y | x in u.containers && y in u.containers && SameGroup(g, u.containers[x], u.containers[y])
      ensures x == y
    {
      assert SameGroup(g, t.containers[x], t.containers[y]) && SameGroup(g, t.containers[y], t.containers[x]);
      assert x <= y && y <= x;
    }
    forall c | c in t.containers
      ensures exists k :: k in u.containers && k in t.containers && u.containers[k] == t.containers[k] && k <= c
                          && SameGroup(g, t.containers[k], t.containers[c])
    {
      var k := GroupMinimum(t.containers, g, c);
      assert k in u.containers;
    }
  }

  /**
   * A consistent database stays consistent, keeps exactly one container of every group it had, and
   * loses no scan, finding, misconfiguration or acceptance of a kept container.
   */
  lemma UpgradeKeepsIntegrity(t: Tables, g: Grouping)
    requires NoDangling(t)
    ensures var u := Upgrade(t, g);
            NoDangling(u) && OnePerGroup(u, g) && CoversGroups(t, u, g) && KeepsDependents(t, u)
  {
    UpgradeIsRestriction(t, g);
    RestrictionKeepsIntegrity(t, Keep(t.containers, g));
    RestrictionCoversGroups(t, g);
  }

  // ── Age ────────────────────────────────────────────────────────────────────

  /** Every container left in `u` is as old as any row of the group it had in `t`. */
  ghost predicate KeepsOldest(t: Tables, u: Tables, g: Grouping) {
    forall k, c :: && k in u.containers && k in t.containers && c in t.containers
                   && SameGroup(g, t.containers[k], t.containers[c]) ==>
      t.containers[k].createdAt <= t.containers[c].createdAt
  }

  /** No group holds a row older than its least-id row: a row with an older sibling has one with a lesser id, too. */
  ghost predicate LeastIdsAreOldest(containers: map<int, ContainerRow>, g: Grouping) {
    forall x, y :: && x in containers && y in containers && SameGroup(g, containers[x], containers[y])
                   && containers[y].createdAt < containers[x].createdAt ==>
      exists z :: z in containers && SameGroup(g, containers[x], containers[z]) && z < x
  }

  /** The oldest row of every group is kept exactly when no group holds a row older than its least-id row. */
  lemma KeepsOldestIff(t: Tables, g: Grouping)
    ensures KeepsOldest(t, Upgrade(t, g), g) <==> LeastIdsAreOldest(t.containers, g)
  {
    UpgradeIsRestriction(t, g);
    assert Upgrade(t, g).containers.Keys == Keep(t.containers, g);
    if !LeastIdsAreOldest(t.containers, g) {
      var x, y :| && x in t.containers && y in t.containers && SameGroup(g, t.containers[x], t.containers[y])
                  && t.containers[y].createdAt < t.containers[x].createdAt
                  && !exists z :: z in t.containers && SameGroup(g, t.containers[x], t.containers[z]) && z < x;
      assert x in Keep(t.containers, g);
    }
  }

  /** For 0003 followed by 0004 the condition is that of 0004 alone, on the database before either. */
  lemma BothKeepOldestIff(t: Tables)
    ensures KeepsOldest(t, Upgrade(Upgrade(t, WithTag), WithoutTag), WithoutTag)
            <==> LeastIdsAreOldest(t.containers, WithoutTag)
  {
    UpgradesCompose(t);
    KeepsOldestIff(t, WithoutTag);
  }

  /** It is met when each migration keeps the oldest of what it finds. */
  lemma OldestStepByStep(t: Tables)
    requires KeepsOldest(t, Upgrade(t, WithTag), WithTag)
    requires var mid := Upgrade(t, WithTag); KeepsOldest(mid, Upgrade(mid, WithoutTag), WithoutTag)
    ensures KeepsOldest(t, Upgrade(Upgrade(t, WithTag), WithoutTag), WithoutTag)
  {
    var mid := Upgrade(t, WithTag);
    var end := Upgrade(mid, WithoutTag);
    UpgradeIsRestriction(t, WithTag);
    UpgradeIsRestriction(mid, WithoutTag);
    forall k, c | && k in end.containers && k in t.containers && c in t.containers
                  && SameGroup(WithoutTag, t.containers[k], t.containers[c])
      ensures t.containers[k].createdAt <= t.containers[c].createdAt
    {
      var m := GroupMinimum(t.containers, WithTag, c);
      assert m in mid.containers && mid.containers[m] == t.containers[m];
      assert k in mid.containers && mid.containers[k] == t.containers[k];
    }
  }

  /** The condition is not always met: an older row with a greater id is the one deleted. */
  lemma LeastIdIsNotOldest()
    ensures exists t: Tables, x, y ::
      && x in t.containers && y in t.containers && SameGroup(WithoutTag, t.containers[x], t.containers[y])
      && t.containers[x].createdAt < t.containers[y].createdAt
      && x !in Upgrade(t, WithoutTag).containers && y in Upgrade(t, WithoutTag).containers
  {
    var elder, young := ContainerRow("a", "nginx", None, None, 1), ContainerRow("a", "nginx", None, None, 2);
    var t := Tables(map[7 := elder, 3 := young], map[], map[], map[], map[]);
    UpgradeIsRestriction(t, WithoutTag);
    assert SameGroup(WithoutTag, t.containers[7], t.containers[3]);
    assert 3 in Upgrade(t, WithoutTag).containers && 7 !in Upgrade(t, WithoutTag).containers;
  }
}
