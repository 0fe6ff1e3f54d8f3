/** Which rows the deduplicating migrations delete, in terms of the columns themselves. */
module Duplicates {
  import opened Common
  import opened Migrations

  /** A row with a lesser id has the same agent, image and name, and for 0003 also the same tag. */
  ghost predicate HasElder(t: Tables, g: Grouping, c: int) {
    && c in t.containers
    && exists o :: && o in t.containers && o < c
                   && var x, y := t.containers[c], t.containers[o];
                      && y.agent == x.agent && y.image == x.image && y.name == x.name
                      && match g case WithTag => y.tag == x.tag case WithoutTag => true
  }

  lemma KeptIff(t: Tables, g: Grouping, c: int)
    requires c in t.containers
    ensures c in Keep(t.containers, g) <==> !HasElder(t, g, c)
  {
    if c !in Keep(t.containers, g) {
      var o :| o in t.containers && SameGroup(g, t.containers[c], t.containers[o]) && o < c;
      assert t.containers[o].agent == t.containers[c].agent;
    } else if HasElder(t, g, c) {
      var o :| o in t.containers && o < c
               && t.containers[o].agent == t.containers[c].agent && t.containers[o].image == t.containers[c].image
               && t.containers[o].name == t.containers[c].name
               && (g == WithTag ==> t.containers[o].tag == t.containers[c].tag);
      assert SameGroup(g, t.containers[c], t.containers[o]);
    }
  }

  /** A container is deleted exactly when it has an elder; the others keep all their columns. */
  lemma ContainerDeletedIff(t: Tables, g: Grouping, c: int)
    requires c in t.containers
    ensures c !in Upgrade(t, g).containers <==> HasElder(t, g, c)
    ensures !HasElder(t, g, c) ==> Upgrade(t, g).containers[c] == t.containers[c]
    ensures Upgrade(t, g).containers.Keys <= t.containers.Keys
  {
    UpgradeIsRestriction(t, g);
    KeptIff(t, g, c);
  }

  function ContainerOfFinding(t: Tables, f: int): int
    requires f in t.findings && t.findings[f].scan in t.scans
  {
    t.scans[t.findings[f].scan].container
  }

  lemma AllKeptIff(t: Tables, g: Grouping)
    ensures forall c :: c in t.containers ==> (c in Keep(t.containers, g) <==> !HasElder(t, g, c))
  {
    forall c | c in t.containers ensures c in Keep(t.containers, g) <==> !HasElder(t, g, c) {
      KeptIff(t, g, c);
    }
  }

  /** Every row that hangs off a container shares its fate, and is otherwise left as it is. */
  lemma ScanDeletedIff(t: Tables, g: Grouping)
    requires NoDangling(t)
    ensures Upgrade(t, g).scans == map s | s in t.scans && !HasElder(t, g, t.scans[s].container) :: t.scans[s]
  {
    UpgradeIsRestriction(t, g);
    AllKeptIff(t, g);
  }

  lemma FindingDeletedIff(t: Tables, g: Grouping)
    requires NoDangling(t)
    ensures Upgrade(t, g).findings
            == map f | f in t.findings && !HasElder(t, g, ContainerOfFinding(t, f)) :: t.findings[f]
  {
    UpgradeIsRestriction(t, g);
    AllKeptIff(t, g);
  }

  lemma MisconfigDeletedIff(t: Tables, g: Grouping)
    requires NoDangling(t)
    ensures Upgrade(t, g).misconfigs
            == map m | m in t.misconfigs && !HasElder(t, g, t.misconfigs[m].container) :: t.misconfigs[m]
  {
    UpgradeIsRestriction(t, g);
    AllKeptIff(t, g);
  }

  /** An acceptance goes when the finding or the misconfiguration it refers to does. */
  lemma AcceptanceDeletedIff(t: Tables, g: Grouping, a: int)
    requires NoDangling(t) && a in t.acceptances
    ensures var x := t.acceptances[a];
      a !in Upgrade(t, g).acceptances <==>
      || (x.finding.Some? && HasElder(t, g, ContainerOfFinding(t, x.finding.value)))
      || (x.misconfig.Some? && HasElder(t, g, t.misconfigs[x.misconfig.value].container))
    ensures a in Upgrade(t, g).acceptances ==> Upgrade(t, g).acceptances[a] == t.acceptances[a]
    ensures Upgrade(t, g).acceptances.Keys <= t.acceptances.Keys
  {
    UpgradeIsRestriction(t, g);
    AllKeptIff(t, g);
  }

  /** No two rows left agree on the columns of the unique key that the migration adds. */
  lemma ColumnsAreUnique(t: Tables, g: Grouping, x: int, y: int)
    requires x in Upgrade(t, g).containers && y in Upgrade(t, g).containers && x != y
    ensures var p, q := Upgrade(t, g).containers[x], Upgrade(t, g).containers[y];
      || p.agent != q.agent || p.image != q.image || p.name != q.name
      || match g case WithTag => p.tag != q.tag case WithoutTag => false
  {
    UpgradeIsRestriction(t, g);
    ContainerDeletedIff(t, g, x);
    ContainerDeletedIff(t, g, y);
  }
}
