/** The image-centric listing: containers grouped by image and tag, active findings counted per group. */
module Images {
  import opened Common

  datatype ContainerRow = ContainerRow(
    id: int, agent: string, agentName: string,
    image: string, tag: Option<string>, digest: Option<string>, lastScanned: Option<int>)

  /** One ACTIVE finding, joined to the container of its scan. */
  datatype FindingRow = FindingRow(container: int, severity: Severity, fixedVersion: Option<string>)

  datatype Key = Key(image: string, tag: Option<string>)

  datatype Group = Group(
    ids: seq<int>, agents: map<string, string>, digest: Option<string>, lastScanned: Option<int>)

  datatype Image = Image(
    key: Key, digest: Option<string>, containerCount: nat, agents: map<string, string>,
    total: nat, fixable: nat, severities: Counts, lastScanned: Option<int>)

  function KeyOf(c: ContainerRow): Key {
    Key(c.image, c.tag)
  }

  /** Truthiness of an optional text column. */
  predicate Truthy(s: Option<string>) {
    s.Some? && s.value != ""
  }

  ghost predicate DistinctIds(cs: seq<ContainerRow>) {
    forall i, j :: 0 <= i < j < |cs| ==> cs[i].id != cs[j].id
  }

  // ── Grouping ───────────────────────────────────────────────────────────────

  function NewGroup(c: ContainerRow): Group {
    Group([], map[], c.digest, c.lastScanned)
  }

  /** The later of two optional times. */
  function Later(x: Option<int>, y: Option<int>): Option<int> {
    if y.Some? && (x.None? || y.value > x.value) then y else x
  }

  function AddTo(g: Group, c: ContainerRow): Group {
    Group(g.ids + [c.id], g.agents[c.agent := c.agentName],
          if Truthy(c.digest) then c.digest else g.digest, Later(g.lastScanned, c.lastScanned))
  }

  /** Keys in order of first appearance. */
  function Keys(cs: seq<ContainerRow>): (keys: seq<Key>)
    ensures forall i, j :: 0 <= i < j < |keys| ==> keys[i] != keys[j]
  {
    if cs == [] then []
    else
      var front, last := cs[..|cs| - 1], cs[|cs| - 1];
      if KeyOf(last) in Keys(front) then Keys(front) else Keys(front) + [KeyOf(last)]
  }

  lemma {:induction false} KeysOfRows(cs: seq<ContainerRow>, k: Key)
    ensures k in Keys(cs) <==> exists c :: c in cs && KeyOf(c) == k
  {
    if cs != [] {
      var front, last := cs[..|cs| - 1], cs[|cs| - 1];
      KeysOfRows(front, k);
      assert cs == front + [last];
    }
  }

  function Groups(cs: seq<ContainerRow>): (groups: map<Key, Group>)
    ensures forall k :: k in groups <==> k in Keys(cs)
  {
    if cs == [] then map[]
    else
      var front, last := cs[..|cs| - 1], cs[|cs| - 1];
      var groups := Groups(front);
      groups[KeyOf(last) := AddTo(if KeyOf(last) in groups then groups[KeyOf(last)] else NewGroup(last), last)]
  }

  /** Reference for the grouping: the containers of one key, in table order. */
  function Members(cs: seq<ContainerRow>, k: Key): seq<ContainerRow> {
    if cs == [] then []
    else Members(cs[..|cs| - 1], k) + (if KeyOf(cs[|cs| - 1]) == k then [cs[|cs| - 1]] else [])
  }

  /** `t` is the greatest scan time among `ms`, None when none was scanned. */
  ghost predicate IsLatest(t: Option<int>, ms: seq<ContainerRow>) {
    && (t.Some? ==> exists c :: c in ms && c.lastScanned == t)
    && (forall c :: c in ms && c.lastScanned.Some? ==> t.Some? && c.lastScanned.value <= t.value)
  }

  lemma MembersStep(cs: seq<ContainerRow>, k: Key)
    requires cs != []
    ensures var front, last := Members(cs[..|cs| - 1], k), cs[|cs| - 1];
            Members(cs, k) == if KeyOf(last) == k then front + [last] else front
  {
    assert Members(cs[..|cs| - 1], k) + [] == Members(cs[..|cs| - 1], k);
  }

  /** `d` is the last digest there is among `ms`, or the first member's when none has one. */
  ghost predicate IsDigest(d: Option<string>, ms: seq<ContainerRow>) {
    && ms != []
    && (Truthy(d) ==> exists i :: LastDigestAt(ms, i) && ms[i].digest == d)
    && (!Truthy(d) ==> d == ms[0].digest && forall i :: 0 <= i < |ms| ==> !Truthy(ms[i].digest))
  }

  ghost predicate LastDigestAt(ms: seq<ContainerRow>, i: int) {
    0 <= i < |ms| && Truthy(ms[i].digest) && forall j :: i < j < |ms| ==> !Truthy(ms[j].digest)
  }

  ghost predicate LastOfAgent(ms: seq<ContainerRow>, i: int, a: string) {
    0 <= i < |ms| && ms[i].agent == a && forall j :: i < j < |ms| ==> ms[j].agent != a
  }

  /** The agents of `ms`, each under the name its last row gives it. */
  ghost predicate IsRoster(agents: map<string, string>, ms: seq<ContainerRow>) {
    && (forall i :: 0 <= i < |ms| ==> ms[i].agent in agents)
    && (forall a :: a in agents ==> exists i :: LastOfAgent(ms, i, a) && ms[i].agentName == agents[a])
  }

  /** What a group's summary says about its members. */
  ghost predicate Summarises(g: Group, ms: seq<ContainerRow>) {
    && |g.ids| == |ms| && (forall i :: 0 <= i < |ms| ==> g.ids[i] == ms[i].id)
    && IsRoster(g.agents, ms) && IsLatest(g.lastScanned, ms) && IsDigest(g.digest, ms)
  }

  lemma FirstMember(c: ContainerRow)
    ensures Summarises(AddTo(NewGroup(c), c), [c])
  {
    var g := AddTo(NewGroup(c), c);
    assert c in [c];
    assert LastOfAgent([c], 0, c.agent) && (Truthy(c.digest) ==> LastDigestAt([c], 0));
    assert g.agents == map[c.agent := c.agentName];
  }

  lemma AddedLatest(g: Group, ms: seq<ContainerRow>, c: ContainerRow)
    requires IsLatest(g.lastScanned, ms)
    ensures IsLatest(AddTo(g, c).lastScanned, ms + [c])
  {
    var t := AddTo(g, c).lastScanned;
    if t.Some? && t != c.lastScanned {
      var m :| m in ms && m.lastScanned == t;
      assert m in ms + [c];
    } else {
      assert c in ms + [c];
    }
  }

  lemma AddedDigest(g: Group, ms: seq<ContainerRow>, c: ContainerRow)
    requires IsDigest(g.digest, ms)
    ensures IsDigest(AddTo(g, c).digest, ms + [c])
  {
    if Truthy(c.digest) {
      assert LastDigestAt(ms + [c], |ms|);
    } else if Truthy(g.digest) {
      var i :| LastDigestAt(ms, i) && ms[i].digest == g.digest;
      assert LastDigestAt(ms + [c], i);
    }
  }

  lemma AddedAgent(g: Group, ms: seq<ContainerRow>, c: ContainerRow)
    requires IsRoster(g.agents, ms)
    ensures IsRoster(AddTo(g, c).agents, ms + [c])
  {
    var agents, ms' := AddTo(g, c).agents, ms + [c];
    assert LastOfAgent(ms', |ms|, c.agent);
    forall a | a in agents && a != c.agent ensures exists i :: LastOfAgent(ms', i, a) && ms'[i].agentName == agents[a] {
      var i :| LastOfAgent(ms, i, a) && ms[i].agentName == g.agents[a];
      assert LastOfAgent(ms', i, a);
    }
  }

  lemma NextMember(g: Group, ms: seq<ContainerRow>, c: ContainerRow)
    requires Summarises(g, ms)
    ensures Summarises(AddTo(g, c), ms + [c])
  {
    AddedLatest(g, ms, c);
    AddedDigest(g, ms, c);
    AddedAgent(g, ms, c);
  }

  /** A group lists exactly its members, names their agents, and carries their latest scan time and last digest. */
  lemma {:induction false} GroupSummarisesMembers(cs: seq<ContainerRow>, k: Key)
    requires k in Groups(cs)
    ensures Summarises(Groups(cs)[k], Members(cs, k))
  {
    var front, last := cs[..|cs| - 1], cs[|cs| - 1];
    MembersStep(cs, k);
    if k in Groups(front) {
      GroupSummarisesMembers(front, k);
      NextMember(Groups(front)[k], Members(front, k), last);
    } else {
      NoMembers(front, k);
      FirstMember(last);
      assert [] + [last] == [last];
    }
  }

  lemma {:induction false} NoMembers(cs: seq<ContainerRow>, k: Key)
    requires k !in Keys(cs)
    ensures Members(cs, k) == []
  {
    if cs != [] {
      NoMembers(cs[..|cs| - 1], k);
    }
  }

  // ── Counting ───────────────────────────────────────────────────────────────

  function KeyMap(cs: seq<ContainerRow>): map<int, Key> {
    if cs == [] then map[] else KeyMap(cs[..|cs| - 1])[cs[|cs| - 1].id := KeyOf(cs[|cs| - 1])]
  }

  lemma {:induction false} KeyMapIds(cs: seq<ContainerRow>, id: int)
    ensures id in KeyMap(cs) <==> exists c :: c in cs && c.id == id
  {
    if cs != [] {
      var front, last := cs[..|cs| - 1], cs[|cs| - 1];
      KeyMapIds(front, id);
      assert cs == front + [last];
    }
  }

  datatype Measure = Every | Fixable | OfSeverity(severity: Severity)

  predicate Measures(f: FindingRow, m: Measure) {
    match m
    case Every => true
    case Fixable => Truthy(f.fixedVersion)
    case OfSeverity(s) => f.severity == s
  }

  /** Findings of measure `m` whose container belongs to key `k`. */
  function Count(fs: seq<FindingRow>, keyOf: map<int, Key>, k: Key, m: Measure): nat {
    if fs == [] then 0
    else
      var f := fs[|fs| - 1];
      Count(fs[..|fs| - 1], keyOf, k, m)
      + (if f.container in keyOf && keyOf[f.container] == k && Measures(f, m) then 1 else 0)
  }

  /** The dashboard's count: findings of measure `m`, whatever their container. */
  function CountAll(fs: seq<FindingRow>, m: Measure): nat {
    if fs == [] then 0 else CountAll(fs[..|fs| - 1], m) + (if Measures(fs[|fs| - 1], m) then 1 else 0)
  }

  datatype Stats = Stats(total: nat, fixable: nat, severities: Counts)

  const NO_STATS := Stats(0, 0, Counts(0, 0, 0, 0, 0))

  function StatsOf(fs: seq<FindingRow>, keyOf: map<int, Key>, k: Key): Stats {
    Stats(Count(fs, keyOf, k, Every), Count(fs, keyOf, k, Fixable),
          Counts(Count(fs, keyOf, k, OfSeverity(Critical)), Count(fs, keyOf, k, OfSeverity(High)),
                 Count(fs, keyOf, k, OfSeverity(Medium)), Count(fs, keyOf, k, OfSeverity(Low)),
                 Count(fs, keyOf, k, OfSeverity(Unknown))))
  }

  function Summary(k: Key, g: Group, stats: Stats): Image {
    Image(k, g.digest, |g.ids|, g.agents, stats.total, stats.fixable, stats.severities, g.lastScanned)
  }

  function ImageOf(groups: map<Key, Group>, keyOf: map<int, Key>, fs: seq<FindingRow>, k: Key): Image
    requires k in groups
  {
    Summary(k, groups[k], StatsOf(fs, keyOf, k))
  }

  /** The listing before it is sorted and cut into pages. */
  function Listing(groups: map<Key, Group>, keyOf: map<int, Key>, fs: seq<FindingRow>,
                   keys: seq<Key>, fixableOnly: bool)
    : seq<Image>
    requires forall k :: k in keys ==> k in groups
    decreases |keys|
  {
    if keys == [] then []
    else
      var image := ImageOf(groups, keyOf, fs, keys[|keys| - 1]);
      Listing(groups, keyOf, fs, keys[..|keys| - 1], fixableOnly)
      + (if fixableOnly && image.fixable == 0 then [] else [image])
  }

  function Results(cs: seq<ContainerRow>, fs: seq<FindingRow>, fixableOnly: bool): seq<Image> {
    Listing(Groups(cs), KeyMap(cs), fs, Keys(cs), fixableOnly)
  }

  lemma ListingOneMore(groups: map<Key, Group>, keyOf: map<int, Key>, fs: seq<FindingRow>,
                       keys: seq<Key>, k: Key, fixableOnly: bool)
    requires k in groups && forall q :: q in keys ==> q in groups
    ensures var image := ImageOf(groups, keyOf, fs, k);
            Listing(groups, keyOf, fs, keys + [k], fixableOnly)
            == Listing(groups, keyOf, fs, keys, fixableOnly)
             + (if fixableOnly && image.fixable == 0 then [] else [image])
  {
    assert (keys + [k])[..|keys|] == keys;
  }

  // ── Conservation ───────────────────────────────────────────────────────────

  function SumCount(fs: seq<FindingRow>, keyOf: map<int, Key>, keys: seq<Key>, m: Measure): nat
    decreases |keys|
  {
    if keys == [] then 0
    else SumCount(fs, keyOf, keys[..|keys| - 1], m) + Count(fs, keyOf, keys[|keys| - 1], m)
  }

  lemma {:induction false} SumOfNothing(keyOf: map<int, Key>, keys: seq<Key>, m: Measure)
    ensures SumCount([], keyOf, keys, m) == 0
    decreases |keys|
  {
    if keys != [] {
      SumOfNothing(keyOf, keys[..|keys| - 1], m);
    }
  }

  /** One more finding adds one to exactly one key's count. */
  lemma {:induction false} SumOfOneMore(fs: seq<FindingRow>, keyOf: map<int, Key>, keys: seq<Key>, m: Measure)
    requires fs != []
    requires forall i, j :: 0 <= i < j < |keys| ==> keys[i] != keys[j]
    ensures var f := fs[|fs| - 1];
            SumCount(fs, keyOf, keys, m) == SumCount(fs[..|fs| - 1], keyOf, keys, m)
              + (if f.container in keyOf && keyOf[f.container] in keys && Measures(f, m) then 1 else 0)
    decreases |keys|
  {
    if keys != [] {
      var n := |keys| - 1;
      SumOfOneMore(fs, keyOf, keys[..n], m);
      assert keys == keys[..n] + [keys[n]];
      assert keys[n] !in keys[..n];
    }
  }

  lemma {:induction false} SumOverKeys(fs: seq<FindingRow>, keyOf: map<int, Key>, keys: seq<Key>, m: Measure)
    requires forall i, j :: 0 <= i < j < |keys| ==> keys[i] != keys[j]
    requires forall f :: f in fs ==> f.container in keyOf && keyOf[f.container] in keys
    ensures SumCount(fs, keyOf, keys, m) == CountAll(fs, m)
  {
    if fs == [] {
      SumOfNothing(keyOf, keys, m);
    } else {
      assert fs[|fs| - 1] in fs;
      SumOfOneMore(fs, keyOf, keys, m);
      SumOverKeys(fs[..|fs| - 1], keyOf, keys, m);
    }
  }

  datatype Column = Total | FixableOnes | Containers

  function ValueIn(x: Image, c: Column): nat {
    match c
    case Total => x.total
    case FixableOnes => x.fixable
    case Containers => x.containerCount
  }

  function Sum(images: seq<Image>, c: Column): nat {
    if images == [] then 0 else Sum(images[..|images| - 1], c) + ValueIn(images[|images| - 1], c)
  }

  lemma SumOfOneMoreImage(images: seq<Image>, x: Image, c: Column)
    ensures Sum(images + [x], c) == Sum(images, c) + ValueIn(x, c)
  {
    assert (images + [x])[..|images|] == images;
  }

  lemma SumOfOneMoreKey(fs: seq<FindingRow>, keyOf: map<int, Key>, keys: seq<Key>, k: Key, m: Measure)
    ensures SumCount(fs, keyOf, keys + [k], m) == SumCount(fs, keyOf, keys, m) + Count(fs, keyOf, k, m)
  {
    assert (keys + [k])[..|keys|] == keys;
  }

  /** Hidden or not, an image adds its fixable count: it is hidden only when that is zero. */
  lemma FixableOneMore(groups: map<Key, Group>, keyOf: map<int, Key>, fs: seq<FindingRow>,
                       keys: seq<Key>, k: Key, fixableOnly: bool)
    requires k in groups && forall q :: q in keys ==> q in groups
    ensures Sum(Listing(groups, keyOf, fs, keys + [k], fixableOnly), FixableOnes)
            == Sum(Listing(groups, keyOf, fs, keys, fixableOnly), FixableOnes) + Count(fs, keyOf, k, Fixable)
  {
    var front, image := Listing(groups, keyOf, fs, keys, fixableOnly), ImageOf(groups, keyOf, fs, k);
    ListingOneMore(groups, keyOf, fs, keys, k, fixableOnly);
    SumOfOneMoreImage(front, image, FixableOnes);
    assert front + [] == front;
  }

  lemma {:induction false} ListingFixable(groups: map<Key, Group>, keyOf: map<int, Key>, fs: seq<FindingRow>,
                                          keys: seq<Key>, fixableOnly: bool)
    requires forall k :: k in keys ==> k in groups
    ensures Sum(Listing(groups, keyOf, fs, keys, fixableOnly), FixableOnes) == SumCount(fs, keyOf, keys, Fixable)
    decreases |keys|
  {
    if keys != [] {
      var front, last := keys[..|keys| - 1], keys[|keys| - 1];
      assert keys == front + [last];
      ListingFixable(groups, keyOf, fs, front, fixableOnly);
      FixableOneMore(groups, keyOf, fs, front, last, fixableOnly);
      SumOfOneMoreKey(fs, keyOf, front, last, Fixable);
    }
  }

  lemma {:induction false} ListingTotals(groups: map<Key, Group>, keyOf: map<int, Key>, fs: seq<FindingRow>,
                                         keys: seq<Key>)
    requires forall k :: k in keys ==> k in groups
    ensures Sum(Listing(groups, keyOf, fs, keys, false), Total) == SumCount(fs, keyOf, keys, Every)
    decreases |keys|
  {
    if keys != [] {
      var front, last := keys[..|keys| - 1], keys[|keys| - 1];
      assert keys == front + [last];
      ListingTotals(groups, keyOf, fs, front);
      ListingOneMore(groups, keyOf, fs, front, last, false);
      SumOfOneMoreImage(Listing(groups, keyOf, fs, front, false), ImageOf(groups, keyOf, fs, last), Total);
      SumOfOneMoreKey(fs, keyOf, front, last, Every);
    }
  }

  lemma {:induction false} MappedKeyIsListed(cs: seq<ContainerRow>, id: int)
    requires id in KeyMap(cs)
    ensures KeyMap(cs)[id] in Keys(cs)
  {
    var front, last := cs[..|cs| - 1], cs[|cs| - 1];
    assert cs == front + [last];
    if id != last.id {
      MappedKeyIsListed(front, id);
    }
  }

  /** The findings of the listed containers; under the agent filter these need not be all. */
  function OfListed(cs: seq<ContainerRow>, fs: seq<FindingRow>): seq<FindingRow> {
    Restrict(fs, KeyMap(cs).Keys)
  }

  lemma {:induction false} RestrictedAreIn(fs: seq<FindingRow>, ids: set<int>)
    ensures forall f :: f in Restrict(fs, ids) ==> f.container in ids
    ensures (forall f :: f in fs ==> f.container in ids) ==> Restrict(fs, ids) == fs
  {
    if fs != [] {
      var front, last := fs[..|fs| - 1], fs[|fs| - 1];
      RestrictedAreIn(front, ids);
      assert fs == front + [last];
    }
  }

  lemma {:induction false} ListingOfListed(groups: map<Key, Group>, keyOf: map<int, Key>, fs: seq<FindingRow>,
                                           keys: seq<Key>, fixableOnly: bool)
    requires forall k :: k in keys ==> k in groups
    ensures Listing(groups, keyOf, Restrict(fs, keyOf.Keys), keys, fixableOnly)
            == Listing(groups, keyOf, fs, keys, fixableOnly)
    decreases |keys|
  {
    if keys != [] {
      ListingOfListed(groups, keyOf, fs, keys[..|keys| - 1], fixableOnly);
      StatsSurviveRestriction(fs, keyOf, keys[|keys| - 1]);
    }
  }

  lemma CompleteListing(cs: seq<ContainerRow>, fs: seq<FindingRow>)
    requires forall f :: f in fs ==> exists c :: c in cs && c.id == f.container
    ensures OfListed(cs, fs) == fs
  {
    forall f | f in fs ensures f.container in KeyMap(cs) {
      KeyMapIds(cs, f.container);
    }
    RestrictedAreIn(fs, KeyMap(cs).Keys);
  }

  /**
   * Nothing is lost or counted twice, with or without the agent filter: the groups' totals add up to
   * the active findings of the listed containers and their fixable counts to the fixable ones among
   * them. Hiding the groups without fixable findings does not change the latter. When every finding's
   * container is listed, these are the dashboard's counts.
   */
  lemma CountsAreConserved(cs: seq<ContainerRow>, fs: seq<FindingRow>)
    ensures Sum(Results(cs, fs, false), Total) == CountAll(OfListed(cs, fs), Every) == |OfListed(cs, fs)|
    ensures Sum(Results(cs, fs, false), FixableOnes) == CountAll(OfListed(cs, fs), Fixable)
    ensures Sum(Results(cs, fs, true), FixableOnes) == CountAll(OfListed(cs, fs), Fixable)
    ensures (forall f :: f in fs ==> exists c :: c in cs && c.id == f.container) ==> OfListed(cs, fs) == fs
  {
    var mine, keyOf := OfListed(cs, fs), KeyMap(cs);
    RestrictedAreIn(fs, keyOf.Keys);
    forall f | f in mine ensures f.container in keyOf && keyOf[f.container] in Keys(cs) {
      MappedKeyIsListed(cs, f.container);
    }
    SumOverKeys(mine, keyOf, Keys(cs), Every);
    SumOverKeys(mine, keyOf, Keys(cs), Fixable);
    ListingOfListed(Groups(cs), keyOf, fs, Keys(cs), false);
    ListingOfListed(Groups(cs), keyOf, fs, Keys(cs), true);
    ListingTotals(Groups(cs), keyOf, mine, Keys(cs));
    ListingFixable(Groups(cs), keyOf, mine, Keys(cs), false);
    ListingFixable(Groups(cs), keyOf, mine, Keys(cs), true);
    EveryCounts(mine);
    if forall f :: f in fs ==> exists c :: c in cs && c.id == f.container {
      CompleteListing(cs, fs);
    }
  }

  lemma {:induction false} EveryCounts(fs: seq<FindingRow>)
    ensures CountAll(fs, Every) == |fs|
  {
    if fs != [] {
      EveryCounts(fs[..|fs| - 1]);
    }
  }

  lemma {:induction false} SeveritiesAddUp(fs: seq<FindingRow>, keyOf: map<int, Key>, k: Key)
    ensures Count(fs, keyOf, k, Every)
            == Count(fs, keyOf, k, OfSeverity(Critical)) + Count(fs, keyOf, k, OfSeverity(High))
             + Count(fs, keyOf, k, OfSeverity(Medium)) + Count(fs, keyOf, k, OfSeverity(Low))
             + Count(fs, keyOf, k, OfSeverity(Unknown))
  {
    if fs != [] {
      SeveritiesAddUp(fs[..|fs| - 1], keyOf, k);
    }
  }

  /** Per listed image: the breakdown sums to the total, which bounds the fixable count; the time is the latest. */
  lemma ImageAddsUp(cs: seq<ContainerRow>, fs: seq<FindingRow>, k: Key)
    requires k in Keys(cs)
    ensures var x := ImageOf(Groups(cs), KeyMap(cs), fs, k);
            && x.total == x.severities.critical + x.severities.high + x.severities.medium
                        + x.severities.low + x.severities.unknown
            && x.fixable <= x.total
            && x.containerCount == |Members(cs, k)| > 0
            && IsLatest(x.lastScanned, Members(cs, k))
  {
    SeveritiesAddUp(fs, KeyMap(cs), k);
    FixableWithinTotal(fs, KeyMap(cs), k);
    GroupSummarisesMembers(cs, k);
    SomeMember(cs, k);
  }

  lemma {:induction false} SomeMember(cs: seq<ContainerRow>, k: Key)
    requires k in Keys(cs)
    ensures Members(cs, k) != []
  {
    if k in Keys(cs[..|cs| - 1]) {
      SomeMember(cs[..|cs| - 1], k);
    }
  }

  lemma {:induction false} FixableWithinTotal(fs: seq<FindingRow>, keyOf: map<int, Key>, k: Key)
    ensures Count(fs, keyOf, k, Fixable) <= Count(fs, keyOf, k, Every)
  {
    if fs != [] {
      FixableWithinTotal(fs[..|fs| - 1], keyOf, k);
    }
  }

  function SumMembers(cs: seq<ContainerRow>, keys: seq<Key>): nat
    decreases |keys|
  {
    if keys == [] then 0 else SumMembers(cs, keys[..|keys| - 1]) + |Members(cs, keys[|keys| - 1])|
  }

  lemma {:induction false} SumMembersStep(cs: seq<ContainerRow>, keys: seq<Key>)
    requires cs != []
    requires forall i, j :: 0 <= i < j < |keys| ==> keys[i] != keys[j]
    ensures SumMembers(cs, keys) == SumMembers(cs[..|cs| - 1], keys) + (if KeyOf(cs[|cs| - 1]) in keys then 1 else 0)
    decreases |keys|
  {
    if keys != [] {
      var n := |keys| - 1;
      SumMembersStep(cs, keys[..n]);
      assert keys == keys[..n] + [keys[n]];
      assert keys[n] !in keys[..n];
    }
  }

  lemma {:induction false} SumMembersIsAll(cs: seq<ContainerRow>, keys: seq<Key>)
    requires forall i, j :: 0 <= i < j < |keys| ==> keys[i] != keys[j]
    requires forall c :: c in cs ==> KeyOf(c) in keys
    ensures SumMembers(cs, keys) == |cs|
    decreases |cs|, |keys|
  {
    if cs != [] {
      assert cs[|cs| - 1] in cs;
      SumMembersStep(cs, keys);
      SumMembersIsAll(cs[..|cs| - 1], keys);
    } else if keys != [] {
      SumMembersIsAll(cs, keys[..|keys| - 1]);
    }
  }

  lemma {:induction false} ListingContainers(cs: seq<ContainerRow>, groups: map<Key, Group>, keyOf: map<int, Key>,
                                             fs: seq<FindingRow>, keys: seq<Key>)
    requires forall k :: k in keys ==> k in groups && |groups[k].ids| == |Members(cs, k)|
    ensures Sum(Listing(groups, keyOf, fs, keys, false), Containers) == SumMembers(cs, keys)
    decreases |keys|
  {
    if keys != [] {
      var front, last := keys[..|keys| - 1], keys[|keys| - 1];
      assert keys == front + [last];
      ListingContainers(cs, groups, keyOf, fs, front);
      ListingOneMore(groups, keyOf, fs, front, last, false);
      SumOfOneMoreImage(Listing(groups, keyOf, fs, front, false), ImageOf(groups, keyOf, fs, last), Containers);
    }
  }

  lemma {:induction false} ListingKeys(groups: map<Key, Group>, keyOf: map<int, Key>, fs: seq<FindingRow>,
                                       keys: seq<Key>)
    requires forall k :: k in keys ==> k in groups
    ensures var images := Listing(groups, keyOf, fs, keys, false);
            |images| == |keys| && forall i :: 0 <= i < |keys| ==> images[i].key == keys[i]
    decreases |keys|
  {
    if keys != [] {
      var front, last := keys[..|keys| - 1], keys[|keys| - 1];
      assert keys == front + [last];
      ListingKeys(groups, keyOf, fs, front);
      ListingOneMore(groups, keyOf, fs, front, last, false);
    }
  }

  /** Without a filter the listing has one image per key, and every container is in exactly one of them. */
  lemma ContainersArePartitioned(cs: seq<ContainerRow>, fs: seq<FindingRow>)
    ensures var images := Results(cs, fs, false);
            && Sum(images, Containers) == |cs|
            && (forall c :: c in cs ==> exists i :: 0 <= i < |images| && images[i].key == KeyOf(c))
            && (forall i, j :: 0 <= i < j < |images| ==> images[i].key != images[j].key)
  {
    forall k | k in Keys(cs) ensures |Groups(cs)[k].ids| == |Members(cs, k)| {
      GroupSummarisesMembers(cs, k);
    }
    ListingContainers(cs, Groups(cs), KeyMap(cs), fs, Keys(cs));
    ListingKeys(Groups(cs), KeyMap(cs), fs, Keys(cs));
    forall c | c in cs ensures KeyOf(c) in Keys(cs) {
      KeysOfRows(cs, KeyOf(c));
    }
    SumMembersIsAll(cs, Keys(cs));
    forall c | c in cs ensures exists i :: 0 <= i < |Keys(cs)| && Results(cs, fs, false)[i].key == KeyOf(c) {
      KeyIsListed(cs, fs, KeyOf(c));
    }
  }

  lemma KeyIsListed(cs: seq<ContainerRow>, fs: seq<FindingRow>, k: Key)
    requires k in Keys(cs)
    ensures |Results(cs, fs, false)| == |Keys(cs)|
    ensures exists i :: 0 <= i < |Keys(cs)| && Results(cs, fs, false)[i].key == k
  {
    ListingKeys(Groups(cs), KeyMap(cs), fs, Keys(cs));
    var i :| 0 <= i < |Keys(cs)| && Keys(cs)[i] == k;
    assert Results(cs, fs, false)[i].key == k;
  }

  // ── Pages ──────────────────────────────────────────────────────────────────

  /** results[start:end], clipped as Python clips it. */
  function Page<T>(xs: seq<T>, page: nat, size: nat): seq<T>
    requires page >= 1
  {
    var start := (page - 1) * size;
    var end := start + size;
    xs[if start < |xs| then start else |xs| .. if end < |xs| then end else |xs|]
  }

  function Pages<T>(xs: seq<T>, n: nat, size: nat): seq<T> {
    if n == 0 then [] else Pages(xs, n - 1, size) + Page(xs, n, size)
  }

  /** Walking the pages visits a prefix of the results once, in order, and in the end all of them. */
  lemma {:induction false} PagesCoverResults<T>(xs: seq<T>, n: nat, size: nat)
    ensures Pages(xs, n, size) == xs[..if n * size < |xs| then n * size else |xs|]
  {
    if n > 0 {
      PagesCoverResults(xs, n - 1, size);
      assert n * size == (n - 1) * size + size;
    }
  }

  lemma {:induction false} SumOfConcat(xs: seq<Image>, ys: seq<Image>, c: Column)
    ensures Sum(xs + ys, c) == Sum(xs, c) + Sum(ys, c)
    decreases |ys|
  {
    if ys == [] {
      assert xs + ys == xs;
    } else {
      var front, last := ys[..|ys| - 1], ys[|ys| - 1];
      assert xs + ys == (xs + front) + [last];
      SumOfConcat(xs, front, c);
      SumOfOneMoreImage(xs + front, last, c);
    }
  }

  lemma SumWithout(images: seq<Image>, i: nat, c: Column)
    requires i < |images|
    ensures Sum(images, c) == Sum(images[..i] + images[i + 1..], c) + ValueIn(images[i], c)
  {
    assert images == (images[..i] + [images[i]]) + images[i + 1..];
    SumOfConcat(images[..i] + [images[i]], images[i + 1..], c);
    SumOfOneMoreImage(images[..i], images[i], c);
    SumOfConcat(images[..i], images[i + 1..], c);
  }

  lemma WithoutOne<T>(xs: seq<T>, i: nat)
    requires i < |xs|
    ensures multiset(xs[..i] + xs[i + 1..]) == multiset(xs) - multiset{xs[i]}
  {
    assert xs == xs[..i] + [xs[i]] + xs[i + 1..];
  }

  lemma TailOf<T>(xs: seq<T>)
    requires xs != []
    ensures multiset(xs[1..]) == multiset(xs) - multiset{xs[0]}
  {
    assert xs == [xs[0]] + xs[1..];
  }

  lemma IndexOf<T>(x: T, ys: seq<T>) returns (i: nat)
    requires x in multiset(ys)
    ensures i < |ys| && ys[i] == x
  {
    i :| 0 <= i < |ys| && ys[i] == x;
  }

  /** What follows the first of `xs` is, in some order, `ys` without that one. */
  lemma WithoutFirst<T>(xs: seq<T>, ys: seq<T>) returns (i: nat)
    requires multiset(xs) == multiset(ys) && xs != []
    ensures i < |ys| && ys[i] == xs[0] && multiset(xs[1..]) == multiset(ys[..i] + ys[i + 1..])
  {
    assert xs[0] in multiset(xs);
    i := IndexOf(xs[0], ys);
    TailOf(xs);
    WithoutOne(ys, i);
  }

  /** A sum does not depend on the order the results are sorted into. */
  lemma {:induction false} SumIgnoresOrder(xs: seq<Image>, ys: seq<Image>, c: Column)
    requires multiset(xs) == multiset(ys)
    ensures Sum(xs, c) == Sum(ys, c)
    decreases |xs|
  {
    if xs == [] {
      assert |ys| == |multiset(ys)| == 0;
    } else {
      var i := WithoutFirst(xs, ys);
      SumIgnoresOrder(xs[1..], ys[..i] + ys[i + 1..], c);
      assert xs[1..] == xs[..0] + xs[1..];
      SumWithout(xs, 0, c);
      SumWithout(ys, i, c);
    }
  }

  /**
   * Whatever the sort order and page size, adding up the pages gives the active and the fixable
   * findings of the listed containers, and every listed container once.
   */
  lemma PagesConserve(cs: seq<ContainerRow>, fs: seq<FindingRow>, sorted: seq<Image>, n: nat, size: nat)
    requires multiset(sorted) == multiset(Results(cs, fs, false)) && n * size >= |sorted|
    ensures var shown := Pages(sorted, n, size);
      && Sum(shown, Total) == |OfListed(cs, fs)|
      && Sum(shown, FixableOnes) == CountAll(OfListed(cs, fs), Fixable)
      && Sum(shown, Containers) == |cs|
  {
    PagesCoverResults(sorted, n, size);
    assert sorted[..|sorted|] == sorted;
    SumIgnoresOrder(sorted, Results(cs, fs, false), Total);
    SumIgnoresOrder(sorted, Results(cs, fs, false), FixableOnes);
    SumIgnoresOrder(sorted, Results(cs, fs, false), Containers);
    CountsAreConserved(cs, fs);
    ContainersArePartitioned(cs, fs);
  }

  // ── Sorting by scan time ───────────────────────────────────────────────────

  /** The sort key of "last_scanned": the time, or "" for a group never scanned. */
  datatype SortKey = Time(at: int) | Blank

  function LastScannedKey(x: Image): SortKey {
    if x.lastScanned.Some? then Time(x.lastScanned.value) else Blank
  }

  /** Comparing a time with a string is a TypeError. */
  predicate Comparable(x: Image, y: Image) {
    LastScannedKey(x).Time? <==> LastScannedKey(y).Time?
  }

  /**
   * The pairs of positions a sort compared suffice to order `n` elements only if they lead across
   * every split into two parts; otherwise the parts' mutual order is unknown.
   */
  ghost predicate Connects(pairs: set<(nat, nat)>, n: nat) {
    && (forall p :: p in pairs ==> p.0 < n && p.1 < n)
    && forall part :: Splits(part, n) ==> exists p :: p in pairs && (p.0 in part) != (p.1 in part)
  }

  /** Some position below `n` is in the part and some is not. */
  ghost predicate Splits(part: set<nat>, n: nat) {
    (exists i :: i in part && i < n) && (exists j: nat :: j !in part && j < n)
  }

  /** However it proceeds, the sort fails exactly when the listing holds a scanned and a never scanned group. */
  lemma SortFailsIff(images: seq<Image>, pairs: set<(nat, nat)>)
    requires Connects(pairs, |images|)
    ensures (exists p :: p in pairs && !Comparable(images[p.0], images[p.1])) <==>
            (exists x, y :: x in images && y in images && x.lastScanned.Some? && y.lastScanned.None?)
  {
    if x, y :| x in images && y in images && x.lastScanned.Some? && y.lastScanned.None? {
      var scanned := set i: nat | i < |images| && images[i].lastScanned.Some?;
      var i: nat :| i < |images| && images[i] == x;
      var j: nat :| j < |images| && images[j] == y;
      assert i in scanned && j !in scanned && Splits(scanned, |images|);
      var p :| p in pairs && (p.0 in scanned) != (p.1 in scanned);
      assert !Comparable(images[p.0], images[p.1]);
    }
  }

  lemma GroupScannedIff(cs: seq<ContainerRow>, fs: seq<FindingRow>, k: Key)
    requires k in Keys(cs)
    ensures ImageOf(Groups(cs), KeyMap(cs), fs, k).lastScanned.Some? <==>
            exists c :: c in Members(cs, k) && c.lastScanned.Some?
  {
    GroupSummarisesMembers(cs, k);
  }

  lemma {:induction false} MembersOf(cs: seq<ContainerRow>, k: Key)
    ensures forall c :: c in Members(cs, k) <==> c in cs && KeyOf(c) == k
  {
    if cs != [] {
      MembersOf(cs[..|cs| - 1], k);
      assert cs == cs[..|cs| - 1] + [cs[|cs| - 1]];
    }
  }

  lemma {:induction false} ListingOf(groups: map<Key, Group>, keyOf: map<int, Key>, fs: seq<FindingRow>, keys: seq<Key>)
    requires forall k :: k in keys ==> k in groups
    ensures forall x :: x in Listing(groups, keyOf, fs, keys, false) <==>
      exists k :: k in keys && x == ImageOf(groups, keyOf, fs, k)
    decreases |keys|
  {
    if keys != [] {
      var front, last := keys[..|keys| - 1], keys[|keys| - 1];
      assert keys == front + [last];
      ListingOf(groups, keyOf, fs, front);
      ListingOneMore(groups, keyOf, fs, front, last, false);
    }
  }

  /**
   * In terms of the table: without the fixable filter, sorting by scan time fails exactly when some
   * container has been scanned and all containers of some image and tag have not.
   */
  lemma LastScannedSortFailsIff(cs: seq<ContainerRow>, fs: seq<FindingRow>, pairs: set<(nat, nat)>)
    requires Connects(pairs, |Results(cs, fs, false)|)
    ensures (exists p :: p in pairs && !Comparable(Results(cs, fs, false)[p.0], Results(cs, fs, false)[p.1])) <==>
            && (exists c :: c in cs && c.lastScanned.Some?)
            && (exists k :: k in Keys(cs) && forall c :: c in cs && KeyOf(c) == k ==> c.lastScanned.None?)
  {
    SortFailsIff(Results(cs, fs, false), pairs);
    MixedIff(cs, fs);
  }

  lemma ImageScannedIff(cs: seq<ContainerRow>, fs: seq<FindingRow>, k: Key)
    requires k in Keys(cs)
    ensures var x := ImageOf(Groups(cs), KeyMap(cs), fs, k);
      && x in Results(cs, fs, false)
      && (x.lastScanned.Some? <==> exists c :: c in cs && KeyOf(c) == k && c.lastScanned.Some?)
  {
    ListingOf(Groups(cs), KeyMap(cs), fs, Keys(cs));
    GroupScannedIff(cs, fs, k);
    MembersOf(cs, k);
  }

  lemma ImageHasKey(cs: seq<ContainerRow>, fs: seq<FindingRow>, x: Image) returns (k: Key)
    requires x in Results(cs, fs, false)
    ensures k in Keys(cs) && x == ImageOf(Groups(cs), KeyMap(cs), fs, k)
  {
    ListingOf(Groups(cs), KeyMap(cs), fs, Keys(cs));
    k :| k in Keys(cs) && x == ImageOf(Groups(cs), KeyMap(cs), fs, k);
  }

  lemma MixedIff(cs: seq<ContainerRow>, fs: seq<FindingRow>)
    ensures var images := Results(cs, fs, false);
      && ((exists x :: x in images && x.lastScanned.Some?) <==> exists c :: c in cs && c.lastScanned.Some?)
      && ((exists x :: x in images && x.lastScanned.None?) <==>
            exists k :: k in Keys(cs) && forall c :: c in cs && KeyOf(c) == k ==> c.lastScanned.None?)
  {
    var images := Results(cs, fs, false);
    forall x | x in images
      ensures x.lastScanned.Some? ==> exists c :: c in cs && c.lastScanned.Some?
      ensures x.lastScanned.None? ==>
        exists k :: k in Keys(cs) && forall c :: c in cs && KeyOf(c) == k ==> c.lastScanned.None?
    {
      var k := ImageHasKey(cs, fs, x);
      ImageScannedIff(cs, fs, k);
    }
    if c :| c in cs && c.lastScanned.Some? {
      KeysOfRows(cs, KeyOf(c));
      ImageScannedIff(cs, fs, KeyOf(c));
    }
    if k :| k in Keys(cs) && forall c :: c in cs && KeyOf(c) == k ==> c.lastScanned.None? {
      ImageScannedIff(cs, fs, k);
    }
  }

  // ── The endpoint ───────────────────────────────────────────────────────────

  /** The IN condition, applied only when there is some container id to list. */
  function Restrict(fs: seq<FindingRow>, ids: set<int>): seq<FindingRow> {
    if fs == [] then []
    else Restrict(fs[..|fs| - 1], ids) + (if fs[|fs| - 1].container in ids then [fs[|fs| - 1]] else [])
  }

  lemma CountOfOneMore(fs: seq<FindingRow>, f: FindingRow, keyOf: map<int, Key>, k: Key, m: Measure)
    ensures Count(fs + [f], keyOf, k, m)
            == Count(fs, keyOf, k, m)
             + (if f.container in keyOf && keyOf[f.container] == k && Measures(f, m) then 1 else 0)
  {
    assert (fs + [f])[..|fs|] == fs;
  }

  lemma {:induction false} RestrictKeepsCounts(fs: seq<FindingRow>, keyOf: map<int, Key>, k: Key, m: Measure)
    ensures Count(Restrict(fs, keyOf.Keys), keyOf, k, m) == Count(fs, keyOf, k, m)
  {
    if fs != [] {
      var front, last := fs[..|fs| - 1], fs[|fs| - 1];
      RestrictKeepsCounts(front, keyOf, k, m);
      CountOfOneMore(Restrict(front, keyOf.Keys), last, keyOf, k, m);
      assert Restrict(front, keyOf.Keys) + [] == Restrict(front, keyOf.Keys);
    }
  }

  method GroupContainers(cs: seq<ContainerRow>) returns (order: seq<Key>, groups: map<Key, Group>)
    ensures order == Keys(cs) && groups == Groups(cs)
  {
    order, groups := [], map[];
    for i := 0 to |cs|
      invariant order == Keys(cs[..i]) && groups == Groups(cs[..i])
    {
      assert cs[..i + 1][..i] == cs[..i];
      var key := KeyOf(cs[i]);
      var group := NewGroup(cs[i]);
      if key in groups {
        group := groups[key];
      } else {
        order := order + [key];
      }
      groups := groups[key := AddTo(group, cs[i])];
    }
    assert cs[..|cs|] == cs;
  }

  /** Which group each container id was filed under. */
  method InvertGroups(order: seq<Key>, groups: map<Key, Group>) returns (containerToKey: map<int, Key>)
    requires forall k :: k in order ==> k in groups
    ensures containerToKey == Filed(groups, order)
  {
    containerToKey := map[];
    for i := 0 to |order|
      invariant containerToKey == Filed(groups, order[..i])
    {
      FiledOneMore(groups, order[..i], order[i]);
      assert order[..i + 1] == order[..i] + [order[i]];
      containerToKey := FileGroup(containerToKey, groups[order[i]].ids, order[i]);
    }
    assert order[..|order|] == order;
  }

  method FileGroup(m: map<int, Key>, ids: seq<int>, key: Key) returns (m': map<int, Key>)
    ensures m' == m + (map id | id in ids :: key)
  {
    m' := m;
    for j := 0 to |ids|
      invariant m' == m + (map id | id in ids[..j] :: key)
    {
      assert ids[..j + 1] == ids[..j] + [ids[j]];
      m' := m'[ids[j] := key];
    }
    assert ids[..|ids|] == ids;
  }

  function Filed(groups: map<Key, Group>, order: seq<Key>): map<int, Key>
    requires forall k :: k in order ==> k in groups
    decreases |order|
  {
    if order == [] then map[]
    else
      var k := order[|order| - 1];
      Filed(groups, order[..|order| - 1]) + (map id | id in groups[k].ids :: k)
  }

  lemma FiledOneMore(groups: map<Key, Group>, order: seq<Key>, k: Key)
    requires k in groups && forall q :: q in order ==> q in groups
    ensures Filed(groups, order + [k]) == Filed(groups, order) + (map id | id in groups[k].ids :: k)
  {
    assert (order + [k])[..|order|] == order;
  }

  lemma {:induction false} FiledUnder(groups: map<Key, Group>, order: seq<Key>, id: int)
    requires forall k :: k in order ==> k in groups
    ensures id in Filed(groups, order) <==> exists k :: k in order && id in groups[k].ids
    ensures id in Filed(groups, order) ==>
      Filed(groups, order)[id] in order && id in groups[Filed(groups, order)[id]].ids
    decreases |order|
  {
    if order != [] {
      var front, last := order[..|order| - 1], order[|order| - 1];
      assert order == front + [last];
      FiledUnder(groups, front, id);
    }
  }

  lemma FiledAgrees(cs: seq<ContainerRow>, id: int)
    requires DistinctIds(cs)
    ensures id in Filed(Groups(cs), Keys(cs)) <==> id in KeyMap(cs)
    ensures id in KeyMap(cs) ==> Filed(Groups(cs), Keys(cs))[id] == KeyMap(cs)[id]
  {
    FiledUnder(Groups(cs), Keys(cs), id);
    GroupsHoldIds(cs, id);
    if id in KeyMap(cs) {
      IdInItsGroup(cs, id, Filed(Groups(cs), Keys(cs))[id]);
    }
  }

  lemma FiledIsKeyMap(cs: seq<ContainerRow>)
    requires DistinctIds(cs)
    ensures Filed(Groups(cs), Keys(cs)) == KeyMap(cs)
  {
    forall id
      ensures id in Filed(Groups(cs), Keys(cs)) <==> id in KeyMap(cs)
      ensures id in KeyMap(cs) ==> Filed(Groups(cs), Keys(cs))[id] == KeyMap(cs)[id]
    {
      FiledAgrees(cs, id);
    }
  }

  lemma {:induction false} IdInItsGroup(cs: seq<ContainerRow>, id: int, k: Key)
    requires DistinctIds(cs) && k in Groups(cs) && id in Groups(cs)[k].ids
    ensures id in KeyMap(cs) && KeyMap(cs)[id] == k
  {
    var n := |cs| - 1;
    var front, last := cs[..n], cs[n];
    if k in Groups(front) && id in Groups(front)[k].ids {
      IdInItsGroup(front, id, k);
      KeyMapIds(front, id);
      var i :| 0 <= i < n && front[i].id == id;
      assert cs[i].id != cs[n].id;
    } else {
      assert k == KeyOf(last) && id == last.id;
    }
  }

  lemma {:induction false} GroupsHoldIds(cs: seq<ContainerRow>, id: int)
    ensures id in KeyMap(cs) <==> exists k :: k in Keys(cs) && id in Groups(cs)[k].ids
  {
    if cs != [] {
      var front, last := cs[..|cs| - 1], cs[|cs| - 1];
      GroupsHoldIds(front, id);
      assert KeyOf(last) in Keys(cs);
      if k :| k in Keys(front) && id in Groups(front)[k].ids {
        assert id in Groups(cs)[k].ids;
      } else if id == last.id {
        assert id in Groups(cs)[KeyOf(last)].ids;
      }
    }
  }

  method CountFindings(fs: seq<FindingRow>, containerToKey: map<int, Key>) returns (found: map<Key, Stats>)
    ensures forall k :: StatsOf(fs, containerToKey, k) == if k in found then found[k] else NO_STATS
  {
    found := map[];
    for i := 0 to |fs|
      invariant forall k :: StatsOf(fs[..i], containerToKey, k) == if k in found then found[k] else NO_STATS
    {
      assert fs[..i + 1][..i] == fs[..i];
      var f := fs[i];
      if f.container !in containerToKey {
        continue;
      }
      var key := containerToKey[f.container];
      var stats := if key in found then found[key] else NO_STATS;
      assert stats == StatsOf(fs[..i], containerToKey, key);
      found := found[key := Stats(stats.total + 1,
                                  if Truthy(f.fixedVersion) then stats.fixable + 1 else stats.fixable,
                                  Bump(stats.severities, f.severity))];
    }
    assert fs[..|fs|] == fs;
  }

  method BuildResults(ghost keyOf: map<int, Key>, ghost fs: seq<FindingRow>, order: seq<Key>, groups: map<Key, Group>,
                      found: map<Key, Stats>, fixableOnly: bool)
    returns (results: seq<Image>)
    requires forall k :: k in order ==> k in groups
    requires forall k :: StatsOf(fs, keyOf, k) == if k in found then found[k] else NO_STATS
    ensures results == Listing(groups, keyOf, fs, order, fixableOnly)
  {
    results := [];
    for i := 0 to |order|
      invariant results == Listing(groups, keyOf, fs, order[..i], fixableOnly)
    {
      ListingOneMore(groups, keyOf, fs, order[..i], order[i], fixableOnly);
      assert order[..i + 1] == order[..i] + [order[i]];
      var stats := if order[i] in found then found[order[i]] else NO_STATS;
      var image := Summary(order[i], groups[order[i]], stats);
      assert image == ImageOf(groups, keyOf, fs, order[i]);
      if fixableOnly && stats.fixable == 0 {
        continue;
      }
      results := results + [image];
    }
    assert order[..|order|] == order;
  }

  /** The endpoint up to its sort, with or without the fixable filter. */
  method ListImages(cs: seq<ContainerRow>, fs: seq<FindingRow>, fixableOnly: bool) returns (results: seq<Image>)
    requires DistinctIds(cs)
    ensures results == Results(cs, fs, fixableOnly)
  {
    var order, groups := GroupContainers(cs);
    var containerToKey := InvertGroups(order, groups);
    FiledIsKeyMap(cs);
    var found := CountListed(fs, containerToKey);
    results := BuildResults(containerToKey, fs, order, groups, found, fixableOnly);
  }

  /** The query and the count: the IN condition is applied only when there is some container. */
  method CountListed(fs: seq<FindingRow>, containerToKey: map<int, Key>) returns (found: map<Key, Stats>)
    ensures forall k :: StatsOf(fs, containerToKey, k) == if k in found then found[k] else NO_STATS
  {
    var rows := fs;
    if containerToKey != map[] {
      rows := Restrict(fs, containerToKey.Keys);
      forall k ensures StatsOf(rows, containerToKey, k) == StatsOf(fs, containerToKey, k) {
        StatsSurviveRestriction(fs, containerToKey, k);
      }
    }
    found := CountFindings(rows, containerToKey);
  }

  lemma StatsSurviveRestriction(fs: seq<FindingRow>, keyOf: map<int, Key>, k: Key)
    ensures StatsOf(Restrict(fs, keyOf.Keys), keyOf, k) == StatsOf(fs, keyOf, k)
  {
    forall m ensures Count(Restrict(fs, keyOf.Keys), keyOf, k, m) == Count(fs, keyOf, k, m) {
      RestrictKeepsCounts(fs, keyOf, k, m);
    }
  }
}
