/** The image listing in terms of the container and finding columns: one image is one name and one tag. */
module ImageColumns {
  import opened Common
  import opened Images

  /** The container rows with this image name and tag, in table order. */
  function RowsWith(cs: seq<ContainerRow>, image: string, tag: Option<string>): seq<ContainerRow> {
    if cs == [] then []
    else
      var c := cs[|cs| - 1];
      RowsWith(cs[..|cs| - 1], image, tag) + (if c.image == image && c.tag == tag then [c] else [])
  }

  /** The finding belongs to a container row with this image name and tag. */
  predicate Belongs(cs: seq<ContainerRow>, f: FindingRow, image: string, tag: Option<string>) {
    exists c :: c in cs && c.id == f.container && c.image == image && c.tag == tag
  }

  predicate Any(f: FindingRow) {
    true
  }

  /** A fixed version is known: neither NULL nor empty. */
  predicate HasFix(f: FindingRow) {
    f.fixedVersion != None && f.fixedVersion != Some("")
  }

  function Rates(s: Severity): FindingRow -> bool {
    (f: FindingRow) => f.severity == s
  }

  /** How many findings of the containers with this name and tag satisfy `p`. */
  function CountWith(cs: seq<ContainerRow>, fs: seq<FindingRow>, image: string, tag: Option<string>,
                     p: FindingRow -> bool): nat {
    if fs == [] then 0
    else
      var f := fs[|fs| - 1];
      CountWith(cs, fs[..|fs| - 1], image, tag, p) + (if Belongs(cs, f, image, tag) && p(f) then 1 else 0)
  }

  /** The image describes the containers with its name and tag. */
  ghost predicate DescribesRows(x: Image, cs: seq<ContainerRow>) {
    var ms := RowsWith(cs, x.key.image, x.key.tag);
    && ms != [] && x.containerCount == |ms|
    && IsRoster(x.agents, ms) && IsLatest(x.lastScanned, ms) && IsDigest(x.digest, ms)
  }

  /** It counts their findings. */
  ghost predicate CountsFindings(x: Image, cs: seq<ContainerRow>, fs: seq<FindingRow>) {
    var (image, tag) := (x.key.image, x.key.tag);
    && x.total == CountWith(cs, fs, image, tag, Any)
    && x.fixable == CountWith(cs, fs, image, tag, HasFix)
    && x.severities.critical == CountWith(cs, fs, image, tag, Rates(Critical))
    && x.severities.high == CountWith(cs, fs, image, tag, Rates(High))
    && x.severities.medium == CountWith(cs, fs, image, tag, Rates(Medium))
    && x.severities.low == CountWith(cs, fs, image, tag, Rates(Low))
    && x.severities.unknown == CountWith(cs, fs, image, tag, Rates(Unknown))
  }

  lemma {:induction false} MembersAreRows(cs: seq<ContainerRow>, image: string, tag: Option<string>)
    ensures Members(cs, Key(image, tag)) == RowsWith(cs, image, tag)
  {
    if cs != [] {
      MembersAreRows(cs[..|cs| - 1], image, tag);
    }
  }

  lemma {:induction false} FiledByColumns(cs: seq<ContainerRow>, id: int, image: string, tag: Option<string>)
    requires DistinctIds(cs)
    ensures id in KeyMap(cs) && KeyMap(cs)[id] == Key(image, tag) <==>
            exists c :: c in cs && c.id == id && c.image == image && c.tag == tag
  {
    if cs != [] {
      var n := |cs| - 1;
      var front, last := cs[..n], cs[n];
      FiledByColumns(front, id, image, tag);
      assert cs == front + [last];
      forall c | c in front ensures c.id != last.id {
        var i :| 0 <= i < n && cs[i] == c;
      }
    }
  }

  /** The measure and the predicate agree. */
  ghost predicate SameMeasure(m: Measure, p: FindingRow -> bool) {
    forall f :: Measures(f, m) <==> p(f)
  }

  lemma {:induction false} CountByColumns(cs: seq<ContainerRow>, fs: seq<FindingRow>, image: string,
                                          tag: Option<string>, m: Measure, p: FindingRow -> bool)
    requires DistinctIds(cs) && SameMeasure(m, p)
    ensures Count(fs, KeyMap(cs), Key(image, tag), m) == CountWith(cs, fs, image, tag, p)
  {
    if fs != [] {
      CountByColumns(cs, fs[..|fs| - 1], image, tag, m, p);
      FiledByColumns(cs, fs[|fs| - 1].container, image, tag);
    }
  }

  ghost predicate SumsUp(x: Image, cs: seq<ContainerRow>, fs: seq<FindingRow>) {
    DescribesRows(x, cs) && CountsFindings(x, cs, fs)
  }

  lemma ImageDescribesRows(cs: seq<ContainerRow>, fs: seq<FindingRow>, k: Key)
    requires k in Keys(cs)
    ensures DescribesRows(ImageOf(Groups(cs), KeyMap(cs), fs, k), cs)
  {
    GroupSummarisesMembers(cs, k);
    SomeMember(cs, k);
    MembersAreRows(cs, k.image, k.tag);
  }

  lemma ImageCountsFindings(cs: seq<ContainerRow>, fs: seq<FindingRow>, k: Key)
    requires DistinctIds(cs) && k in Keys(cs)
    ensures CountsFindings(ImageOf(Groups(cs), KeyMap(cs), fs, k), cs, fs)
  {
    CountByColumns(cs, fs, k.image, k.tag, Every, Any);
    CountByColumns(cs, fs, k.image, k.tag, Fixable, HasFix);
    forall s ensures Count(fs, KeyMap(cs), k, OfSeverity(s)) == CountWith(cs, fs, k.image, k.tag, Rates(s)) {
      CountByColumns(cs, fs, k.image, k.tag, OfSeverity(s), Rates(s));
    }
  }

  /**
   * Every container has exactly one listed image with its name and tag, and every listed image sums up
   * exactly the containers with its name and tag, and exactly their findings.
   */
  lemma ListingByColumns(cs: seq<ContainerRow>, fs: seq<FindingRow>)
    requires DistinctIds(cs)
    ensures var images := Results(cs, fs, false);
      && (forall c :: c in cs ==>
            exists i :: 0 <= i < |images| && images[i].key.image == c.image && images[i].key.tag == c.tag)
      && (forall i, j :: 0 <= i < j < |images| ==>
            images[i].key.image != images[j].key.image || images[i].key.tag != images[j].key.tag)
      && (forall x :: x in images ==> SumsUp(x, cs, fs))
  {
    var images := Results(cs, fs, false);
    ContainersArePartitioned(cs, fs);
    forall x | x in images ensures SumsUp(x, cs, fs) {
      var k := ImageHasKey(cs, fs, x);
      ImageDescribesRows(cs, fs, k);
      ImageCountsFindings(cs, fs, k);
    }
    forall c | c in cs
      ensures exists i :: 0 <= i < |images| && images[i].key.image == c.image && images[i].key.tag == c.tag
    {
      var i :| 0 <= i < |images| && images[i].key == KeyOf(c);
      assert images[i].key.image == c.image && images[i].key.tag == c.tag;
    }
  }

  /** Two containers are filed under one image exactly when name and tag agree. */
  lemma SharesImageIff(cs: seq<ContainerRow>, c: ContainerRow, d: ContainerRow)
    requires DistinctIds(cs) && c in cs && d in cs
    ensures c.id in KeyMap(cs) && d.id in KeyMap(cs)
    ensures KeyMap(cs)[c.id] == KeyMap(cs)[d.id] <==> c.image == d.image && c.tag == d.tag
  {
    FiledByColumns(cs, c.id, c.image, c.tag);
    FiledByColumns(cs, d.id, d.image, d.tag);
  }

  // ── The filter ─────────────────────────────────────────────────────────────

  /** The images with something to fix, in their order. */
  function WithFixes(images: seq<Image>): seq<Image> {
    if images == [] then []
    else
      var x := images[|images| - 1];
      WithFixes(images[..|images| - 1]) + (if x.fixable > 0 then [x] else [])
  }

  /** The filter removes exactly the images that have nothing to fix. */
  lemma FilterKeepsFixable(cs: seq<ContainerRow>, fs: seq<FindingRow>)
    ensures Results(cs, fs, true) == WithFixes(Results(cs, fs, false))
  {
    ListingKeepsFixable(Groups(cs), KeyMap(cs), fs, Keys(cs));
  }

  lemma {:induction false} ListingKeepsFixable(groups: map<Key, Group>, keyOf: map<int, Key>, fs: seq<FindingRow>,
                                               keys: seq<Key>)
    requires forall k :: k in keys ==> k in groups
    ensures Listing(groups, keyOf, fs, keys, true) == WithFixes(Listing(groups, keyOf, fs, keys, false))
    decreases |keys|
  {
    if keys != [] {
      var front, image := keys[..|keys| - 1], ImageOf(groups, keyOf, fs, keys[|keys| - 1]);
      ListingKeepsFixable(groups, keyOf, fs, front);
      var all := Listing(groups, keyOf, fs, front, false);
      assert (all + [image])[..|all|] == all;
    }
  }
}
