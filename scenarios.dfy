/** Concrete scenarios: the latest-version query on a small list, and the
    same list sorted with the comparator as index.go:47 writes it. */
module Scenarios {
  import opened Versions
  import opened Sorting
  import opened Index

  /** A record that differs from the zero record only in its version name. */
  function Build(versionName: string): PackageInfo {
    ZeroPackageInfo.(versionName := versionName)
  }

  /** Three builds of one package, the latest in the middle. */
  function ThreeBuilds(): seq<PackageInfo> {
    [Build("1.0.0"), Build("2.3.1"), Build("2.3.0")]
  }

  lemma ExampleVersions()
    ensures VersionOf(Build("1.0.0")) == Some(Version([1, 0, 0]))
    ensures VersionOf(Build("2.3.1")) == Some(Version([2, 3, 1]))
    ensures VersionOf(Build("2.3.0")) == Some(Version([2, 3, 0]))
    ensures VersionOf(Build("not-a-version")) == None
  {
    assert FormatSegments([1, 0, 0]) == "1.0.0";
    assert FormatSegments([2, 3, 1]) == "2.3.1";
    assert FormatSegments([2, 3, 0]) == "2.3.0";
    ParseFormat(Version([1, 0, 0]));
    ParseFormat(Version([2, 3, 1]));
    ParseFormat(Version([2, 3, 0]));
  }

  /** Records with versions 1.0.0, 2.3.0 and 2.3.1 rank strictly in that order. */
  lemma RanksOfVersions(x: PackageInfo, y: PackageInfo, z: PackageInfo)
    requires VersionOf(x) == Some(Version([1, 0, 0]))
    requires VersionOf(y) == Some(Version([2, 3, 0]))
    requires VersionOf(z) == Some(Version([2, 3, 1]))
    ensures RanksNoHigher(x, y) && !RanksNoHigher(y, x)
    ensures RanksNoHigher(y, z) && !RanksNoHigher(z, y)
    ensures RanksNoHigher(x, z) && !RanksNoHigher(z, x)
  {
  }

  /** The three builds rank strictly "1.0.0" < "2.3.0" < "2.3.1". */
  lemma ThreeBuildsRanks()
    ensures var s := ThreeBuilds();
      && VersionOf(s[0]).Some? && VersionOf(s[1]).Some? && VersionOf(s[2]).Some?
      && RanksNoHigher(s[0], s[2]) && !RanksNoHigher(s[2], s[0])
      && RanksNoHigher(s[2], s[1]) && !RanksNoHigher(s[1], s[2])
      && RanksNoHigher(s[0], s[1]) && !RanksNoHigher(s[1], s[0])
  {
    ExampleVersions();
    var s := ThreeBuilds();
    RanksOfVersions(s[0], s[2], s[1]);
  }

  /** A list of three records ranked strictly x < y < z has one rank-ordered
      permutation: [x, y, z]. */
  lemma {:induction false} OnlyOrderOfThree(t: seq<PackageInfo>, x: PackageInfo, y: PackageInfo, z: PackageInfo)
    requires !RanksNoHigher(y, x) && !RanksNoHigher(z, y) && !RanksNoHigher(z, x)
    requires multiset(t) == multiset{x, y, z} && SortedBy(t, RanksNoHigher)
    ensures t == [x, y, z]
  {
    RanksNoHigherPreorder(x, x, x);
    RanksNoHigherPreorder(y, y, y);
    assert |t| == 3 by {
      assert |multiset(t)| == 3;
    }
    assert t[0] in multiset(t) && t[1] in multiset(t) && t[2] in multiset(t);
    assert x in multiset(t) && y in multiset(t) && z in multiset(t);
    assert x != y && y != z && x != z;
    assert t[0] == x;
    assert t[1] == y;
    assert t[2] == z;
  }

  /** The three builds have one rank-ordered permutation. */
  lemma SortedThreeBuilds(t: seq<PackageInfo>)
    requires multiset(t) == multiset(ThreeBuilds()) && SortedBy(t, RanksNoHigher)
    ensures t == [Build("1.0.0"), Build("2.3.0"), Build("2.3.1")]
  {
    ThreeBuildsRanks();
    var s := ThreeBuilds();
    assert multiset(s) == multiset{s[0], s[2], s[1]};
    OnlyOrderOfThree(t, s[0], s[2], s[1]);
  }

  /** The corrected query picks the "2.3.1" build and leaves the list in version order. */
  method LatestOfThreeBuilds() returns (p: PackageInfo, ok: bool, stored: seq<PackageInfo>)
    ensures ok && p == Build("2.3.1")
    ensures stored == [Build("1.0.0"), Build("2.3.0"), Build("2.3.1")]
  {
    var name := "app";
    var index := new RepoIndex<int>(map[], map[], [], map[name := ThreeBuilds()]);
    p, ok := index.FindLatestPackage(name);
    stored := index.packages[name];
    SortedThreeBuilds(stored);
  }

  /** As written, the comparator is false on every pair of parsable records,
      so the three builds are sorted without a single swap and the record
      returned is "2.3.0", which ranks strictly below "2.3.1". */
  method AsWrittenReturnsStale() returns (p: PackageInfo)
    ensures p == Build("2.3.0")
    ensures RanksNoHigher(p, Build("2.3.1")) && !RanksNoHigher(Build("2.3.1"), p)
  {
    var s := ThreeBuilds();
    var a := new PackageInfo[3](k requires 0 <= k < 3 => s[k]);
    assert a[..] == s;
    ThreeBuildsNoInversions(s);
    InsertionSort(a, LessAsWritten, RanksNoHigher);
    p := a[2];
    ThreeBuildsRanks();
  }

  /** As written, no build is less than the one before it: all three parse. */
  lemma ThreeBuildsNoInversions(s: seq<PackageInfo>)
    requires s == ThreeBuilds()
    ensures NoInversions(s, LessAsWritten)
  {
    ThreeBuildsRanks();
  }

  /** As written, the comparator does not agree with the version ranking
      (a strict weak order compatible with it would have to). */
  lemma AsWrittenDisagrees()
    ensures !Agrees(LessAsWritten, RanksNoHigher)
  {
    ExampleVersions();
    var x, y := Build("1.0.0"), Build("2.3.1");
    assert !LessAsWritten(x, y) && !RanksNoHigher(y, x);
  }

  /** A record whose name does not parse is less than itself under both
      comparators: neither is irreflexive, which sort.Slice asks of its less. */
  lemma UnparsableLessThanItself()
    ensures Less(Build("not-a-version"), Build("not-a-version"))
    ensures LessAsWritten(Build("not-a-version"), Build("not-a-version"))
  {
  }
}
