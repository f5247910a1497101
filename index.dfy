/** The package-repository index of metascoop/apps/index.go: its data shapes,
    the latest-version query and the version-code redaction. */
module Index {
  import opened Versions
  import opened Sorting

  /** One package build, field for field as in the Go struct. Go's int and
      int64 are modelled as unbounded integers: the index only copies them. */
  datatype PackageInfo = PackageInfo(
    added: int,
    apkName: string,
    hash: string,
    hashType: string,
    minSdkVersion: int,
    nativecode: seq<string>,
    packageName: string,
    sig: string,
    signer: string,
    size: int,
    targetSdkVersion: int,
    versionCode: int,
    versionName: string)

  /** Go's zero value of PackageInfo, which the query returns for an absent name. */
  const ZeroPackageInfo := PackageInfo(0, "", "", "", 0, [], "", "", "", 0, 0, 0, "")

  /** The app-entry key that RemoveVersionCode deletes. */
  const SuggestedVersionCodeKey := "suggestedVersionCode"

  /** The parsed version of a record; None when its name does not parse. */
  function VersionOf(p: PackageInfo): Option<Version> {
    Parse(p.versionName)
  }

  // ---------------------------------------------------------------------
  // The comparator handed to sort.Slice

  /** The comparator of index.go:41-53 with the second operand parsed from the
      second record. The source parses pkgs[i] twice (line 47); this model
      follows the comment at line 55 instead and compares pkgs[i] with pkgs[j].
      A record whose name does not parse is less than every record, and a
      parsable one is less than no unparsable one. Whatever it answers is
      consistent with the ranking. */
  function Less(a: PackageInfo, b: PackageInfo): (r: bool)
    ensures VersionOf(a).None? ==> r
    ensures VersionOf(a).Some? && VersionOf(b).None? ==> !r
    ensures r ==> RanksNoHigher(a, b)
    ensures !r ==> RanksNoHigher(b, a)
  {
    match VersionOf(a)
    case None => true
    case Some(v1) =>
      match VersionOf(b)
      case None => false
      case Some(v2) =>
        LessThanStrictOrder(v1, v2, v1);
        LessThan(v1, v2)
  }

  /** The comparator exactly as index.go:41-53 writes it: both operands are
      parsed from the first record, so the second record is never looked at
      and the answer is only whether the first record fails to parse. */
  function LessAsWritten(a: PackageInfo, b: PackageInfo): (r: bool)
    ensures r <==> VersionOf(a).None?
  {
    match VersionOf(a)
    case None => true
    case Some(v1) =>
      match VersionOf(a)
      case None => false
      case Some(v2) =>
        LessThanStrictOrder(v1, v2, v1);
        LessThan(v1, v2)
  }

  /** The ranking the query is meant to sort by: unparsable names lowest, all
      alike; parsable names by version. a ranks no higher than b. */
  predicate RanksNoHigher(a: PackageInfo, b: PackageInfo) {
    match VersionOf(a)
    case None => true
    case Some(v) =>
      match VersionOf(b)
      case None => false
      case Some(w) => !LessThan(w, v)
  }

  /** RanksNoHigher is a total preorder. */
  lemma RanksNoHigherPreorder(a: PackageInfo, b: PackageInfo, c: PackageInfo)
    ensures RanksNoHigher(a, a)
    ensures RanksNoHigher(a, b) || RanksNoHigher(b, a)
    ensures RanksNoHigher(a, b) && RanksNoHigher(b, c) ==> RanksNoHigher(a, c)
  {
    if VersionOf(a).Some? {
      var u := VersionOf(a).value;
      LessThanStrictOrder(u, u, u);
      if VersionOf(b).Some? {
        var v := VersionOf(b).value;
        LessThanStrictOrder(u, v, u);
        if VersionOf(c).Some? && RanksNoHigher(a, b) && RanksNoHigher(b, c) {
          var w := VersionOf(c).value;
          CompareAntisymmetric(u.segments, v.segments);
          CompareAntisymmetric(v.segments, w.segments);
          CompareAntisymmetric(u.segments, w.segments);
          CompareTransitive(u.segments, v.segments, w.segments);
        }
      }
    }
  }

  /** The corrected comparator agrees with the ranking, and the ranking is
      transitive: what InsertionSort needs to leave the list in rank order. */
  lemma LessAgrees()
    ensures Agrees(Less, RanksNoHigher)
    ensures Transitive(RanksNoHigher)
  {
    forall x, y, z | RanksNoHigher(x, y) && RanksNoHigher(y, z) ensures RanksNoHigher(x, z) {
      RanksNoHigherPreorder(x, y, z);
    }
  }

  /** A record whose name does not parse is less than, and ranks no higher
      than, any record, and strictly below any record whose name parses. */
  lemma UnparsableRanksLowest(a: PackageInfo, b: PackageInfo)
    requires VersionOf(a).None?
    ensures Less(a, b) && RanksNoHigher(a, b)
    ensures VersionOf(b).Some? ==> !Less(b, a) && !RanksNoHigher(b, a)
  {
  }

  /** The last element of a list in rank order is a latest one: every record of
      the list ranks no higher, and its name parses when any name does. */
  lemma LastOfSortedIsLatest(s: seq<PackageInfo>)
    requires |s| > 0 && SortedBy(s, RanksNoHigher)
    ensures forall q :: q in s ==> RanksNoHigher(q, s[|s| - 1])
    ensures (exists q :: q in s && VersionOf(q).Some?) ==> VersionOf(s[|s| - 1]).Some?
  {
    var last := s[|s| - 1];
    RanksNoHigherPreorder(last, last, last);
    forall q | q in s ensures RanksNoHigher(q, last) {
      var i :| 0 <= i < |s| && s[i] == q;
      if i < |s| - 1 {
        assert RanksNoHigher(s[i], s[|s| - 1]);
      }
    }
  }

  /** The sort.Slice call of index.go:41-53 on a copy of the stored list, with
      the corrected comparator: the result is a permutation in rank order. */
  method SortByVersion(pkgs: seq<PackageInfo>) returns (sorted: seq<PackageInfo>)
    ensures multiset(sorted) == multiset(pkgs)
    ensures SortedBy(sorted, RanksNoHigher)
  {
    var a := new PackageInfo[|pkgs|](k requires 0 <= k < |pkgs| => pkgs[k]);
    assert a[..] == pkgs;
    InsertionSort(a, Less, RanksNoHigher);
    LessAgrees();
    sorted := a[..];
  }

  /** The last element of a rank-ordered permutation of a list is in the list
      and is a latest record of it. */
  lemma LatestOfPermutation(pkgs: seq<PackageInfo>, sorted: seq<PackageInfo>)
    requires |pkgs| > 0
    requires multiset(sorted) == multiset(pkgs) && SortedBy(sorted, RanksNoHigher)
    ensures |sorted| == |pkgs|
    ensures sorted[|sorted| - 1] in pkgs
    ensures forall q :: q in pkgs ==> RanksNoHigher(q, sorted[|sorted| - 1])
    ensures (exists q :: q in pkgs && VersionOf(q).Some?) ==> VersionOf(sorted[|sorted| - 1]).Some?
  {
    assert |sorted| == |multiset(sorted)| == |multiset(pkgs)| == |pkgs|;
    assert sorted[|sorted| - 1] in multiset(sorted);
    forall q | q in pkgs ensures q in sorted {
      assert q in multiset(pkgs);
    }
    LastOfSortedIsLatest(sorted);
  }

  // ---------------------------------------------------------------------
  // Redaction

  /** Every app entry without its "suggestedVersionCode" key. */
  function RedactApps<V>(apps: seq<map<string, V>>): (r: seq<map<string, V>>)
    ensures |r| == |apps|
    ensures forall i :: 0 <= i < |r| ==> SuggestedVersionCodeKey !in r[i]
    ensures forall i, k :: 0 <= i < |r| && k != SuggestedVersionCodeKey ==>
      (k in r[i] <==> k in apps[i]) && (k in r[i] ==> r[i][k] == apps[i][k])
  {
    seq(|apps|, i requires 0 <= i < |apps| => apps[i] - {SuggestedVersionCodeKey})
  }

  /** Every record of a list with its version code reset to zero. */
  function RedactList(s: seq<PackageInfo>): (r: seq<PackageInfo>)
    ensures |r| == |s|
    ensures forall i :: 0 <= i < |r| ==> r[i].versionCode == 0 && r[i].(versionCode := s[i].versionCode) == s[i]
  {
    seq(|s|, i requires 0 <= i < |s| => s[i].(versionCode := 0))
  }

  /** Every list of the package map redacted; the package names stay. */
  function RedactPackages(packages: map<string, seq<PackageInfo>>): (r: map<string, seq<PackageInfo>>)
    ensures r.Keys == packages.Keys
    ensures forall k :: k in r ==> |r[k]| == |packages[k]|
    ensures forall k, i :: k in r && 0 <= i < |r[k]| ==>
      r[k][i].versionCode == 0 && r[k][i].(versionCode := packages[k][i].versionCode) == packages[k][i]
  {
    map k | k in packages :: RedactList(packages[k])
  }

  lemma RedactAppsIdempotent<V>(apps: seq<map<string, V>>)
    ensures RedactApps(RedactApps(apps)) == RedactApps(apps)
  {
    var once := RedactApps(apps);
    var twice := RedactApps(once);
    forall i | 0 <= i < |once| ensures twice[i] == once[i] {
      assert twice[i].Keys == once[i].Keys;
    }
  }

  lemma RedactPackagesIdempotent(packages: map<string, seq<PackageInfo>>)
    ensures RedactPackages(RedactPackages(packages)) == RedactPackages(packages)
  {
    var once := RedactPackages(packages);
    var twice := RedactPackages(once);
    forall k | k in once ensures twice[k] == once[k] {
      assert |twice[k]| == |once[k]|;
      forall i | 0 <= i < |once[k]| ensures twice[k][i] == once[k][i] {
      }
    }
  }

  // ---------------------------------------------------------------------
  // The index

  /** RepoIndex of index.go:11-17. The opaque metadata (repo, requests and the
      app entries) is kept as string-keyed maps of an uninterpreted value type. */
  class RepoIndex<V> {
    var repo: map<string, V>
    var requests: map<string, V>
    var apps: seq<map<string, V>>
    var packages: map<string, seq<PackageInfo>>

    /** An index as decoding a document leaves it. */
    constructor (repo: map<string, V>, requests: map<string, V>, apps: seq<map<string, V>>,
                 packages: map<string, seq<PackageInfo>>)
      ensures this.repo == repo && this.requests == requests
      ensures this.apps == apps && this.packages == packages
    {
      this.repo := repo;
      this.requests := requests;
      this.apps := apps;
      this.packages := packages;
    }

    /** Looks pkgName up, sorts its list in place by version and returns the
        last record. The requires is the source's: an empty list makes it index
        pkgs[-1], which faults. */
    method FindLatestPackage(pkgName: string) returns (p: PackageInfo, ok: bool)
      requires pkgName in packages ==> |packages[pkgName]| > 0
      modifies this`packages
      ensures repo == old(repo) && requests == old(requests) && apps == old(apps)
      ensures ok <==> pkgName in old(packages)
      ensures !ok ==> p == ZeroPackageInfo && packages == old(packages)
      ensures ok ==> pkgName in packages && packages == old(packages)[pkgName := packages[pkgName]]
      ensures ok ==> multiset(packages[pkgName]) == multiset(old(packages)[pkgName])
      ensures ok ==> SortedBy(packages[pkgName], RanksNoHigher)
      ensures ok ==> p == packages[pkgName][|packages[pkgName]| - 1]
      ensures ok ==> p in old(packages)[pkgName]
      ensures ok ==> forall q :: q in old(packages)[pkgName] ==> RanksNoHigher(q, p)
      ensures ok && (exists q :: q in old(packages)[pkgName] && VersionOf(q).Some?) ==> VersionOf(p).Some?
    {
      if pkgName !in packages {
        return ZeroPackageInfo, false;
      }
      var pkgs := packages[pkgName];
      var sorted := SortByVersion(pkgs);
      packages := packages[pkgName := sorted];
      p, ok := sorted[|sorted| - 1], true;
      LatestOfPermutation(pkgs, sorted);
    }

    /** Deletes "suggestedVersionCode" from every app entry and resets the
        version code of every record of every list. */
    method RemoveVersionCode()
      modifies this`apps, this`packages
      ensures repo == old(repo) && requests == old(requests)
      ensures apps == RedactApps(old(apps))
      ensures packages == RedactPackages(old(packages))
    {
      DeleteSuggestedVersionCodes();
      ResetVersionCodes();
    }

    /** The first loop of RemoveVersionCode: one delete per app entry. */
    method DeleteSuggestedVersionCodes()
      modifies this`apps
      ensures apps == RedactApps(old(apps))
    {
      var i := 0;
      while i < |apps|
        invariant 0 <= i <= |apps| == |old(apps)|
        invariant forall k :: 0 <= k < i ==> apps[k] == old(apps)[k] - {SuggestedVersionCodeKey}
        invariant forall k :: i <= k < |apps| ==> apps[k] == old(apps)[k]
      {
        apps := apps[i := apps[i] - {SuggestedVersionCodeKey}];
        i := i + 1;
      }
      assert apps == RedactApps(old(apps));
    }

    /** The nested loops of RemoveVersionCode. Go ranges over the map in no
        fixed order; here the next name is any one not yet done. */
    method ResetVersionCodes()
      modifies this`packages
      ensures packages == RedactPackages(old(packages))
    {
      var pending := packages.Keys;
      while pending != {}
        invariant pending <= packages.Keys == old(packages).Keys
        invariant forall k :: k in packages && k !in pending ==> packages[k] == RedactList(old(packages)[k])
        invariant forall k :: k in pending ==> packages[k] == old(packages)[k]
        decreases pending
      {
        var pkg :| pkg in pending;
        ResetVersionCodesOf(pkg);
        pending := pending - {pkg};
      }
      assert packages == RedactPackages(old(packages));
    }

    /** The inner loop of RemoveVersionCode, over the list of one name. */
    method ResetVersionCodesOf(pkg: string)
      requires pkg in packages
      modifies this`packages
      ensures packages == old(packages)[pkg := RedactList(old(packages)[pkg])]
    {
      var j := 0;
      while j < |packages[pkg]|
        invariant pkg in packages && packages.Keys == old(packages).Keys
        invariant |packages[pkg]| == |old(packages)[pkg]|
        invariant 0 <= j <= |packages[pkg]|
        invariant forall x :: 0 <= x < j ==> packages[pkg][x] == old(packages)[pkg][x].(versionCode := 0)
        invariant forall x :: j <= x < |packages[pkg]| ==> packages[pkg][x] == old(packages)[pkg][x]
        invariant forall k :: k in packages && k != pkg ==> packages[k] == old(packages)[k]
      {
        packages := packages[pkg := packages[pkg][j := packages[pkg][j].(versionCode := 0)]];
        j := j + 1;
      }
      assert packages[pkg] == RedactList(old(packages)[pkg]);
      assert packages == old(packages)[pkg := RedactList(old(packages)[pkg])];
    }
  }
}
