/** The version directories of src/version.ts: which directory names count as versions, how
    they are ordered, and which one is the latest. */
module Versions {
  import opened Wrappers
  import opened JsString

  /** One entry of a directory listing. */
  datatype DirEntry = DirEntry(name: string, isDirectory: bool)

  datatype VersionError = NoNumericVersionDirs

  /** `/^\d+(\.\d+)*$/`: non-empty digit runs separated by single dots. */
  predicate IsNumericVersionName(name: string) {
    var parts := Split(name, '.');
    forall k :: 0 <= k < |parts| ==> parts[k] != "" && AllDigits(parts[k])
  }

  /** The regular expression read as a grammar: a name matches exactly when it is one or more
      non-empty digit runs joined by dots, and those runs are its parts. */
  lemma NumericNameIsJoinOfDigitRuns(name: string, parts: seq<string>)
    requires |parts| >= 1 && forall k :: 0 <= k < |parts| ==> parts[k] != "" && AllDigits(parts[k])
    requires JoinWith(parts, '.') == name
    ensures IsNumericVersionName(name) && Split(name, '.') == parts
  {
    forall k | 0 <= k < |parts| ensures '.' !in parts[k] {
      DigitsHaveNoSeparators(parts[k]);
    }
    SplitUnique(parts, '.');
  }

  lemma NumericNameParts(name: string)
    requires IsNumericVersionName(name)
    ensures name == JoinWith(Split(name, '.'), '.')
  {
  }

  /** `getAllRecentVersions`, src/version.ts:27-33, over a given listing: the names of the
      directories whose name is numeric, in listing order. */
  function GetAllRecentVersions(entries: seq<DirEntry>): (names: seq<string>)
    ensures |names| <= |entries|
    ensures names == [] <==> forall e :: e in entries ==> !(e.isDirectory && IsNumericVersionName(e.name))
    ensures forall k :: 0 <= k < |names| ==> IsNumericVersionName(names[k])
    ensures forall x :: x in names <==>
      exists e :: e in entries && e.isDirectory && IsNumericVersionName(e.name) && e.name == x
  {
    if |entries| == 0 then []
    else
      var rest := GetAllRecentVersions(entries[1..]);
      assert forall e :: e in entries[1..] ==> e in entries;
      assert forall e :: e in entries ==> e == entries[0] || e in entries[1..];
      if entries[0].isDirectory && IsNumericVersionName(entries[0].name) then [entries[0].name] + rest
      else rest
  }

  /** The filter keeps listing order: the versions of two listings in a row are the versions
      of the first, then those of the second. */
  lemma {:induction false} RecentVersionsAppend(a: seq<DirEntry>, b: seq<DirEntry>)
    ensures GetAllRecentVersions(a + b) == GetAllRecentVersions(a) + GetAllRecentVersions(b)
  {
    if |a| == 0 {
      assert a + b == b;
    } else {
      assert (a + b)[1..] == a[1..] + b;
      RecentVersionsAppend(a[1..], b);
    }
  }

  /** `name.split(".").map(Number)` on a numeric name. */
  function VersionParts(name: string): (p: seq<nat>)
    requires IsNumericVersionName(name)
    ensures |p| == |Split(name, '.')|
    ensures forall k :: 0 <= k < |p| ==> p[k] == DigitsValue(Split(name, '.')[k])
  {
    var parts := Split(name, '.');
    seq(|parts|, k requires 0 <= k < |parts| => DigitsValue(parts[k]))
  }

  /** `p[i] ?? 0`: a missing component counts as 0. */
  function Get(p: seq<nat>, i: nat): nat {
    if i < |p| then p[i] else 0
  }

  function Max(a: nat, b: nat): nat { if a < b then b else a }

  /** The comparator's loop from component `i` on: the difference of the first components
      that differ, or 0. */
  function VersionDiff(pa: seq<nat>, pb: seq<nat>, i: nat): int
    decreases Max(|pa|, |pb|) - i
  {
    if i >= Max(|pa|, |pb|) then 0
    else if Get(pa, i) - Get(pb, i) != 0 then Get(pa, i) - Get(pb, i)
    else VersionDiff(pa, pb, i + 1)
  }

  /** The comparator finds no difference exactly when every component from `i` on agrees,
      a missing one counting as 0. */
  lemma {:induction false} VersionDiffZeroIff(pa: seq<nat>, pb: seq<nat>, i: nat)
    ensures VersionDiff(pa, pb, i) == 0 <==> forall j :: i <= j < Max(|pa|, |pb|) ==> Get(pa, j) == Get(pb, j)
    decreases Max(|pa|, |pb|) - i
  {
    if i < Max(|pa|, |pb|) {
      VersionDiffZeroIff(pa, pb, i + 1);
    }
  }

  /** The comparator passed to `numeric.sort`, src/version.ts:14-22. */
  method CompareVersionNames(a: string, b: string) returns (diff: int)
    requires IsNumericVersionName(a) && IsNumericVersionName(b)
    ensures diff == VersionDiff(VersionParts(a), VersionParts(b), 0)
  {
    var pa := VersionParts(a);
    var pb := VersionParts(b);
    var i := 0;
    while i < Max(|pa|, |pb|)
      invariant i <= Max(|pa|, |pb|)
      invariant VersionDiff(pa, pb, 0) == VersionDiff(pa, pb, i)
    {
      var d := Get(pa, i) - Get(pb, i);
      if d != 0 {
        return d;
      }
      i := i + 1;
    }
    return 0;
  }

  /** The loop run to any bound `n` past both lengths gives the same answer. */
  function DiffUpTo(pa: seq<nat>, pb: seq<nat>, i: nat, n: nat): int
    decreases n - i
  {
    if i >= n then 0
    else if Get(pa, i) - Get(pb, i) != 0 then Get(pa, i) - Get(pb, i)
    else DiffUpTo(pa, pb, i + 1, n)
  }

  lemma {:induction false} DiffUpToBeyond(pa: seq<nat>, pb: seq<nat>, i: nat, n: nat)
    requires Max(|pa|, |pb|) <= i
    ensures DiffUpTo(pa, pb, i, n) == 0
    decreases n - i
  {
    if i < n { DiffUpToBeyond(pa, pb, i + 1, n); }
  }

  lemma {:induction false} VersionDiffAnyBound(pa: seq<nat>, pb: seq<nat>, i: nat, n: nat)
    requires Max(|pa|, |pb|) <= n
    ensures VersionDiff(pa, pb, i) == DiffUpTo(pa, pb, i, n)
    decreases n - i
  {
    if i >= Max(|pa|, |pb|) {
      DiffUpToBeyond(pa, pb, i, n);
    } else if Get(pa, i) - Get(pb, i) == 0 {
      VersionDiffAnyBound(pa, pb, i + 1, n);
    }
  }

  /** Swapping the names negates the comparator. */
  lemma {:induction false} VersionDiffAntisymmetric(pa: seq<nat>, pb: seq<nat>, i: nat)
    ensures VersionDiff(pa, pb, i) == -VersionDiff(pb, pa, i)
    decreases Max(|pa|, |pb|) - i
  {
    if i < Max(|pa|, |pb|) { VersionDiffAntisymmetric(pa, pb, i + 1); }
  }

  /** Missing components count as 0: a trailing `.0` changes nothing, so `1.4` and `1.4.0`
      compare equal. */
  lemma TrailingZeroIgnored(pa: seq<nat>, pb: seq<nat>)
    ensures VersionDiff(pa + [0], pb, 0) == VersionDiff(pa, pb, 0)
  {
    var n := Max(|pa| + 1, |pb|);
    VersionDiffAnyBound(pa + [0], pb, 0, n);
    VersionDiffAnyBound(pa, pb, 0, n);
    SameComponents(pa + [0], pa, pb, 0, n);
  }

  lemma {:induction false} SameComponents(pa: seq<nat>, qa: seq<nat>, pb: seq<nat>, i: nat, n: nat)
    requires forall k: nat :: Get(pa, k) == Get(qa, k)
    ensures DiffUpTo(pa, pb, i, n) == DiffUpTo(qa, pb, i, n)
    decreases n - i
  {
    if i < n { SameComponents(pa, qa, pb, i + 1, n); }
  }

  lemma OneFourEqualsOneFourZero(a: string, b: string)
    requires a == "1.4" && b == "1.4.0"
    ensures IsNumericVersionName(a) && IsNumericVersionName(b)
    ensures VersionDiff(VersionParts(a), VersionParts(b), 0) == 0
  {
    NumericNameIsJoinOfDigitRuns(a, ["1", "4"]);
    NumericNameIsJoinOfDigitRuns(b, ["1", "4", "0"]);
    assert VersionParts(a) == [1, 4];
    assert VersionParts(b) == [1, 4] + [0];
    TrailingZeroIgnored([1, 4], [1, 4]);
    VersionDiffAntisymmetric([1, 4] + [0], [1, 4], 0);
  }

  lemma {:induction false} DiffUpToTransitive(a: seq<nat>, b: seq<nat>, c: seq<nat>, i: nat, n: nat)
    requires DiffUpTo(a, b, i, n) <= 0 && DiffUpTo(b, c, i, n) <= 0
    ensures DiffUpTo(a, c, i, n) <= 0
    decreases n - i
  {
    if i < n && Get(a, i) == Get(b, i) && Get(b, i) == Get(c, i) {
      DiffUpToTransitive(a, b, c, i + 1, n);
    }
  }

  /** The comparator is a total preorder: being at most another name is transitive. */
  lemma VersionDiffTransitive(a: seq<nat>, b: seq<nat>, c: seq<nat>)
    requires VersionDiff(a, b, 0) <= 0 && VersionDiff(b, c, 0) <= 0
    ensures VersionDiff(a, c, 0) <= 0
  {
    var n := Max(Max(|a|, |b|), |c|);
    VersionDiffAnyBound(a, b, 0, n);
    VersionDiffAnyBound(b, c, 0, n);
    VersionDiffAnyBound(a, c, 0, n);
    DiffUpToTransitive(a, b, c, 0, n);
  }

  /** The comparator on names. */
  function CompareNames(a: string, b: string): int
    requires IsNumericVersionName(a) && IsNumericVersionName(b)
  {
    VersionDiff(VersionParts(a), VersionParts(b), 0)
  }

  /** Swapping the operands negates the comparator (so a name compares equal to itself). */
  lemma CompareNamesFlip(a: string, b: string)
    requires IsNumericVersionName(a) && IsNumericVersionName(b)
    ensures CompareNames(a, b) == -CompareNames(b, a)
  {
    VersionDiffAntisymmetric(VersionParts(a), VersionParts(b), 0);
  }

  lemma CompareNamesTransitive(a: string, b: string, c: string)
    requires IsNumericVersionName(a) && IsNumericVersionName(b) && IsNumericVersionName(c)
    requires CompareNames(a, b) <= 0 && CompareNames(b, c) <= 0
    ensures CompareNames(a, c) <= 0
  {
    VersionDiffTransitive(VersionParts(a), VersionParts(b), VersionParts(c));
  }

  /** The names before the last one are numeric too. */
  lemma InitNumeric(names: seq<string>)
    requires |names| > 0 && AllNumeric(names)
    ensures AllNumeric(names[..|names| - 1])
  {
    var init := names[..|names| - 1];
    forall k | 0 <= k < |init| ensures IsNumericVersionName(init[k]) {
      assert init[k] == names[k];
    }
  }

  predicate AllNumeric(names: seq<string>) {
    forall k :: 0 <= k < |names| ==> IsNumericVersionName(names[k])
  }

  /** The position of `numeric[numeric.length - 1]` after a stable sort: the last of the
      greatest names. */
  function LatestIndex(names: seq<string>): (i: nat)
    requires |names| > 0 && AllNumeric(names)
    ensures i < |names|
  {
    if |names| == 1 then 0
    else
      var best := LatestIndex(names[..|names| - 1]);
      if CompareNames(names[best], names[|names| - 1]) <= 0 then |names| - 1 else best
  }

  /** No name is above the latest one. */
  lemma {:induction false} LatestIsGreatest(names: seq<string>)
    requires |names| > 0 && AllNumeric(names)
    ensures forall k :: 0 <= k < |names| ==> CompareNames(names[k], names[LatestIndex(names)]) <= 0
  {
    var i := LatestIndex(names);
    var last := names[|names| - 1];
    CompareNamesFlip(last, last);
    if |names| > 1 {
      var init := names[..|names| - 1];
      InitNumeric(names);
      var b := LatestIndex(init);
      LatestIsGreatest(init);
      assert init[b] == names[b];
      CompareNamesFlip(names[b], last);
      forall k | 0 <= k < |names| - 1 ensures CompareNames(names[k], names[i]) <= 0 {
        assert names[k] == init[k];
        if i == |names| - 1 {
          CompareNamesTransitive(names[k], names[b], last);
        }
      }
    }
  }

  /** Every name after the latest one is strictly below it: among equal greatest names, the
      last one in listing order wins. */
  lemma {:induction false} LatestIsLastGreatest(names: seq<string>)
    requires |names| > 0 && AllNumeric(names)
    ensures forall k :: LatestIndex(names) < k < |names| ==> CompareNames(names[k], names[LatestIndex(names)]) < 0
  {
    if |names| > 1 {
      var init := names[..|names| - 1];
      InitNumeric(names);
      var b := LatestIndex(init);
      if LatestIndex(names) == b {
        LatestIsLastGreatest(init);
        assert init[b] == names[b];
        CompareNamesFlip(names[b], names[|names| - 1]);
        forall k | b < k < |names| - 1 ensures CompareNames(names[k], names[b]) < 0 {
          assert names[k] == init[k];
        }
      }
    }
  }

  /** `discoverLatestVersion`, src/version.ts:5-25, over a given listing: an error when no
      directory has a numeric name, otherwise the latest numeric name. */
  function DiscoverLatestVersion(entries: seq<DirEntry>): (r: Result<string, VersionError>)
    ensures r.Err? <==> forall e :: e in entries ==> !(e.isDirectory && IsNumericVersionName(e.name))
    ensures r.Ok? ==> r.value in GetAllRecentVersions(entries)
    ensures r.Ok? ==> forall k :: 0 <= k < |GetAllRecentVersions(entries)| ==>
      CompareNames(GetAllRecentVersions(entries)[k], r.value) <= 0
    ensures r.Ok? ==> exists i :: (0 <= i < |GetAllRecentVersions(entries)| &&
      GetAllRecentVersions(entries)[i] == r.value &&
      forall k :: i < k < |GetAllRecentVersions(entries)| ==>
        CompareNames(GetAllRecentVersions(entries)[k], r.value) < 0)
  {
    var numeric := GetAllRecentVersions(entries);
    if |numeric| == 0 then Err(NoNumericVersionDirs)
    else
      LatestIsGreatest(numeric);
      LatestIsLastGreatest(numeric);
      Ok(numeric[LatestIndex(numeric)])
  }
}
