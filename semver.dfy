/** `compareSemver`, src/build-ghpages.ts:19-44: the release ordering used to pick the newest
    published document. */
module Semver {
  import opened Wrappers
  import opened JsString
  import opened Schema

  /** `core.split(".").map(Number)`: NaN is written None. */
  function Numbers(parts: seq<string>): (n: seq<Option<nat>>)
    ensures |n| == |parts| && forall k :: 0 <= k < |parts| ==> n[k] == ToNumber(parts[k])
  {
    seq(|parts|, k requires 0 <= k < |parts| => ToNumber(parts[k]))
  }

  /** The numbers of the part before the first `-`. */
  function CoreNumbers(v: string): seq<Option<nat>> {
    Numbers(Split(Split(v, '-')[0], '.'))
  }

  /** The part between the first and the second `-`, if there is a first. */
  function PreTag(v: string): (pre: Option<string>)
    ensures pre.Some? <==> '-' in v
  {
    var parts := Split(v, '-');
    if '-' in v then Some(parts[1]) else None
  }

  /** `n[i]`, undefined past the end. */
  function Component(n: seq<Option<nat>>, i: nat): Option<nat> {
    if i < |n| then n[i] else None
  }

  /** JavaScript's `>` on numbers that may be NaN or undefined: false unless both are numbers. */
  predicate Greater(x: Option<nat>, y: Option<nat>) {
    x.Some? && y.Some? && x.value > y.value
  }

  /** The `for (let i = 0; i < 3; i++)` loop from component `i` on: the first component where
      one side is greater decides. */
  function CompareCore(n1: seq<Option<nat>>, n2: seq<Option<nat>>, i: nat): (r: int)
    requires i <= 3
    ensures r in {-1, 0, 1}
    decreases 3 - i
  {
    if i == 3 then 0
    else if Greater(Component(n1, i), Component(n2, i)) then 1
    else if Greater(Component(n2, i), Component(n1, i)) then -1
    else CompareCore(n1, n2, i + 1)
  }

  /** The pre-release rules of src/build-ghpages.ts:35-43, for equal cores. */
  function ComparePre(pre1: Option<string>, pre2: Option<string>): (r: int)
    ensures r in {-1, 0, 1}
    ensures Truthy(pre1) && !Truthy(pre2) ==> r == -1
    ensures !Truthy(pre1) && Truthy(pre2) ==> r == 1
    ensures !Truthy(pre1) && !Truthy(pre2) ==> r == 0
    ensures Truthy(pre1) && Truthy(pre2) ==>
      (r == 1 <==> StringLess(pre2.value, pre1.value)) && (r == -1 <==> StringLess(pre1.value, pre2.value))
  {
    if Truthy(pre1) && !Truthy(pre2) then -1
    else if !Truthy(pre1) && Truthy(pre2) then 1
    else if !Truthy(pre1) && !Truthy(pre2) then 0
    else if StringLess(pre2.value, pre1.value) then
      StringLessAsymmetric(pre1.value, pre2.value);
      1
    else if StringLess(pre1.value, pre2.value) then -1
    else 0
  }

  /** The order `compareSemver` computes. */
  function SemverOrder(v1: string, v2: string): (r: int)
    ensures r in {-1, 0, 1}
  {
    var core := CompareCore(CoreNumbers(v1), CoreNumbers(v2), 0);
    if core != 0 then core else ComparePre(PreTag(v1), PreTag(v2))
  }

  /** `compareSemver` as the source writes it. */
  method CompareSemver(v1: string, v2: string) returns (r: int)
    ensures r == SemverOrder(v1, v2)
  {
    var parts1 := Split(v1, '-');
    var parts2 := Split(v2, '-');
    var pre1 := PreTag(v1);
    var pre2 := PreTag(v2);
    var n1 := Numbers(Split(parts1[0], '.'));
    var n2 := Numbers(Split(parts2[0], '.'));
    for i := 0 to 3
      invariant CompareCore(n1, n2, 0) == CompareCore(n1, n2, i)
    {
      if Greater(Component(n1, i), Component(n2, i)) {
        return 1;
      }
      if Greater(Component(n2, i), Component(n1, i)) {
        return -1;
      }
    }
    if Truthy(pre1) && !Truthy(pre2) {
      return -1;
    }
    if !Truthy(pre1) && Truthy(pre2) {
      return 1;
    }
    if !Truthy(pre1) && !Truthy(pre2) {
      return 0;
    }
    if StringLess(pre2.value, pre1.value) {
      return 1;
    }
    if StringLess(pre1.value, pre2.value) {
      return -1;
    }
    return 0;
  }

  lemma {:induction false} CompareCoreReflexive(n: seq<Option<nat>>, i: nat)
    requires i <= 3
    ensures CompareCore(n, n, i) == 0
    decreases 3 - i
  {
    if i < 3 { CompareCoreReflexive(n, i + 1); }
  }

  lemma {:induction false} CompareCoreAntisymmetric(n1: seq<Option<nat>>, n2: seq<Option<nat>>, i: nat)
    requires i <= 3
    ensures CompareCore(n1, n2, i) == -CompareCore(n2, n1, i)
    decreases 3 - i
  {
    if i < 3 { CompareCoreAntisymmetric(n1, n2, i + 1); }
  }

  /** Every string compares equal to itself, whatever its shape. */
  lemma SemverReflexive(v: string)
    ensures SemverOrder(v, v) == 0
  {
    CompareCoreReflexive(CoreNumbers(v), 0);
    if Truthy(PreTag(v)) { StringLessIrreflexive(PreTag(v).value); }
  }

  /** Swapping the arguments flips the sign, whatever their shape. */
  lemma SemverAntisymmetric(v1: string, v2: string)
    ensures SemverOrder(v1, v2) == -SemverOrder(v2, v1)
  {
    CompareCoreAntisymmetric(CoreNumbers(v1), CoreNumbers(v2), 0);
    if Truthy(PreTag(v1)) && Truthy(PreTag(v2)) {
      StringLessAsymmetric(PreTag(v1).value, PreTag(v2).value);
      if PreTag(v1).value != PreTag(v2).value {
        StringLessTotal(PreTag(v1).value, PreTag(v2).value);
      }
    }
  }

  /** With the same core, a release is above any of its pre-releases: `c` beats `c-t` when
      the first `-` segment of `t`, the one compared as the tag, is non-empty. */
  lemma ReleaseAbovePreRelease(core: string, tag: string)
    requires '-' !in core && Split(tag, '-')[0] != ""
    ensures SemverOrder(core, core + "-" + tag) == 1
  {
    SplitWithoutSeparator(core, '-');
    SplitAfterPart(core, tag, '-');
    assert core + "-" + tag == core + ['-'] + tag;
    assert CoreNumbers(core) == CoreNumbers(core + "-" + tag);
    CompareCoreReflexive(CoreNumbers(core), 0);
  }

  /** Only the segment between the first and second `-` is the tag: what follows it is
      never looked at. */
  lemma TagIsFirstSegmentOnly(core: string, tag: string, rest1: string, rest2: string)
    requires '-' !in core && '-' !in tag
    ensures SemverOrder(core + "-" + tag + "-" + rest1, core + "-" + tag + "-" + rest2) == 0
  {
    var v1, v2 := core + "-" + tag + "-" + rest1, core + "-" + tag + "-" + rest2;
    assert v1 == core + ['-'] + (tag + ['-'] + rest1);
    assert v2 == core + ['-'] + (tag + ['-'] + rest2);
    SplitAfterPart(core, tag + ['-'] + rest1, '-');
    SplitAfterPart(core, tag + ['-'] + rest2, '-');
    SplitAfterPart(tag, rest1, '-');
    SplitAfterPart(tag, rest2, '-');
    assert '-' in v1 && '-' in v2 by { assert v1[|core|] == '-' && v2[|core|] == '-'; }
    assert PreTag(v1) == PreTag(v2);
    assert CoreNumbers(v1) == CoreNumbers(v2);
    SemverReflexive(v1);
    CompareCoreReflexive(CoreNumbers(v1), 0);
    if Truthy(PreTag(v1)) { StringLessIrreflexive(PreTag(v1).value); }
  }

  /** The core is compared number by number: the first component where both sides are
      numbers and differ decides. */
  lemma {:induction false} FirstDifferenceDecides(n1: seq<Option<nat>>, n2: seq<Option<nat>>, i: nat, j: nat)
    requires i <= j < 3
    requires forall k :: i <= k < j ==> !Greater(Component(n1, k), Component(n2, k)) && !Greater(Component(n2, k), Component(n1, k))
    requires Greater(Component(n1, j), Component(n2, j))
    ensures CompareCore(n1, n2, i) == 1
    decreases j - i
  {
    if i < j { FirstDifferenceDecides(n1, n2, i + 1, j); }
  }

  /** A release `a.b.c` has exactly the numbers of its three parts as its core. */
  lemma CoreOfRelease(a: string, b: string, c: string)
    requires '.' !in a && '.' !in b && '.' !in c && '-' !in a && '-' !in b && '-' !in c
    ensures CoreNumbers(a + "." + b + "." + c) == [ToNumber(a), ToNumber(b), ToNumber(c)]
  {
    var v := a + "." + b + "." + c;
    assert v == JoinWith([a, b, c], '.') by {
      assert JoinWith([a, b, c], '.') == a + ['.'] + JoinWith([b, c], '.');
      assert [a, b, c][1..] == [b, c] && [b, c][1..] == [c];
    }
    assert '-' !in v;
    SplitWithoutSeparator(v, '-');
    SplitUnique([a, b, c], '.');
  }

  /** With equal major and patch parts, the greater minor number wins, whatever the text
      order of the two minor parts. */
  lemma MinorDecides(major: string, minor1: string, minor2: string, patch: string)
    requires AllDigits(major) && AllDigits(minor1) && AllDigits(minor2) && AllDigits(patch)
    requires DigitsValue(minor1) > DigitsValue(minor2)
    ensures SemverOrder(major + "." + minor1 + "." + patch, major + "." + minor2 + "." + patch) == 1
  {
    DigitsHaveNoSeparators(major);
    DigitsHaveNoSeparators(minor1);
    DigitsHaveNoSeparators(minor2);
    DigitsHaveNoSeparators(patch);
    CoreOfRelease(major, minor1, patch);
    CoreOfRelease(major, minor2, patch);
    FirstDifferenceDecides(CoreNumbers(major + "." + minor1 + "." + patch),
                           CoreNumbers(major + "." + minor2 + "." + patch), 0, 1);
  }

  /** `1.10.0` is above `1.9.0`, although as text `"10"` comes before `"9"`. */
  lemma TenAboveNine(v1: string, v2: string)
    requires v1 == "1.10.0" && v2 == "1.9.0"
    ensures SemverOrder(v1, v2) == 1
    ensures StringLess("10", "9")
  {
    var ten, nine := "10", "9";
    assert ten[..1] == "1";
    assert DigitsValue(ten) > DigitsValue(nine);
    assert v1 == "1" + "." + ten + "." + "0" && v2 == "1" + "." + nine + "." + "0";
    MinorDecides("1", ten, nine, "0");
  }
}
