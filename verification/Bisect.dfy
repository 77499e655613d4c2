/**
  The release bisector: the search for the first broken release, the lookup of the nearest release to a
  version given on the command line, and the filtering of the release list.
 */
module Bisect {
  import opened Prelude

  // ---------------------------------------------------------------- the search

  datatype Found<T> =
    | Broken(tag: T)     // the release reported as the first broken one
    | NotEnough          // fewer than two releases
    | LeftFails(tag: T)  // the release expected to work does not
    | RightWorks(tag: T) // the release expected to fail does not
    | NothingTested      // test_index is read before any assignment

  /** The rounded-down binary logarithm. */
  function Log2(n: nat): (l: nat)
    requires n >= 1
  {
    if n == 1 then 0 else 1 + Log2(n / 2)
  }

  lemma {:induction false} Log2Monotone(m: nat, n: nat)
    requires 1 <= m <= n
    ensures Log2(m) <= Log2(n)
  {
    if m > 1 {
      Log2Monotone(m / 2, n / 2);
    }
  }

  /** Log2 is the exponent of the largest power of two that is not above its argument. */
  lemma {:induction false} Log2Exact(n: nat)
    requires n >= 1
    ensures Power2(Log2(n)) <= n < 2 * Power2(Log2(n))
  {
    if n > 1 {
      Log2Exact(n / 2);
    }
  }

  function Power2(e: nat): nat {
    if e == 0 then 1 else 2 * Power2(e - 1)
  }

  /** The most in-loop tests that a span of that many untested positions can take. */
  function TestBound(span: int): nat {
    if span <= 0 then 0 else Log2(span) + 1
  }

  /** So many tests are allowed exactly as the span reaches the powers of two. */
  lemma TestBoundExact(span: nat)
    requires span >= 1
    ensures TestBound(span) >= 1 && Power2(TestBound(span) - 1) <= span < Power2(TestBound(span))
  {
    Log2Exact(span);
  }

  lemma TestBoundHalves(span: nat, next: int)
    requires span >= 1 && next <= span / 2
    ensures TestBound(next) + 1 <= TestBound(span)
  {
    if next >= 1 {
      Log2Monotone(next, span / 2);
    }
  }

  /** Between `left` and `right`, exactly the releases before `k` work. */
  ghost predicate Switch<T(!new)>(tags: seq<T>, works: T -> bool, left: int, right: int, k: int) {
    && 0 <= left < k <= right < |tags|
    && forall i :: left <= i <= right ==> (works(tags[i]) <==> i < k)
  }

  /** The left end works and the right end fails, in whatever way the releases between them behave. */
  predicate Bracketed<T>(tags: seq<T>, works: T -> bool, left: int, right: int) {
    0 <= left < right < |tags| && works(tags[left]) && !works(tags[right])
  }

  /** The positions tested in turn from `left` for as long as every release that is tested works. */
  function RightPath(left: int, right: int): (path: set<int>)
    ensures forall p :: p in path ==> left <= p < right
    decreases right - left
  {
    if left >= right then {} else {(left + right) / 2} + RightPath((left + right) / 2 + 1, right)
  }

  predicate AllWork<T>(tags: seq<T>, works: T -> bool, path: set<int>)
    requires forall p :: p in path ==> 0 <= p < |tags|
  {
    forall p :: p in path ==> works(tags[p])
  }

  lemma RightPathStep<T>(tags: seq<T>, works: T -> bool, left: int, right: int)
    requires 0 <= left < right < |tags|
    ensures var m := (left + right) / 2;
            AllWork(tags, works, RightPath(left, right)) <==>
              works(tags[m]) && AllWork(tags, works, RightPath(m + 1, right))
  {
    var path, m := RightPath(left, right), (left + right) / 2;
    assert path == {m} + RightPath(m + 1, right) && m in path;
  }

  ghost predicate NoRepeat(probes: seq<int>) {
    forall i, j :: 0 <= i < j < |probes| ==> probes[i] != probes[j]
  }

  lemma NoRepeatSnoc(probes: seq<int>, t: int)
    requires NoRepeat(probes) && t !in probes
    ensures NoRepeat(probes + [t])
  {
  }

  /** The tests made so far, each in the middle of the positions that the answers before it leave. */
  datatype Trail = Start(left: int, right: int) | Tested(before: Trail, at: int, left: int, right: int) {
    function Probes(): seq<int> {
      if Start? then [] else before.Probes() + [at]
    }

    function Then(at: int, worked: bool): Trail {
      Tested(this, at, if worked then at + 1 else left, if worked then right else at - 1)
    }

    ghost predicate Follows<T>(tags: seq<T>, works: T -> bool, from: int, to: int) {
      if Start? then left == from && right == to
      else
        && before.Follows(tags, works, from, to)
        && before.left <= at == (before.left + before.right) / 2 <= before.right
        && 0 <= at < |tags| && at < to && this == before.Then(at, works(tags[at]))
    }
  }

  /** No position is tested twice, and every test halves what is left. */
  lemma {:induction false} TrailTests<T>(tags: seq<T>, works: T -> bool, trail: Trail, left: int, right: int)
    requires 0 <= left < right < |tags| && trail.Follows(tags, works, left, right)
    ensures left <= trail.left && trail.right <= right
    ensures var probes := trail.Probes();
            && NoRepeat(probes)
            && (forall p :: p in probes ==> left <= p < right && (p < trail.left || trail.right < p))
            && |probes| + TestBound(trail.right - trail.left + 1) <= TestBound(right - left + 1)
  {
    if trail.Tested? {
      var was := trail.before;
      TrailTests(tags, works, was, left, right);
      NoRepeatSnoc(was.Probes(), trail.at);
      TestBoundHalves(was.right - was.left + 1, trail.right - trail.left + 1);
    }
  }

  /** The right end stays only for as long as every tested release works. */
  lemma {:induction false} TrailToRight<T>(tags: seq<T>, works: T -> bool, trail: Trail, left: int, right: int)
    requires 0 <= left < right < |tags| && trail.Follows(tags, works, left, right)
    ensures 0 <= trail.left && trail.right <= right
    ensures AllWork(tags, works, RightPath(left, right)) <==>
              trail.right == right && AllWork(tags, works, RightPath(trail.left, right))
  {
    if trail.Tested? {
      TrailToRight(tags, works, trail.before, left, right);
      if trail.before.right == right {
        RightPathStep(tags, works, trail.before.left, right);
      }
    }
  }

  lemma TrailFacts<T>(tags: seq<T>, works: T -> bool, trail: Trail, left: int, right: int)
    requires 0 <= left < right < |tags| && trail.Follows(tags, works, left, right)
    ensures NoRepeat(trail.Probes()) && forall p :: p in trail.Probes() ==> left <= p < right
    ensures |trail.Probes()| <= TestBound(right - left + 1)
    ensures trail.right < right ==> !AllWork(tags, works, RightPath(left, right))
    ensures trail.right == right <= trail.left ==> AllWork(tags, works, RightPath(left, right))
  {
    TrailTests(tags, works, trail, left, right);
    TrailToRight(tags, works, trail, left, right);
  }

  datatype Search<T> = Search(
    found: Found<T>, position: int, attempt: int, worksFrom: int, failsAt: int, probes: seq<int>, early: bool)

  /**
    The loop of find_first_broken_version. `position` is where the reported tag stands, `probes` lists the
    tested positions in order, `worksFrom` and `failsAt` are what is known after the last answer, and `early`
    tells a return from inside the body, which counts the tests right while the end of the loop adds one. For any
    history, `failsAt` is a broken release right after a working one; it is the one reported unless it is the
    right end, whose predecessor, a working release, is reported. That happens exactly when every release works
    that is tested on the way to the right end. With a single switch `failsAt` is the first broken release, and
    the report is right exactly when the predecessor of the right end is broken.
   */
  method BisectLoop<T(!new)>(tags: seq<T>, left: nat, right: nat, works: T -> bool, attempt: nat)
      returns (r: Search<T>)
    requires left < |tags| && right < |tags|
    ensures r.found.NothingTested? <==> right - left <= 1
    ensures r.found.NothingTested? ==> r.probes == []
    ensures right - left >= 2 ==>
              && left <= r.position <= right && r.found == Broken(tags[r.position])
              && |r.probes| >= 1 && r.attempt == attempt + |r.probes| - (if r.early then 1 else 0)
    ensures |r.probes| <= TestBound(right - left + 1)
    ensures NoRepeat(r.probes) && forall p :: p in r.probes ==> left <= p < right
    ensures Bracketed(tags, works, left, right) && right - left >= 2 ==>
              && left <= r.worksFrom == r.failsAt - 1 && r.failsAt <= right
              && works(tags[r.worksFrom]) && !works(tags[r.failsAt])
              && r.position == (if r.failsAt < right then r.failsAt else right - 1)
              && (r.failsAt == right ==> !r.early)
    ensures Bracketed(tags, works, left, right) && right - left >= 2 ==>
              && (works(tags[r.position]) <==> r.failsAt == right)
              && (works(tags[r.position]) <==> AllWork(tags, works, RightPath(left, right)))
    ensures forall k :: Switch(tags, works, left, right, k) && right - left >= 2 ==>
              r.failsAt == k && (r.position == k <==> !works(tags[right - 1]))
  {
    var leftIndex: int, rightIndex: int := left, right;
    var worksFrom, failsAt := leftIndex, rightIndex;
    var attemptNumber := attempt;
    var testIndex: Option<int> := None;
    var probes: seq<int> := [];
    ghost var trail := Start(left, right);
    while failsAt - worksFrom > 1
      invariant left <= worksFrom && failsAt <= right && leftIndex >= left
      invariant right - left >= 2 ==>
          worksFrom <= leftIndex <= worksFrom + 1 && failsAt - 1 <= rightIndex <= failsAt && worksFrom <= failsAt
      invariant failsAt - worksFrom > 1 ==> leftIndex <= rightIndex
      invariant Bracketed(tags, works, left, right) ==> Bracketed(tags, works, worksFrom, failsAt)
      invariant testIndex.None? <==> probes == []
      invariant testIndex.Some? ==> probes[|probes| - 1] == testIndex.value && right - left >= 2
      invariant rightIndex == if failsAt < right then failsAt - 1 else right
      invariant testIndex.Some? ==> testIndex.value == failsAt || (testIndex.value == worksFrom == leftIndex - 1)
      invariant testIndex.Some? && failsAt == right ==> testIndex.value == worksFrom
      invariant testIndex.Some? && failsAt < right && testIndex.value != failsAt ==> failsAt - worksFrom > 1
      invariant attemptNumber == attempt + |probes|
      invariant trail.Follows(tags, works, left, right) && probes == trail.Probes()
      invariant trail.left == leftIndex && trail.right == rightIndex
      decreases rightIndex - leftIndex + 1
    {
      var t := (leftIndex + rightIndex) / 2;
      testIndex := Some(t);
      var result := works(tags[t]);
      probes := probes + [t];
      trail := trail.Then(t, result);
      if leftIndex == rightIndex {
        TrailFacts(tags, works, trail, left, right);
        if result {
          return Search(Broken(tags[failsAt]), failsAt, attemptNumber, t, failsAt, probes, true);
        }
        return Search(Broken(tags[t]), t, attemptNumber, worksFrom, t, probes, true);
      }
      if result {
        worksFrom := if t > worksFrom then t else worksFrom;
        leftIndex := t + 1;
      } else {
        failsAt := if t < failsAt then t else failsAt;
        rightIndex := t - 1;
      }
      attemptNumber := attemptNumber + 1;
    }
    if testIndex.None? {
      return Search(NothingTested, -1, attemptNumber, worksFrom, failsAt, probes, false);
    }
    TrailFacts(tags, works, trail, left, right);
    r := Search(Broken(tags[testIndex.value]), testIndex.value, attemptNumber, worksFrom, failsAt, probes, false);
  }

  /** Releases 0 and 1 work and release 2 fails, yet release 1 is reported. */
  method RightEndMissed() returns (r: Search<int>)
    ensures r.found == Broken(1) && r.failsAt == 2 && r.attempt == 1 + |r.probes|
  {
    var tags, works := [0, 1, 2], (t: int) => t < 2;
    assert Switch(tags, works, 0, 2, 2);
    r := BisectLoop(tags, 0, 2, works, 1);
  }

  /** With two releases nothing is tested, and the tested position that would be reported is unassigned. */
  method TwoReleasesUntested() returns (r: Search<int>)
    ensures r.found == NothingTested && r.probes == []
  {
    r := BisectLoop([0, 1], 0, 1, (t: int) => t < 1, 1);
  }

  // ---------------------------------------------------------------- releases and versions

  /** A release number split at its dots; parts are decimal numerals without leading zeros. */
  type Version = seq<nat>

  /** The order of Python lists, by which the releases are sorted. */
  predicate Less(a: Version, b: Version) {
    b != [] && (a == [] || a[0] < b[0] || (a[0] == b[0] && Less(a[1..], b[1..])))
  }

  /** At the first part in which they differ the lesser one has ended or has the smaller number. */
  lemma {:induction false} LessExactly(a: Version, b: Version)
    ensures Less(a, b) <==>
            exists k :: 0 <= k < |b| && k <= |a| && a[..k] == b[..k] && (k == |a| || a[k] < b[k])
  {
    if a != [] && b != [] && a[0] == b[0] {
      LessExactly(a[1..], b[1..]);
      if k :| 0 <= k < |b| && k <= |a| && a[..k] == b[..k] && (k == |a| || a[k] < b[k]) {
        assert k > 0;
        assert a[1..][..k - 1] == a[..k][1..] == b[..k][1..] == b[1..][..k - 1];
      }
      if Less(a, b) {
        var k :| 0 <= k < |b| - 1 && k <= |a| - 1 && a[1..][..k] == b[1..][..k]
                 && (k == |a| - 1 || a[1..][k] < b[1..][k]);
        assert a[..k + 1] == [a[0]] + a[1..][..k] == b[..k + 1];
      }
    } else if Less(a, b) {
      assert a[..0] == b[..0];
    } else {
      forall k | 0 < k < |b| && k <= |a| ensures a[..k] != b[..k] {
        assert a[..k][0] == a[0] && b[..k][0] == b[0];
      }
    }
  }

  ghost predicate StrictlySorted(tags: seq<Version>) {
    forall i, j :: 0 <= i < j < |tags| ==> Less(tags[i], tags[j])
  }

  ghost predicate Releases(tags: seq<Version>) {
    StrictlySorted(tags) && forall t :: t in tags ==> |t| == 3
  }

  /** A version asked for on the command line may have parts that are no numbers. */
  datatype Part = Number(n: nat) | Text(s: string)

  type Requested = seq<Part>

  /** The request is this very release. */
  predicate Names(v: Requested, t: Version) {
    |v| == |t| && forall k :: 0 <= k < |v| ==> v[k] == Number(t[k])
  }

  /** The release starts with the first two parts of the request. */
  predicate SameMinor(t: Version, v: Requested) {
    |t| >= 3 && |v| >= 2 && v[0] == Number(t[0]) && v[1] == Number(t[1])
  }

  /** The release that a request names, if it is a release at all. */
  function AsRelease(v: Requested): (t: Option<Version>)
    ensures t.Some? ==> Names(v, t.value)
    ensures t.None? ==> forall u: Version :: !Names(v, u)
  {
    if forall k :: 0 <= k < |v| ==> v[k].Number? then
      Some(seq(|v|, k requires 0 <= k < |v| => v[k].n))
    else
      None
  }

  function IndexOf<T(==)>(s: seq<T>, x: T): (n: nat)
    requires x in s
    ensures n < |s| && s[n] == x && x !in s[..n]
  {
    if s[0] == x then 0 else
      var n := 1 + IndexOf(s[1..], x);
      assert s[..n] == [s[0]] + s[1..][..n - 1];
      n
  }

  datatype End = First | Last

  /** get_nearest_index: the version itself, or an end of the block of its major.minor, or the default. */
  function GetNearestIndex(tags: seq<Version>, version: Requested, end: End, default: int): int {
    if AsRelease(version).Some? && AsRelease(version).value in tags then IndexOf(tags, AsRelease(version).value)
    else if |version| != 3 then default
    else
      var results := Filter(tags, t => SameMinor(t, version));
      if results == [] then default
      else IndexOf(tags, if end.First? then results[0] else results[|results| - 1])
  }

  lemma MinorBetween(a: Version, b: Version, c: Version, v: Requested)
    requires |a| == |b| == |c| == 3 && Less(a, b) && Less(b, c) && SameMinor(a, v) && SameMinor(c, v)
    ensures SameMinor(b, v)
  {
    assert a[1..][0] == a[1] && b[1..][0] == b[1] && c[1..][0] == c[1];
  }

  /** The releases that share major.minor stand together. */
  lemma BlockContiguous(tags: seq<Version>, v: Requested, i: nat, j: nat, k: nat)
    requires Releases(tags) && i <= j <= k < |tags| && SameMinor(tags[i], v) && SameMinor(tags[k], v)
    ensures SameMinor(tags[j], v)
  {
    if i < j < k {
      MinorBetween(tags[i], tags[j], tags[k], v);
    }
  }

  lemma {:induction false} LessIrreflexive(a: Version)
    ensures !Less(a, a)
  {
    if a != [] {
      LessIrreflexive(a[1..]);
    }
  }

  lemma SortedDistinct(tags: seq<Version>, i: nat, j: nat)
    requires StrictlySorted(tags) && i < |tags| && j < |tags| && tags[i] == tags[j]
    ensures i == j
  {
    LessIrreflexive(tags[i]);
  }

  /** A present version is found where it stands; an absent one stands for an end of its block. */
  lemma NearestIndexExact(tags: seq<Version>, v: Requested, end: End, default: int)
    requires Releases(tags)
    ensures var r := GetNearestIndex(tags, v, end, default);
            if exists t :: t in tags && Names(v, t) then 0 <= r < |tags| && Names(v, tags[r])
            else if |v| != 3 || forall t :: t in tags ==> !SameMinor(t, v) then r == default
            else && 0 <= r < |tags| && SameMinor(tags[r], v)
                 && forall i :: 0 <= i < |tags| && SameMinor(tags[i], v) ==> if end.First? then r <= i else i <= r
  {
    NamedRelease(tags, v);
    if AsRelease(v).None? || AsRelease(v).value !in tags {
      AbsentRelease(tags, v, end, default);
    }
  }

  lemma AbsentRelease(tags: seq<Version>, v: Requested, end: End, default: int)
    requires Releases(tags) && (AsRelease(v).None? || AsRelease(v).value !in tags)
    ensures var r := GetNearestIndex(tags, v, end, default);
            if |v| != 3 || forall t :: t in tags ==> !SameMinor(t, v) then r == default
            else && 0 <= r < |tags| && SameMinor(tags[r], v)
                 && forall i :: 0 <= i < |tags| && SameMinor(tags[i], v) ==> if end.First? then r <= i else i <= r
  {
    var keep := (t: Version) => SameMinor(t, v);
    var results := Filter(tags, keep);
    var at := FilterPositions(tags, keep);
    BlockEnds(tags, v, results, at);
    if |v| == 3 && results != [] {
      var n := if end.First? then 0 else |at| - 1;
      assert results[n] in results && tags[at[n]] == results[n];
      assert GetNearestIndex(tags, v, end, default) == at[n];
    } else if |v| == 3 {
      assert forall t :: t in tags && keep(t) ==> t in results;
    }
  }

  lemma NamedRelease(tags: seq<Version>, v: Requested)
    ensures AsRelease(v).Some? && AsRelease(v).value in tags <==> exists t :: t in tags && Names(v, t)
  {
    if t :| t in tags && Names(v, t) {
      assert AsRelease(v).Some? && AsRelease(v).value == t;
    }
  }

  lemma IndexOfAt(tags: seq<Version>, i: nat)
    requires StrictlySorted(tags) && i < |tags|
    ensures IndexOf(tags, tags[i]) == i
  {
    SortedDistinct(tags, IndexOf(tags, tags[i]), i);
  }

  /** Looking up the ends of a block finds its first and its last position. */
  lemma BlockEnds(tags: seq<Version>, v: Requested, results: seq<Version>, at: seq<nat>)
    requires Releases(tags) && FilteredAt(tags, (t: Version) => SameMinor(t, v), results, at)
    ensures forall n :: 0 <= n < |results| ==> results[n] in tags && IndexOf(tags, results[n]) == at[n]
    ensures forall i: nat :: i < |tags| && SameMinor(tags[i], v) ==> results != [] && at[0] <= i <= at[|at| - 1]
  {
    forall n | 0 <= n < |results| ensures results[n] in tags && IndexOf(tags, results[n]) == at[n] {
      IndexOfAt(tags, at[n]);
    }
    forall i: nat | i < |tags| && SameMinor(tags[i], v) ensures results != [] && at[0] <= i <= at[|at| - 1] {
      var n :| 0 <= n < |at| && at[n] == i;
      assert at[0] <= at[n] <= at[|at| - 1];
    }
  }

  /** The optional branch: one of the form major.minor.x, or another text, which no release belongs to. */
  datatype Branch = MinorBranch(major: nat, minor: nat) | OtherBranch

  /** The command line and the release data that filter_releases consults. */
  datatype Narrowing = Narrowing(
    branch: Option<Branch>, channel: Option<string>,
    hasAsset: Version -> bool, channelOf: Version -> Option<string>)

  predicate Relevant(t: Version, args: Narrowing) {
    && |t| == 3
    && (args.branch.Some? ==> args.branch.value == MinorBranch(t[0], t[1]))
    && args.hasAsset(t)
    && (args.channel !in {None, Some("")} ==> args.channelOf(t) == args.channel)
  }

  method FilterReleases(tagNames: seq<Version>, args: Narrowing) returns (filtered: seq<Version>)
    ensures filtered == Filter(tagNames, t => Relevant(t, args))
    ensures StrictlySorted(tagNames) ==> Releases(filtered)
    ensures forall t :: t in filtered <==>
              && t in tagNames && |t| == 3 && args.hasAsset(t)
              && args.branch in {None, Some(MinorBranch(t[0], t[1]))}
              && (args.channel == None || args.channel == Some("") || args.channelOf(t) == args.channel)
  {
    filtered := [];
    ghost var keep := (t: Version) => Relevant(t, args);
    for n := 0 to |tagNames|
      invariant filtered == Filter(tagNames[..n], keep)
    {
      var tag := tagNames[n];
      FilterSnoc(tagNames[..n], tag, keep);
      assert tagNames[..n + 1] == tagNames[..n] + [tag];
      if |tag| != 3 {
        continue;
      }
      if args.branch.Some? && args.branch.value != MinorBranch(tag[0], tag[1]) {
        continue;
      }
      if !args.hasAsset(tag) {
        continue;
      }
      if args.channel.Some? && args.channel.value != "" && args.channelOf(tag) != args.channel {
        continue;
      }
      filtered := filtered + [tag];
    }
    assert tagNames[..|tagNames|] == tagNames;
    var at := FilterPositions(tagNames, keep);
  }

  // ---------------------------------------------------------------- the whole command

  function LeftEnd(tags: seq<Version>, good: Option<Requested>): int {
    if good.Some? then GetNearestIndex(tags, good.value, First, 0) else 0
  }

  function RightEnd(tags: seq<Version>, bad: Option<Requested>): int {
    if bad.Some? then GetNearestIndex(tags, bad.value, Last, |tags| - 1) else |tags| - 1
  }

  /** A release as it is written in a request. */
  function AsParts(t: Version): Requested {
    seq(|t|, k requires 0 <= k < |t| => Number(t[k]))
  }

  /** The release at the position shares major and minor with the request. */
  predicate InBlock(tags: seq<Version>, v: Requested, i: int) {
    0 <= i < |tags| && |tags[i]| == |v| == 3 && v[0] == Number(tags[i][0]) && v[1] == Number(tags[i][1])
  }

  /**
    A good or bad version that is released is the end of the range itself. One that is not stands for its whole
    block: the range starts at the first release of a good version's block, and ends at the last one of a bad
    version's. In every other case that end of the range is the one of the list.
   */
  lemma EndsExact(tags: seq<Version>, v: Requested)
    requires Releases(tags)
    ensures LeftEnd(tags, None) == 0 && RightEnd(tags, None) == |tags| - 1
    ensures var left, right := LeftEnd(tags, Some(v)), RightEnd(tags, Some(v));
            if exists t :: t in tags && AsParts(t) == v then
              0 <= left == right < |tags| && AsParts(tags[left]) == v
            else if exists i :: InBlock(tags, v, i) then
              && InBlock(tags, v, left) && InBlock(tags, v, right)
              && forall i :: InBlock(tags, v, i) ==> left <= i <= right
            else
              left == 0 && right == |tags| - 1
  {
    EndExact(tags, v, First, 0);
    EndExact(tags, v, Last, |tags| - 1);
    if exists t :: t in tags && AsParts(t) == v {
      var left, right := LeftEnd(tags, Some(v)), RightEnd(tags, Some(v));
      SameParts(tags[left], tags[right]);
      SortedDistinct(tags, left, right);
    }
  }

  lemma EndExact(tags: seq<Version>, v: Requested, end: End, default: int)
    requires Releases(tags)
    ensures var r := GetNearestIndex(tags, v, end, default);
            if exists t :: t in tags && AsParts(t) == v then 0 <= r < |tags| && AsParts(tags[r]) == v
            else if exists i :: InBlock(tags, v, i) then
              InBlock(tags, v, r) && forall i :: InBlock(tags, v, i) ==> if end.First? then r <= i else i <= r
            else r == default
  {
    NearestIndexExact(tags, v, end, default);
    PresentAsParts(tags, v);
    BlockPresent(tags, v);
  }

  lemma PresentAsParts(tags: seq<Version>, v: Requested)
    ensures forall t :: t in tags ==> (Names(v, t) <==> AsParts(t) == v)
  {
  }

  lemma BlockPresent(tags: seq<Version>, v: Requested)
    requires Releases(tags)
    ensures (exists i :: InBlock(tags, v, i)) <==> |v| == 3 && exists t :: t in tags && SameMinor(t, v)
    ensures forall i :: 0 <= i < |tags| && |v| == 3 ==> (InBlock(tags, v, i) <==> SameMinor(tags[i], v))
  {
    if i :| InBlock(tags, v, i) {
      assert SameMinor(tags[i], v);
    }
    if |v| == 3 && exists t :: t in tags && SameMinor(t, v) {
      var i :| 0 <= i < |tags| && SameMinor(tags[i], v);
      assert InBlock(tags, v, i);
    }
  }

  lemma SameParts(t: Version, u: Version)
    requires AsParts(t) == AsParts(u)
    ensures t == u
  {
    forall k | 0 <= k < |t| ensures |AsParts(t)| == |t| && |AsParts(u)| == |u| && t[k] == u[k] {
      assert AsParts(t)[k] == Number(t[k]) && AsParts(u)[k] == Number(u[k]);
    }
    assert |AsParts(t)| == |t| && |AsParts(u)| == |u|;
  }

  /** The searched range always lies in the release list, although its ends may be out of order. */
  lemma EndsInRange(tags: seq<Version>, good: Option<Requested>, bad: Option<Requested>)
    requires |tags| >= 1
    ensures 0 <= LeftEnd(tags, good) < |tags| && 0 <= RightEnd(tags, bad) < |tags|
  {
  }

  /**
    find_first_broken_version. When the left end of the searched range works and its right end fails, the
    report is a broken release after a working one, the first broken one if there is a single switch, unless
    the range has fewer than three releases (nothing is tested) or every release works that is tested on the way
    to its right end, when a working release is reported.
   */
  method FindFirstBrokenVersion(tags: seq<Version>, good: Option<Requested>, bad: Option<Requested>,
                                works: Version -> bool)
      returns (r: Search<Version>)
    ensures |tags| < 2 <==> r.found.NotEnough?
    ensures var left, right := LeftEnd(tags, good), RightEnd(tags, bad);
            |tags| >= 2 ==>
              && 0 <= left < |tags| && 0 <= right < |tags|
              && (r.found.LeftFails? <==> left == 0 && !works(tags[0]))
              && (r.found.RightWorks? <==>
                  right == |tags| - 1 && works(tags[right]) && !r.found.LeftFails?)
              && (r.found.NothingTested? <==>
                  right - left <= 1 && !r.found.LeftFails? && !r.found.RightWorks?)
              && (r.found.LeftFails? ==> r.found == LeftFails(tags[left]))
              && (r.found.RightWorks? ==> r.found == RightWorks(tags[right]))
              && (r.found.Broken? ==> left <= r.position <= right && r.found == Broken(tags[r.position]))
              && |r.probes| <= TestBound(right - left + 1)
    ensures var left, right := LeftEnd(tags, good), RightEnd(tags, bad);
            r.found.Broken? ==>
              r.attempt == 1 + (if left == 0 then 1 else 0) + (if right == |tags| - 1 then 1 else 0)
                           + |r.probes| - (if r.early then 1 else 0)
    ensures var left, right := LeftEnd(tags, good), RightEnd(tags, bad);
            Bracketed(tags, works, left, right) && right - left >= 2 ==>
              && r.failsAt == r.worksFrom + 1 && Bracketed(tags, works, r.worksFrom, r.failsAt)
              && r.position == (if r.failsAt < right then r.failsAt else right - 1)
              && r.found == Broken(tags[r.position]) && (works(tags[r.position]) <==> r.failsAt == right)
              && (works(tags[r.position]) <==> AllWork(tags, works, RightPath(left, right)))
    ensures var left, right := LeftEnd(tags, good), RightEnd(tags, bad);
            forall k :: Switch(tags, works, left, right, k) && right - left >= 2 ==>
              r.failsAt == k && (r.position == k <==> !works(tags[right - 1]))
  {
    var leftIndex, rightIndex := 0, |tags| - 1;
    if leftIndex >= rightIndex {
      return Search(NotEnough, -1, 0, leftIndex, rightIndex, [], false);
    }
    EndsInRange(tags, good, bad);
    var testLeft, testRight := good.None?, bad.None?;
    if good.Some? {
      leftIndex := GetNearestIndex(tags, good.value, First, leftIndex);
      testLeft := leftIndex == 0;
    }
    if bad.Some? {
      rightIndex := GetNearestIndex(tags, bad.value, Last, rightIndex);
      testRight := rightIndex == |tags| - 1;
    }
    var attemptNumber := 1;
    if testLeft {
      var result := works(tags[leftIndex]);
      attemptNumber := attemptNumber + 1;
      if !result {
        return Search(LeftFails(tags[leftIndex]), -1, attemptNumber, leftIndex, rightIndex, [], false);
      }
    }
    if testRight {
      var result := works(tags[rightIndex]);
      attemptNumber := attemptNumber + 1;
      if result {
        return Search(RightWorks(tags[rightIndex]), -1, attemptNumber, leftIndex, rightIndex, [], false);
      }
    }
    r := BisectLoop(tags, leftIndex, rightIndex, works, attemptNumber);
  }
}
