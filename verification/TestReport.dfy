/** The xunit report: which iteration of a test is shown, and the counts of every suite. */
module TestReport {
  import opened Prelude

  // ---------------------------------------------------------------- choosing an iteration

  datatype Iteration = Iteration(success: bool, snippet: string)

  predicate Contains(s: string, part: string) {
    exists k :: 0 <= k <= |s| && part <= s[k..]
  }

  /** The characters of [\w/#\.], for ASCII text. */
  predicate InTestName(c: char) {
    'a' <= c <= 'z' || 'A' <= c <= 'Z' || '0' <= c <= '9' || c in {'_', '/', '#', '.'}
  }

  const RUN := "[ RUN      ] "

  /** The snippet starts with the line that announces this test. */
  predicate Started(testCase: string, s: string) {
    RUN <= s && exists k :: |RUN| <= k <= |s| && testCase + "\n" <= s[k..]
                            && forall i :: |RUN| <= i < k ==> InTestName(s[i])
  }

  function Score(testCase: string, it: Iteration): nat {
    (if it.success then 1000000 else 0)
    + |it.snippet|
    + (if Started(testCase, it.snippet) then 7500 else 0)
    + (if Contains(it.snippet, "Stack Trace:") then 2500 else 0)
    + (if Contains(it.snippet, "Expected:") then 2500 else 0)
    + (if Contains(it.snippet, "Actual:") then 2500 else 0)
  }

  ghost predicate Occurs(part: string, s: string) {
    exists before, after :: s == before + part + after
  }

  lemma ContainsExactly(s: string, part: string)
    ensures Contains(s, part) <==> Occurs(part, s)
  {
    if Contains(s, part) {
      var k :| 0 <= k <= |s| && part <= s[k..];
      assert s[..k] + part + s[k..][|part|..] == s;
    }
    if before, after :| s == before + part + after {
      ContainsMiddle(before, part, after);
    }
  }

  /** A digit, an upper-case or lower-case letter, an underscore, a slash, a hash or a dot, by its ASCII code. */
  predicate NameCharacter(code: int) {
    0x30 <= code <= 0x39 || 0x41 <= code <= 0x5A || 0x61 <= code <= 0x7A || code in {0x5F, 0x2F, 0x23, 0x2E}
  }

  /** The line that announces the test, whose name may have a suite or a path in front. */
  ghost predicate Announces(testCase: string, s: string) {
    exists front, after ::
      && s == "[ RUN      ] " + front + testCase + "\n" + after
      && forall c :: c in front ==> NameCharacter(c as int)
  }

  lemma StartedExactly(testCase: string, s: string)
    ensures Started(testCase, s) <==> Announces(testCase, s)
  {
    if Started(testCase, s) {
      var k :| |RUN| <= k <= |s| && testCase + "\n" <= s[k..] && forall i :: |RUN| <= i < k ==> InTestName(s[i]);
      StartedAnnounces(testCase, s, k);
    }
    forall front, after | (forall c :: c in front ==> NameCharacter(c as int))
                          && s == "[ RUN      ] " + front + testCase + "\n" + after
      ensures Started(testCase, s)
    {
      AnnouncedStarts(front, testCase, after);
    }
  }

  lemma StartedAnnounces(testCase: string, s: string, k: nat)
    requires RUN <= s && |RUN| <= k <= |s| && testCase + "\n" <= s[k..]
    requires forall i :: |RUN| <= i < k ==> InTestName(s[i])
    ensures Announces(testCase, s)
  {
    var front, after := s[|RUN|..k], s[k..][|testCase| + 1..];
    assert s[k..] == testCase + "\n" + after;
    assert s == "[ RUN      ] " + front + testCase + "\n" + after;
  }

  lemma AnnouncedStarts(front: string, testCase: string, after: string)
    requires forall c :: c in front ==> NameCharacter(c as int)
    ensures Started(testCase, "[ RUN      ] " + front + testCase + "\n" + after)
  {
    var s := RUN + front + testCase + "\n" + after;
    var k := |RUN| + |front|;
    assert s[k..] == testCase + "\n" + after && testCase + "\n" <= s[k..];
    forall i | |RUN| <= i < k ensures InTestName(s[i]) {
      assert s[i] == front[i - |RUN|] && s[i] in front;
    }
  }

  /** How many of the markers the snippet has, the announcement of its own test counting for three. */
  ghost function Weight(testCase: string, s: string): nat {
    (if Announces(testCase, s) then 3 else 0) + (if Occurs("Stack Trace:", s) then 1 else 0)
    + (if Occurs("Expected:", s) then 1 else 0) + (if Occurs("Actual:", s) then 1 else 0)
  }

  /**
    Which of two iterations is preferred: every unit of weight makes up for 2500 characters, and success for 400
    such units.
   */
  lemma PreferredExactly(testCase: string, a: Iteration, b: Iteration)
    ensures Score(testCase, a) > Score(testCase, b) <==>
            2500 * (Weight(testCase, a.snippet) - Weight(testCase, b.snippet)
                    + (if a.success then 400 else 0) - (if b.success then 400 else 0))
            > |b.snippet| - |a.snippet|
  {
    ScoreByWeight(testCase, a);
    ScoreByWeight(testCase, b);
  }

  lemma ScoreByWeight(testCase: string, it: Iteration)
    ensures Score(testCase, it)
         == |it.snippet| + 2500 * (Weight(testCase, it.snippet) + if it.success then 400 else 0)
  {
    var s := it.snippet;
    StartedExactly(testCase, s);
    ContainsExactly(s, "Stack Trace:");
    ContainsExactly(s, "Expected:");
    ContainsExactly(s, "Actual:");
  }

  /** sorted(..., key, reverse=True): descending, and stable, so equal keys keep their order. */
  function SortDescending<T>(s: seq<T>, key: T -> int): (r: seq<T>)
    ensures |r| == |s| && Descending(r, key) && multiset(r) == multiset(s)
  {
    if s == [] then []
    else
      assert s == [s[0]] + s[1..];
      Insert(s[0], SortDescending(s[1..], key), key)
  }

  predicate Descending<T>(s: seq<T>, key: T -> int) {
    |s| >= 2 ==> key(s[0]) >= key(s[1]) && Descending(s[1..], key)
  }

  /** In front of everything whose key is not higher. */
  function Insert<T>(x: T, sorted: seq<T>, key: T -> int): (r: seq<T>)
    requires Descending(sorted, key)
    ensures |r| == |sorted| + 1 && Descending(r, key) && multiset(r) == multiset(sorted) + multiset{x}
    ensures r[0] == if sorted == [] || key(x) >= key(sorted[0]) then x else sorted[0]
  {
    if sorted == [] || key(x) >= key(sorted[0]) then
      assert ([x] + sorted)[1..] == sorted;
      [x] + sorted
    else
      assert sorted == [sorted[0]] + sorted[1..];
      var rest := Insert(x, sorted[1..], key);
      assert ([sorted[0]] + rest)[1..] == rest;
      [sorted[0]] + rest
  }

  /** An empty list of iterations raises an IndexError. */
  function PickIteration(testCase: string, its: seq<Iteration>): Option<Iteration> {
    if its == [] then None else Some(SortDescending(its, (it: Iteration) => Score(testCase, it))[0])
  }

  /** The first of the elements with the highest key. */
  ghost predicate EarliestBest<T>(s: seq<T>, key: T -> int, n: nat) {
    && n < |s|
    && (forall k :: 0 <= k < n ==> key(s[k]) < key(s[n]))
    && (forall k :: n <= k < |s| ==> key(s[k]) <= key(s[n]))
  }

  lemma EarliestBestCons<T>(x: T, s: seq<T>, key: T -> int, n: nat)
    requires EarliestBest(s, key, n)
    ensures EarliestBest([x] + s, key, if key(x) < key(s[n]) then n + 1 else 0)
  {
  }

  lemma {:induction false} SortsEarliestBestFirst<T>(s: seq<T>, key: T -> int) returns (n: nat)
    requires s != []
    ensures EarliestBest(s, key, n) && SortDescending(s, key)[0] == s[n]
  {
    var x, tail := s[0], s[1..];
    var sorted := SortDescending(tail, key);
    assert SortDescending(s, key) == Insert(x, sorted, key);
    if tail == [] {
      n := 0;
    } else {
      var m := SortsEarliestBestFirst(tail, key);
      EarliestBestCons(x, tail, key, m);
      assert s == [x] + tail;
      n := if key(x) < key(tail[m]) then m + 1 else 0;
    }
  }

  lemma PicksEarliestBest(testCase: string, its: seq<Iteration>) returns (n: nat)
    requires its != []
    ensures n < |its| && PickIteration(testCase, its) == Some(its[n])
    ensures forall k :: 0 <= k < n ==> Score(testCase, its[k]) < Score(testCase, its[n])
    ensures forall k :: n <= k < |its| ==> Score(testCase, its[k]) <= Score(testCase, its[n])
  {
    n := SortsEarliestBestFirst(its, (it: Iteration) => Score(testCase, it));
  }

  /** Some iteration succeeded, and no failed one has a snippet longer than `limit`. */
  ghost predicate Eligible(its: seq<Iteration>, limit: nat) {
    (exists it :: it in its && it.success) && forall it :: it in its && !it.success ==> |it.snippet| <= limit
  }

  /**
    A success is always preferred to failures whose snippets are shorter than 985000 characters, and that
    length is the exact limit.
   */
  lemma SuccessPreferredExactly(limit: nat)
    ensures limit < 985000
       <==> forall testCase, its :: Eligible(its, limit) ==> PickIteration(testCase, its).value.success
  {
    if limit < 985000 {
      forall testCase: string, its: seq<Iteration> | Eligible(its, limit)
        ensures PickIteration(testCase, its).value.success
      {
        var it :| it in its && it.success;
        var n := PicksEarliestBest(testCase, its);
        assert Score(testCase, it) >= 1000000;
        assert Score(testCase, it) <= Score(testCase, its[n]);
        assert its[n] in its;
      }
    } else {
      FailurePreferred(limit);
    }
  }

  /** A failure with every marker and a long enough snippet ties with a silent success that comes after it. */
  lemma FailurePreferred(limit: nat)
    requires limit >= 985000
    ensures exists its: seq<Iteration> :: Eligible(its, limit) && !PickIteration("t", its).value.success
  {
    var filler: string := seq(985000 - 43, _ => 'x');
    var failure, success := Iteration(false, LoudSnippet(filler)), Iteration(true, "");
    LoudScore(filler);
    var its := [failure, success];
    assert success in its && failure in its;
    var n := PicksEarliestBest("t", its);
    SilentScore();
    assert its[1] == success && its[0] == failure;
    assert n == 0;
    assert Eligible(its, limit) && !PickIteration("t", its).value.success;
  }

  function LoudSnippet(filler: string): string {
    RUN + "t\n" + "Stack Trace:" + "Expected:" + "Actual:" + filler
  }

  lemma LoudScore(filler: string)
    ensures Score("t", Iteration(false, LoudSnippet(filler))) == |filler| + 43 + 15000
  {
    LoudStarted(filler);
    LoudMarkers(filler);
  }

  lemma LoudStarted(filler: string)
    ensures Started("t", LoudSnippet(filler))
  {
    var s, n := LoudSnippet(filler), |RUN|;
    assert s[n..] == "t\n" + ("Stack Trace:" + "Expected:" + "Actual:" + filler);
    assert "t" + "\n" <= s[n..];
  }

  lemma LoudMarkers(filler: string)
    ensures Contains(LoudSnippet(filler), "Stack Trace:")
    ensures Contains(LoudSnippet(filler), "Expected:")
    ensures Contains(LoudSnippet(filler), "Actual:")
  {
    var a := RUN + "t\n";
    var b := a + "Stack Trace:";
    var c := b + "Expected:";
    ContainsMiddle(a, "Stack Trace:", "Expected:" + "Actual:" + filler);
    assert b + ("Expected:" + "Actual:" + filler) == LoudSnippet(filler);
    ContainsMiddle(b, "Expected:", "Actual:" + filler);
    assert c + ("Actual:" + filler) == LoudSnippet(filler);
    ContainsMiddle(c, "Actual:", filler);
  }

  lemma ContainsMiddle(before: string, part: string, after: string)
    ensures Contains(before + part + after, part)
  {
    var s := before + part + after;
    assert s[|before|..] == part + after;
    assert part <= s[|before|..];
  }

  lemma SilentScore()
    ensures Score("t", Iteration(true, "")) == 1000000
  {
    assert !Contains("", "Stack Trace:") && !Contains("", "Expected:") && !Contains("", "Actual:");
  }

  // ---------------------------------------------------------------- counting

  datatype Test = Test(fullName: string, iterations: seq<Iteration>)
  datatype Verdict = Verdict(suite: string, success: bool)
  datatype Row = Row(suite: string, tests: nat, failures: nat)

  function Delimiter(name: string): char {
    if '#' in name then '#' else if '/' in name then '/' else '.'
  }

  /** rsplit at the last delimiter; None when there is none, which raises. */
  function RSplit(name: string, c: char): Option<(string, string)> {
    if name == "" then None
    else if name[|name| - 1] == c then Some((name[..|name| - 1], ""))
    else match RSplit(name[..|name| - 1], c)
      case None => None
      case Some((suite, rest)) => Some((suite, rest + [name[|name| - 1]]))
  }

  lemma {:induction false} RSplitAtLast(name: string, c: char)
    ensures match RSplit(name, c)
            case None => c !in name
            case Some((suite, rest)) => name == suite + [c] + rest && c !in rest
  {
    if name != "" {
      var n := |name| - 1;
      RSplitAtLast(name[..n], c);
      assert name == name[..n] + [name[n]];
    }
  }

  /** None when the test makes the whole transformation raise. */
  function Judge(t: Test): Option<Verdict> {
    match RSplit(t.fullName, Delimiter(t.fullName))
    case None => None
    case Some((suite, testCase)) =>
      match PickIteration(testCase, t.iterations)
      case None => None
      case Some(it) => Some(Verdict(suite, it.success))
  }

  /** The name is cut at its last delimiter: a hash if it has one, else a slash, else a dot. */
  ghost predicate IsSplit(name: string, suite: string, testCase: string) {
    || (name == suite + "#" + testCase && '#' !in testCase)
    || (name == suite + "/" + testCase && '/' !in testCase && '#' !in name)
    || (name == suite + "." + testCase && '.' !in testCase && '#' !in name && '/' !in name)
  }

  /** The verdict of the earliest of the test's iterations with the highest score. */
  ghost predicate IsVerdict(t: Test, v: Verdict) {
    exists testCase, n: nat ::
      && IsSplit(t.fullName, v.suite, testCase)
      && EarliestBest(t.iterations, (it: Iteration) => Score(testCase, it), n)
      && v.success == t.iterations[n].success
  }

  /** There is no iteration to pick from, or no delimiter to split the name at. */
  predicate Raises(t: Test) {
    t.iterations == [] || ('#' !in t.fullName && '/' !in t.fullName && '.' !in t.fullName)
  }

  lemma {:induction false} RSplitUnique(suite: string, c: char, rest: string)
    requires c !in rest
    ensures RSplit(suite + [c] + rest, c) == Some((suite, rest))
  {
    var name, n := suite + [c] + rest, |suite| + |rest|;
    if rest == [] {
      assert name[..n] == suite;
    } else {
      var last := |rest| - 1;
      assert rest[last] in rest && name[n] == rest[last];
      assert name[..n] == suite + [c] + rest[..last];
      assert forall x :: x in rest[..last] ==> x in rest;
      RSplitUnique(suite, c, rest[..last]);
      assert rest == rest[..last] + [rest[last]];
    }
  }

  lemma SplitExactly(name: string, suite: string, testCase: string)
    ensures RSplit(name, Delimiter(name)) == Some((suite, testCase)) <==> IsSplit(name, suite, testCase)
  {
    var c := Delimiter(name);
    RSplitAtLast(name, c);
    if IsSplit(name, suite, testCase) {
      var d := name[|suite|];
      assert name == suite + [d] + testCase && d in name;
      RSplitUnique(suite, d, testCase);
    }
  }

  lemma PickUnique(testCase: string, its: seq<Iteration>, n: nat)
    requires EarliestBest(its, (it: Iteration) => Score(testCase, it), n)
    ensures PickIteration(testCase, its) == Some(its[n])
  {
    var m := SortsEarliestBestFirst(its, (it: Iteration) => Score(testCase, it));
    assert !(m < n) && !(n < m);
  }

  lemma JudgeExactly(t: Test, v: Verdict)
    ensures Judge(t) == Some(v) <==> IsVerdict(t, v)
  {
    if Judge(t) == Some(v) {
      var testCase := RSplit(t.fullName, Delimiter(t.fullName)).value.1;
      SplitExactly(t.fullName, v.suite, testCase);
      var n := SortsEarliestBestFirst(t.iterations, (it: Iteration) => Score(testCase, it));
      PickUnique(testCase, t.iterations, n);
    }
    if IsVerdict(t, v) {
      var testCase, n: nat :|
        && IsSplit(t.fullName, v.suite, testCase)
        && EarliestBest(t.iterations, (it: Iteration) => Score(testCase, it), n)
        && v.success == t.iterations[n].success;
      SplitExactly(t.fullName, v.suite, testCase);
      PickUnique(testCase, t.iterations, n);
    }
  }

  lemma RaisesExactly(t: Test)
    ensures Judge(t).None? <==> Raises(t)
  {
    RSplitAtLast(t.fullName, Delimiter(t.fullName));
  }

  function SumTests(rows: seq<Row>): nat {
    if rows == [] then 0 else rows[0].tests + SumTests(rows[1..])
  }

  function SumFailures(rows: seq<Row>): nat {
    if rows == [] then 0 else rows[0].failures + SumFailures(rows[1..])
  }

  function OfSuite(vs: seq<Verdict>, suite: string): seq<Verdict> {
    Filter(vs, (v: Verdict) => v.suite == suite)
  }

  function Failed(vs: seq<Verdict>): seq<Verdict> {
    Filter(vs, (v: Verdict) => !v.success)
  }

  /** The row counts the tests and the failures of its own suite. */
  predicate RowCounts(r: Row, vs: seq<Verdict>) {
    r.tests == |OfSuite(vs, r.suite)| && r.failures == |Failed(OfSuite(vs, r.suite))|
  }

  ghost predicate OneRowEach(rows: seq<Row>, vs: seq<Verdict>) {
    && (forall i, j :: 0 <= i < j < |rows| ==> rows[i].suite != rows[j].suite)
    && (forall v :: v in vs ==> exists i :: 0 <= i < |rows| && rows[i].suite == v.suite)
  }

  ghost predicate AllCount(rows: seq<Row>, vs: seq<Verdict>) {
    forall k :: 0 <= k < |rows| ==> RowCounts(rows[k], vs) && rows[k].tests >= 1
  }

  /** The rows come in the order in which their suites first appear. */
  ghost predicate InOrder(rows: seq<Row>, vs: seq<Verdict>) {
    forall i, j :: 0 <= i < j < |rows| ==> AppearsFirst(rows[i].suite, rows[j].suite, vs)
  }

  ghost predicate AppearsFirst(suite: string, other: string, vs: seq<Verdict>) {
    exists p :: 0 <= p < |vs| && vs[p].suite == suite && forall q :: 0 <= q <= p ==> vs[q].suite != other
  }

  /** Every suite has one row with its own counts, and the totals count every test and failure once. */
  ghost predicate Tallied(rows: seq<Row>, vs: seq<Verdict>) {
    && OneRowEach(rows, vs)
    && InOrder(rows, vs)
    && AllCount(rows, vs)
    && SumTests(rows) == |vs|
    && SumFailures(rows) == |Failed(vs)|
  }

  /** The row of the suite counts one more test, and is created by the first. */
  function Bump(rows: seq<Row>, v: Verdict): seq<Row> {
    if rows == [] then [Counted(Row(v.suite, 0, 0), v)]
    else if rows[0].suite == v.suite then [Counted(rows[0], v)] + rows[1..]
    else [rows[0]] + Bump(rows[1..], v)
  }

  function Counted(r: Row, v: Verdict): Row {
    r.(tests := r.tests + 1, failures := r.failures + if v.success then 0 else 1)
  }

  lemma {:induction false} BumpAt(rows: seq<Row>, v: Verdict) returns (n: nat)
    ensures n <= |rows| && forall k :: 0 <= k < n ==> rows[k].suite != v.suite
    ensures n < |rows| ==> rows[n].suite == v.suite
    ensures |Bump(rows, v)| == if n < |rows| then |rows| else |rows| + 1
    ensures Bump(rows, v)[n] == Counted(if n < |rows| then rows[n] else Row(v.suite, 0, 0), v)
    ensures forall k :: 0 <= k < |rows| && k != n ==> Bump(rows, v)[k] == rows[k]
  {
    n := 0;
    if rows != [] && rows[0].suite != v.suite {
      var tail := rows[1..];
      var m := BumpAt(tail, v);
      n := m + 1;
      assert rows == [rows[0]] + tail;
      assert Bump(rows, v) == [rows[0]] + Bump(tail, v);
    }
  }

  lemma {:induction false} BumpSums(rows: seq<Row>, v: Verdict)
    ensures SumTests(Bump(rows, v)) == SumTests(rows) + 1
    ensures SumFailures(Bump(rows, v)) == SumFailures(rows) + if v.success then 0 else 1
  {
    if rows != [] && rows[0].suite != v.suite {
      BumpSums(rows[1..], v);
    }
  }

  lemma {:induction false} NoVerdict(vs: seq<Verdict>, suite: string)
    requires forall v :: v in vs ==> v.suite != suite
    ensures OfSuite(vs, suite) == []
  {
    if vs != [] {
      NoVerdict(vs[1..], suite);
    }
  }

  lemma RowCountsSnoc(r: Row, vs: seq<Verdict>, v: Verdict)
    requires RowCounts(r, vs)
    ensures RowCounts(if r.suite == v.suite then Counted(r, v) else r, vs + [v])
  {
    FilterSnoc(vs, v, (w: Verdict) => w.suite == r.suite);
    if r.suite == v.suite {
      FilterSnoc(OfSuite(vs, r.suite), v, (w: Verdict) => !w.success);
    }
  }

  lemma OneRowEachBump(rows: seq<Row>, vs: seq<Verdict>, v: Verdict)
    requires OneRowEach(rows, vs)
    ensures OneRowEach(Bump(rows, v), vs + [v])
  {
    var after := Bump(rows, v);
    var n := BumpAt(rows, v);
    forall w | w in vs + [v] ensures exists i :: 0 <= i < |after| && after[i].suite == w.suite {
      if w in vs {
        var i :| 0 <= i < |rows| && rows[i].suite == w.suite;
        assert after[i].suite == w.suite;
      } else {
        assert after[n].suite == v.suite;
      }
    }
  }

  lemma AllCountBump(rows: seq<Row>, vs: seq<Verdict>, v: Verdict)
    requires AllCount(rows, vs) && OneRowEach(rows, vs)
    ensures AllCount(Bump(rows, v), vs + [v])
  {
    var after := Bump(rows, v);
    var n := BumpAt(rows, v);
    forall k | 0 <= k < |after| ensures RowCounts(after[k], vs + [v]) && after[k].tests >= 1 {
      if k < |rows| {
        RowCountsSnoc(rows[k], vs, v);
      } else {
        NoVerdict(vs, v.suite);
        RowCountsSnoc(Row(v.suite, 0, 0), vs, v);
      }
    }
  }

  lemma AppearsFirstSnoc(suite: string, other: string, vs: seq<Verdict>, v: Verdict)
    requires AppearsFirst(suite, other, vs)
    ensures AppearsFirst(suite, other, vs + [v])
  {
    var p :| 0 <= p < |vs| && vs[p].suite == suite && forall q :: 0 <= q <= p ==> vs[q].suite != other;
    assert (vs + [v])[p] == vs[p] && forall q :: 0 <= q <= p ==> (vs + [v])[q] == vs[q];
  }

  /** A suite that has not appeared yet comes after every suite that has a row. */
  lemma NewComesLast(r: Row, vs: seq<Verdict>, v: Verdict)
    requires RowCounts(r, vs) && r.tests >= 1 && forall w :: w in vs ==> w.suite != v.suite
    ensures AppearsFirst(r.suite, v.suite, vs)
  {
    assert OfSuite(vs, r.suite)[0] in OfSuite(vs, r.suite);
    var p :| 0 <= p < |vs| && vs[p].suite == r.suite;
  }

  lemma InOrderBump(rows: seq<Row>, vs: seq<Verdict>, v: Verdict)
    requires InOrder(rows, vs) && AllCount(rows, vs) && OneRowEach(rows, vs)
    ensures InOrder(Bump(rows, v), vs + [v])
  {
    var after := Bump(rows, v);
    var n := BumpAt(rows, v);
    forall i, j | 0 <= i < j < |after| ensures AppearsFirst(after[i].suite, after[j].suite, vs + [v]) {
      if j == |rows| {
        NewComesLast(rows[i], vs, v);
      }
      AppearsFirstSnoc(after[i].suite, after[j].suite, vs, v);
    }
  }

  lemma TalliedBump(rows: seq<Row>, vs: seq<Verdict>, v: Verdict)
    requires Tallied(rows, vs)
    ensures Tallied(Bump(rows, v), vs + [v])
  {
    BumpSums(rows, v);
    OneRowEachBump(rows, vs, v);
    InOrderBump(rows, vs, v);
    AllCountBump(rows, vs, v);
    FilterSnoc(vs, v, (w: Verdict) => !w.success);
  }

  /** `verdicts` judges the first tests one by one, and none of them makes the transformation raise. */
  ghost predicate Judges(tests: seq<Test>, verdicts: seq<Verdict>) {
    |verdicts| <= |tests| && forall k :: 0 <= k < |verdicts| ==> IsVerdict(tests[k], verdicts[k])
  }

  lemma TalliedEmpty()
    ensures Tallied([], [])
  {
  }

  lemma JudgesSnoc(tests: seq<Test>, verdicts: seq<Verdict>, v: Verdict)
    requires Judges(tests, verdicts) && |verdicts| < |tests| && IsVerdict(tests[|verdicts|], v)
    ensures Judges(tests, verdicts + [v])
  {
  }

  /** One more test that does not raise. */
  lemma JudgedTally(tests: seq<Test>, verdicts: seq<Verdict>, rows: seq<Row>, v: Verdict)
    requires Judges(tests, verdicts) && Tallied(rows, verdicts)
    requires |verdicts| < |tests| && Judge(tests[|verdicts|]) == Some(v)
    ensures Judges(tests, verdicts + [v]) && Tallied(Bump(rows, v), verdicts + [v])
  {
    JudgeExactly(tests[|verdicts|], v);
    JudgesSnoc(tests, verdicts, v);
    TalliedBump(rows, verdicts, v);
  }

  /** The rows tally the verdicts of all tests, whatever these are taken to be. */
  ghost predicate Reports(tests: seq<Test>, rows: seq<Row>) {
    && (exists verdicts :: Judges(tests, verdicts) && |verdicts| == |tests|)
    && (forall verdicts :: Judges(tests, verdicts) && |verdicts| == |tests| ==> Tallied(rows, verdicts))
  }

  lemma AllJudged(tests: seq<Test>, verdicts: seq<Verdict>, rows: seq<Row>)
    requires Judges(tests, verdicts) && |verdicts| == |tests| && Tallied(rows, verdicts)
    ensures Reports(tests, rows) && forall k :: 0 <= k < |tests| ==> !Raises(tests[k])
  {
    forall vs | Judges(tests, vs) && |vs| == |tests| ensures vs == verdicts {
      JudgesUnique(tests, vs, verdicts);
    }
    forall k | 0 <= k < |tests| ensures !Raises(tests[k]) {
      JudgeExactly(tests[k], verdicts[k]);
      RaisesExactly(tests[k]);
    }
  }

  /** The loop of transform; None when some test makes it raise. */
  method Transform(tests: seq<Test>) returns (r: Option<seq<Row>>)
    ensures r.None? <==> exists k :: 0 <= k < |tests| && Raises(tests[k])
    ensures r.Some? ==> Reports(tests, r.value)
  {
    var rows: seq<Row> := [];
    ghost var verdicts: seq<Verdict> := [];
    TalliedEmpty();
    for n := 0 to |tests|
      invariant |verdicts| == n && Judges(tests, verdicts) && Tallied(rows, verdicts)
    {
      var verdict := Judge(tests[n]);
      if verdict.None? {
        RaisesExactly(tests[n]);
        return None;
      }
      JudgedTally(tests, verdicts, rows, verdict.value);
      rows := Bump(rows, verdict.value);
      verdicts := verdicts + [verdict.value];
    }
    AllJudged(tests, verdicts, rows);
    r := Some(rows);
  }

  lemma JudgesUnique(tests: seq<Test>, a: seq<Verdict>, b: seq<Verdict>)
    requires Judges(tests, a) && Judges(tests, b) && |a| == |b|
    ensures a == b
  {
    forall k | 0 <= k < |a| ensures a[k] == b[k] {
      JudgeExactly(tests[k], a[k]);
      JudgeExactly(tests[k], b[k]);
    }
  }
}
