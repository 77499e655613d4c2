/** Small types and sequence facts shared by the models of the separate source files. */
module Prelude {
  datatype Option<+T> = None | Some(value: T)

  function Filter<T(!new)>(s: seq<T>, keep: T -> bool): (r: seq<T>)
    ensures forall x :: x in r <==> x in s && keep(x)
  {
    if s == [] then [] else (if keep(s[0]) then [s[0]] else []) + Filter(s[1..], keep)
  }

  lemma Associative<T>(a: seq<T>, b: seq<T>, c: seq<T>)
    ensures a + b + c == a + (b + c)
  {
  }

  lemma {:induction false} FilterConcat<T(!new)>(a: seq<T>, b: seq<T>, keep: T -> bool)
    ensures Filter(a + b, keep) == Filter(a, keep) + Filter(b, keep)
  {
    if a == [] {
      assert a + b == b;
    } else {
      var head: seq<T> := if keep(a[0]) then [a[0]] else [];
      var x, y := Filter(a[1..], keep), Filter(b, keep);
      FilterConcat(a[1..], b, keep);
      assert (a + b)[1..] == a[1..] + b;
      Associative(head, x, y);
    }
  }

  lemma FilterSnoc<T(!new)>(s: seq<T>, x: T, keep: T -> bool)
    ensures Filter(s + [x], keep) == if keep(x) then Filter(s, keep) + [x] else Filter(s, keep)
  {
    FilterConcat(s, [x], keep);
  }

  /** `at` lists, in order, the positions of `s` that pass: the filtered sequence is read off at them. */
  ghost predicate FilteredAt<T(!new)>(s: seq<T>, keep: T -> bool, r: seq<T>, at: seq<nat>) {
    && |at| == |r|
    && (forall n :: 0 <= n < |at| ==> at[n] < |s| && s[at[n]] == r[n])
    && (forall m, n :: 0 <= m < n < |at| ==> at[m] < at[n])
    && (forall k: nat :: k < |s| && keep(s[k]) ==> k in at)
  }

  lemma {:induction false} FilterPositions<T(!new)>(s: seq<T>, keep: T -> bool) returns (at: seq<nat>)
    ensures FilteredAt(s, keep, Filter(s, keep), at)
  {
    at := [];
    if s != [] {
      var n := |s| - 1;
      var init := s[..n];
      var before := FilterPositions(init, keep);
      assert s == init + [s[n]];
      FilterSnoc(init, s[n], keep);
      at := if keep(s[n]) then before + [n] else before;
      FilteredSnoc(init, s[n], keep, Filter(init, keep), before);
    }
  }

  lemma FilteredSnoc<T(!new)>(s: seq<T>, x: T, keep: T -> bool, r: seq<T>, at: seq<nat>)
    requires FilteredAt(s, keep, r, at)
    ensures if keep(x) then FilteredAt(s + [x], keep, r + [x], at + [|s|]) else FilteredAt(s + [x], keep, r, at)
  {
    if keep(x) {
      assert (at + [|s|])[|at|] == |s|;
      assert forall k :: k in at ==> k in at + [|s|];
    }
  }

  // ---------------------------------------------------------------- the latest event

  /** The latest event of the trace that begins or ends something begins it. */
  ghost predicate BegunLast<E>(trace: seq<E>, begins: E -> bool, ends: E -> bool) {
    exists i :: 0 <= i < |trace| && begins(trace[i]) && forall j :: i < j < |trace| ==> !ends(trace[j])
  }

  lemma BegunLastSnoc<E>(before: seq<E>, e: E, begins: E -> bool, ends: E -> bool)
    ensures BegunLast(before + [e], begins, ends) <==> begins(e) || (BegunLast(before, begins, ends) && !ends(e))
  {
    var trace, n := before + [e], |before|;
    if BegunLast(trace, begins, ends) {
      var i :| 0 <= i < |trace| && begins(trace[i]) && forall j :: i < j < |trace| ==> !ends(trace[j]);
      if i < n {
        assert trace[n] == e && before[i] == trace[i] && forall j :: i < j < n ==> before[j] == trace[j];
      }
    }
    if begins(e) {
      assert trace[n] == e;
    }
    if BegunLast(before, begins, ends) && !ends(e) {
      var i :| 0 <= i < n && begins(before[i]) && forall j :: i < j < n ==> !ends(before[j]);
      assert trace[i] == before[i] && forall j :: i < j < n ==> trace[j] == before[j];
    }
  }
}
