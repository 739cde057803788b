/** `filterContentForSearchText`'s selection: the tasks one of whose four
    fields contains the query, ignoring case, kept in their original order. */
module TaskFilter {
  import opened Text
  import opened Tasks

  /** `s.filter(keep)`: the elements `keep` accepts, in their order. Every
      kept element is accepted. */
  function Select<T>(s: seq<T>, keep: T -> bool): (r: seq<T>)
    ensures |r| <= |s|
    ensures forall k :: 0 <= k < |r| ==> keep(r[k])
    decreases |s|
  {
    if s == [] then []
    else
      var init := Select(s[..|s| - 1], keep);
      var last := s[|s| - 1];
      if keep(last) then init + [last] else init
  }

  /** The positions of `s` that `keep` accepts: ascending, and exactly the
      accepted ones. */
  ghost function KeptPositions<T>(s: seq<T>, keep: T -> bool): (ps: seq<nat>)
    ensures forall k :: 0 <= k < |ps| ==> ps[k] < |s| && keep(s[ps[k]])
    ensures forall k, l :: 0 <= k < l < |ps| ==> ps[k] < ps[l]
    ensures forall j :: 0 <= j < |s| && keep(s[j]) ==> j in ps
    decreases |s|
  {
    if s == [] then []
    else
      var init := KeptPositions(s[..|s| - 1], keep);
      if keep(s[|s| - 1]) then init + [|s| - 1] else init
  }

  /** The selection is an order-preserving subsequence: its k-th element is
      the element at the k-th accepted position. */
  lemma {:induction false} SelectKeepsPositions<T>(s: seq<T>, keep: T -> bool)
    ensures |Select(s, keep)| == |KeptPositions(s, keep)|
    ensures forall k :: 0 <= k < |Select(s, keep)| ==>
              Select(s, keep)[k] == s[KeptPositions(s, keep)[k]]
    decreases |s|
  {
    if s != [] {
      var init, last := s[..|s| - 1], s[|s| - 1];
      SelectKeepsPositions(init, keep);
      var ri, pi := Select(init, keep), KeptPositions(init, keep);
      var r, p := Select(s, keep), KeptPositions(s, keep);
      if keep(last) {
        assert r == ri + [last] && p == pi + [|s| - 1];
      } else {
        assert r == ri && p == pi;
      }
      forall k | 0 <= k < |r|
        ensures r[k] == s[p[k]]
      {
        if k < |ri| {
          assert r[k] == ri[k] && p[k] == pi[k] < |init|;
        }
      }
    }
  }

  /** An element is selected iff it is in `s` and accepted. */
  lemma SelectMembership<T>(s: seq<T>, keep: T -> bool, x: T)
    ensures x in Select(s, keep) <==> x in s && keep(x)
  {
    SelectKeepsPositions(s, keep);
    var ps := KeptPositions(s, keep);
    if x in s && keep(x) {
      var j :| 0 <= j < |s| && s[j] == x;
      assert j in ps;
      var k :| 0 <= k < |ps| && ps[k] == j;
      assert Select(s, keep)[k] == x;
    }
  }

  /** Selecting from a concatenation selects from each part. */
  lemma {:induction false} SelectConcat<T>(a: seq<T>, b: seq<T>, keep: T -> bool)
    ensures Select(a + b, keep) == Select(a, keep) + Select(b, keep)
    decreases |b|
  {
    if b == [] {
      assert a + b == a;
    } else {
      var b' := b[..|b| - 1];
      SelectConcat(a, b', keep);
      assert (a + b)[..|a + b| - 1] == a + b';
    }
  }

  /** Selecting again with the same closure changes nothing. */
  lemma {:induction false} SelectIdempotent<T>(s: seq<T>, keep: T -> bool)
    ensures Select(Select(s, keep), keep) == Select(s, keep)
    decreases |s|
  {
    if s != [] {
      var init, last := s[..|s| - 1], s[|s| - 1];
      SelectIdempotent(init, keep);
      if keep(last) {
        SelectConcat(Select(init, keep), [last], keep);
        assert Select([last], keep) == [last] by {
          assert [last][..0] == [];
        }
      }
    }
  }

  /** Closures that agree on every element of `s` select the same elements. */
  lemma {:induction false} SelectAgreeing<T>(s: seq<T>, keep1: T -> bool, keep2: T -> bool)
    requires forall k :: 0 <= k < |s| ==> keep1(s[k]) == keep2(s[k])
    ensures Select(s, keep1) == Select(s, keep2)
    decreases |s|
  {
    if s != [] {
      SelectAgreeing(s[..|s| - 1], keep1, keep2);
    }
  }

  /** When every element is accepted, all of `s` is kept. */
  lemma {:induction false} SelectAll<T>(s: seq<T>, keep: T -> bool)
    requires forall k :: 0 <= k < |s| ==> keep(s[k])
    ensures Select(s, keep) == s
    decreases |s|
  {
    if s != [] {
      SelectAll(s[..|s| - 1], keep);
      assert s[..|s| - 1] + [s[|s| - 1]] == s;
    }
  }

  /** When no element is accepted, nothing is kept. */
  lemma SelectNone<T>(s: seq<T>, keep: T -> bool)
    requires forall k :: 0 <= k < |s| ==> !keep(s[k])
    ensures Select(s, keep) == []
  {
    if Select(s, keep) != [] {
      SelectMembership(s, keep, Select(s, keep)[0]);
    }
  }

  /** The closure passed to `tasks.filter`: the lower-cased query occurs in
      the lower-cased title, description, task or colour code, that is, in
      the lower-cased field under one of the four task keys. */
  function Matches(t: Task, q: string): (b: bool)
    ensures b <==> exists key :: IsTaskKey(key) && Contains(Lowercased(FieldOf(t, key)), Lowercased(q))
  {
    var lq := Lowercased(q);
    assert FieldOf(t, "title") == t.title && FieldOf(t, "description") == t.description;
    assert FieldOf(t, "task") == t.task && FieldOf(t, "colorCode") == t.colorCode;
    Contains(Lowercased(t.title), lq) ||
    Contains(Lowercased(t.description), lq) ||
    Contains(Lowercased(t.task), lq) ||
    Contains(Lowercased(t.colorCode), lq)
  }

  /** A query found in the lower-cased title is a match. */
  lemma MatchesByTitle(t: Task, q: string)
    requires Contains(Lowercased(t.title), Lowercased(q))
    ensures Matches(t, q)
  {
  }

  /** The filtered task list for query `q`: every task in it matches `q`. */
  function Filter(ts: seq<Task>, q: string): (r: seq<Task>)
    ensures |r| <= |ts|
    ensures forall k :: 0 <= k < |r| ==> Matches(r[k], q)
  {
    Select(ts, t => Matches(t, q))
  }

  /** A task is in the filtered list iff it is in the list and matches. */
  lemma FilterMembership(ts: seq<Task>, q: string, t: Task)
    ensures t in Filter(ts, q) <==> t in ts && Matches(t, q)
  {
    SelectMembership(ts, t => Matches(t, q), t);
  }

  /** The query's case does not matter: queries that lower-case alike select
      the same tasks. */
  lemma FilterIgnoresQueryCase(ts: seq<Task>, q1: string, q2: string)
    requires Lowercased(q1) == Lowercased(q2)
    ensures Filter(ts, q1) == Filter(ts, q2)
  {
    SelectAgreeing(ts, t => Matches(t, q1), t => Matches(t, q2));
  }

  /** Filtering the filtered list again with the same query changes nothing. */
  lemma FilterIdempotent(ts: seq<Task>, q: string)
    ensures Filter(Filter(ts, q), q) == Filter(ts, q)
  {
    SelectIdempotent(ts, t => Matches(t, q));
  }

  /** When every task matches, the filter keeps the whole list. */
  lemma FilterKeepsAllMatching(ts: seq<Task>, q: string)
    requires forall k :: 0 <= k < |ts| ==> Matches(ts[k], q)
    ensures Filter(ts, q) == ts
  {
    SelectAll(ts, t => Matches(t, q));
  }

  /** When no task matches, the filter is empty. */
  lemma FilterNoneMatching(ts: seq<Task>, q: string)
    requires forall k :: 0 <= k < |ts| ==> !Matches(ts[k], q)
    ensures Filter(ts, q) == []
  {
    SelectNone(ts, t => Matches(t, q));
  }
}
