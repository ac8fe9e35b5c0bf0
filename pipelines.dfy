/** Pipelines of one merge request and the policy that picks the redundant ones
    (the filter, sort and reslice steps of CancelRedundantPipelinesByMR).
    Statuses are an open set of strings: only the five listed in
    ExcludedStatuses are terminal, every other value counts as active. */
module Pipelines {

  datatype Pipeline = Pipeline(id: int, status: string)

  /** The statuses whose pipelines are never cancelled. */
  const ExcludedStatuses: set<string> := {"success", "failed", "canceled", "skipped", "scheduled"}

  predicate IsExcluded(status: string)
  {
    status in ExcludedStatuses
  }

  /** No two entries share an id (the host assigns ids uniquely). */
  predicate DistinctIds(s: seq<Pipeline>)
  {
    forall i, j :: 0 <= i < j < |s| ==> s[i].id != s[j].id
  }

  /** Newest first, ties allowed. */
  predicate Descending(s: seq<Pipeline>)
  {
    forall i, j :: 0 <= i < j < |s| ==> s[i].id >= s[j].id
  }

  /** Newest first, no ties. */
  predicate StrictlyDescending(s: seq<Pipeline>)
  {
    forall i, j :: 0 <= i < j < |s| ==> s[i].id > s[j].id
  }

  // ---------------------------------------------------------------------
  // Filtering

  /** The pipelines whose status is not excluded, in fetch order. */
  function Active(ps: seq<Pipeline>): (r: seq<Pipeline>)
    ensures |r| <= |ps|
  {
    if ps == [] then []
    else
      var last := ps[|ps| - 1];
      Active(ps[..|ps| - 1]) + (if IsExcluded(last.status) then [] else [last])
  }

  /** A pipeline survives filtering exactly when it was fetched and its
      status is not one of the five excluded ones. */
  lemma {:induction false} ActiveMembers(ps: seq<Pipeline>, p: Pipeline)
    ensures p in Active(ps) <==> p in ps && !IsExcluded(p.status)
  {
    if ps != [] {
      var init := ps[..|ps| - 1];
      ActiveMembers(init, p);
      assert ps == init + [ps[|ps| - 1]];
    }
  }

  /** Filtering keeps ids distinct. */
  lemma {:induction false} ActiveDistinct(ps: seq<Pipeline>)
    requires DistinctIds(ps)
    ensures DistinctIds(Active(ps))
  {
    if ps != [] {
      var init := ps[..|ps| - 1];
      var last := ps[|ps| - 1];
      assert DistinctIds(init);
      ActiveDistinct(init);
      var a := Active(init);
      forall q | q in a
        ensures q.id != last.id
      {
        ActiveMembers(init, q);
        var k :| 0 <= k < |init| && init[k] == q;
        assert ps[k] == q;
      }
    }
  }

  // ---------------------------------------------------------------------
  // Sorting, newest first (a reference definition by insertion)

  function Insert(x: Pipeline, s: seq<Pipeline>): (r: seq<Pipeline>)
    ensures multiset(r) == multiset(s) + multiset{x}
  {
    if s == [] || s[0].id <= x.id then [x] + s
    else
      assert s == [s[0]] + s[1..];
      [s[0]] + Insert(x, s[1..])
  }

  /** The pipelines sorted by id, newest first. */
  function SortDesc(s: seq<Pipeline>): (r: seq<Pipeline>)
    ensures multiset(r) == multiset(s)
  {
    if s == [] then []
    else
      assert s == [s[0]] + s[1..];
      Insert(s[0], SortDesc(s[1..]))
  }

  lemma {:induction false} InsertDescending(x: Pipeline, s: seq<Pipeline>)
    requires Descending(s)
    ensures Descending(Insert(x, s))
  {
    if s != [] && s[0].id > x.id {
      InsertDescending(x, s[1..]);
      var t := Insert(x, s[1..]);
      forall q | q in t
        ensures q.id <= s[0].id
      {
        assert q in multiset(t);
      }
    }
  }

  /** SortDesc returns its input ordered newest first. */
  lemma {:induction false} SortDescIsDescending(s: seq<Pipeline>)
    ensures Descending(SortDesc(s))
  {
    if s != [] {
      SortDescIsDescending(s[1..]);
      InsertDescending(s[0], SortDesc(s[1..]));
    }
  }

  lemma {:induction false} InsertStrictlyDescending(x: Pipeline, s: seq<Pipeline>)
    requires StrictlyDescending(s)
    requires forall y :: y in s ==> y.id != x.id
    ensures StrictlyDescending(Insert(x, s))
  {
    if s != [] && s[0].id > x.id {
      InsertStrictlyDescending(x, s[1..]);
      var t := Insert(x, s[1..]);
      forall q | q in t
        ensures q.id < s[0].id
      {
        assert q in multiset(t);
      }
    }
  }

  /** With distinct ids, SortDesc orders strictly newest first. */
  lemma {:induction false} SortDescStrictlyDescending(s: seq<Pipeline>)
    requires DistinctIds(s)
    ensures StrictlyDescending(SortDesc(s))
  {
    if s != [] {
      var rest := s[1..];
      assert DistinctIds(rest);
      SortDescStrictlyDescending(rest);
      var t := SortDesc(rest);
      forall y | y in t
        ensures y.id != s[0].id
      {
        assert y in multiset(t);
        assert y in rest;
        var k :| 0 <= k < |rest| && rest[k] == y;
        assert s[k + 1] == y;
      }
      InsertStrictlyDescending(s[0], t);
    }
  }

  /** Two sorted arrangements of one collection start with the same entry
      when the second has no ties. */
  lemma SortedHeadsAgree(a: seq<Pipeline>, b: seq<Pipeline>)
    requires Descending(a) && StrictlyDescending(b)
    requires multiset(a) == multiset(b) && a != []
    ensures b != [] && a[0] == b[0]
  {
    assert a[0] in multiset(b);
    var j :| 0 <= j < |b| && b[j] == a[0];
    assert b[0] in multiset(a);
    var i :| 0 <= i < |a| && a[i] == b[0];
    assert a[0].id >= a[i].id;
    if j != 0 {
      assert false;
    }
  }

  lemma TailsSameMultiset(a: seq<Pipeline>, b: seq<Pipeline>)
    requires multiset(a) == multiset(b) && a != [] && b != [] && a[0] == b[0]
    ensures multiset(a[1..]) == multiset(b[1..])
  {
    assert a == [a[0]] + a[1..];
    assert b == [b[0]] + b[1..];
    assert multiset(a[1..]) == multiset(a) - multiset{a[0]};
    assert multiset(b[1..]) == multiset(b) - multiset{b[0]};
  }

  /** A newest-first arrangement of a collection with distinct ids is unique:
      any sorted permutation equals the strictly sorted one. */
  lemma {:induction false} SortedPermutationUnique(a: seq<Pipeline>, b: seq<Pipeline>)
    requires Descending(a) && StrictlyDescending(b)
    requires multiset(a) == multiset(b)
    ensures a == b
  {
    if a == [] {
      assert |multiset(b)| == 0;
    } else {
      SortedHeadsAgree(a, b);
      TailsSameMultiset(a, b);
      SortedPermutationUnique(a[1..], b[1..]);
      assert a == [a[0]] + a[1..];
      assert b == [b[0]] + b[1..];
    }
  }

  // ---------------------------------------------------------------------
  // Choosing the redundant pipelines

  /** The largest id among a non-empty collection of pipelines. */
  function MaxId(s: seq<Pipeline>): (r: int)
    requires s != []
    ensures forall p :: p in s ==> p.id <= r
    ensures exists p :: p in s && p.id == r
  {
    if |s| == 1 then s[0].id
    else
      var m := MaxId(s[1..]);
      assert s == [s[0]] + s[1..];
      if s[0].id >= m then s[0].id else m
  }

  /** The reslicing step applied to the newest-first active list: on an
      "update" every pipeline but the first is redundant; on any other
      action all of them are. */
  function ChooseRedundant(sorted: seq<Pipeline>, action: string): seq<Pipeline>
  {
    if action == "update" then
      if |sorted| > 1 then sorted[1..] else []
    else sorted
  }

  /** The pipelines CancelRedundantPipelinesByMR cancels, in cancel order. */
  function SelectRedundant(ps: seq<Pipeline>, action: string): seq<Pipeline>
  {
    ChooseRedundant(SortDesc(Active(ps)), action)
  }

  /** Selection invents nothing and never picks a terminal pipeline. */
  lemma SelectedAreFetchedAndActive(ps: seq<Pipeline>, action: string, p: Pipeline)
    requires p in SelectRedundant(ps, action)
    ensures p in ps && !IsExcluded(p.status)
  {
    var sorted := SortDesc(Active(ps));
    assert p in sorted;
    assert p in multiset(Active(ps));
    ActiveMembers(ps, p);
  }

  /** When every fetched pipeline is terminal nothing is selected, whatever the action. */
  lemma AllTerminalSelectsNothing(ps: seq<Pipeline>, action: string)
    requires forall p :: p in ps ==> IsExcluded(p.status)
    ensures SelectRedundant(ps, action) == []
  {
    var r := SelectRedundant(ps, action);
    if r != [] {
      SelectedAreFetchedAndActive(ps, action, r[0]);
    }
  }

  /** For any action other than "update" the selection holds exactly the
      active pipelines, unrecognised statuses included. */
  lemma NonUpdateSelectsAllActive(ps: seq<Pipeline>, action: string, p: Pipeline)
    requires action != "update"
    ensures p in SelectRedundant(ps, action) <==> p in ps && !IsExcluded(p.status)
    ensures multiset(SelectRedundant(ps, action)) == multiset(Active(ps))
  {
    ActiveMembers(ps, p);
    assert p in SortDesc(Active(ps)) <==> p in multiset(Active(ps));
  }

  /** With distinct ids the selection is strictly newest first. */
  lemma SelectionStrictlyDescending(ps: seq<Pipeline>, action: string)
    requires DistinctIds(ps)
    ensures StrictlyDescending(SelectRedundant(ps, action))
  {
    ActiveDistinct(ps);
    SortDescStrictlyDescending(Active(ps));
  }

  /** On "update" with at most one active pipeline nothing is redundant. */
  lemma UpdateWithFewActiveSelectsNothing(ps: seq<Pipeline>)
    requires |Active(ps)| <= 1
    ensures SelectRedundant(ps, "update") == []
  {
    assert |SortDesc(Active(ps))| == |multiset(Active(ps))| == |Active(ps)|;
  }

  /** The first entry of the sorted list carries the largest id. */
  lemma SortedHeadIsNewest(a: seq<Pipeline>)
    requires a != []
    ensures SortDesc(a) != [] && SortDesc(a)[0].id == MaxId(a)
  {
  }

  /** Dropping the head of a strictly newest-first arrangement of `a`
      leaves exactly the entries of `a` older than the newest. */
  lemma TailIsAllButNewest(sorted: seq<Pipeline>, a: seq<Pipeline>, p: Pipeline)
    requires a != [] && StrictlyDescending(sorted)
    requires multiset(sorted) == multiset(a)
    requires sorted != [] && sorted[0].id == MaxId(a)
    ensures p in sorted[1..] <==> p in a && p.id < MaxId(a)
  {
    if p in sorted[1..] {
      var k :| 0 <= k < |sorted| - 1 && sorted[1..][k] == p;
      assert sorted[k + 1] == p;
      assert p in multiset(a);
    }
    if p in a && p.id < MaxId(a) {
      assert p in multiset(sorted);
      var k :| 0 <= k < |sorted| && sorted[k] == p;
      assert sorted[1..][k - 1] == p;
    }
  }

  /** On "update" with n >= 2 active pipelines the selection has n - 1
      entries: every active pipeline except the one with the largest id. */
  lemma UpdateSelectsAllButNewest(ps: seq<Pipeline>, p: Pipeline)
    requires DistinctIds(ps)
    requires |Active(ps)| >= 2
    ensures |SelectRedundant(ps, "update")| == |Active(ps)| - 1
    ensures p in SelectRedundant(ps, "update") <==> p in Active(ps) && p.id < MaxId(Active(ps))
  {
    var a := Active(ps);
    var sorted := SortDesc(a);
    assert |sorted| == |multiset(sorted)| == |a|;
    assert SelectRedundant(ps, "update") == sorted[1..];
    ActiveDistinct(ps);
    SortDescStrictlyDescending(a);
    SortedHeadIsNewest(a);
    TailIsAllButNewest(sorted, a, p);
  }

  /** Fetched [10 success, 11 running, 12 pending] on "update": only 11 is redundant. */
  lemma UpdateScenario()
    ensures SelectRedundant([Pipeline(10, "success"), Pipeline(11, "running"), Pipeline(12, "pending")], "update")
      == [Pipeline(11, "running")]
  {
    var ps := [Pipeline(10, "success"), Pipeline(11, "running"), Pipeline(12, "pending")];
    assert ps[..2] == [Pipeline(10, "success"), Pipeline(11, "running")];
    assert ps[..2][..1] == [Pipeline(10, "success")];
    assert Active(ps) == [Pipeline(11, "running"), Pipeline(12, "pending")];
    assert SortDesc([Pipeline(12, "pending")]) == [Pipeline(12, "pending")];
    assert SortDesc(Active(ps)) == [Pipeline(12, "pending"), Pipeline(11, "running")];
  }

  /** Fetched [1 running, 2 canceled] on "close": only 1 is redundant. */
  lemma CloseScenario()
    ensures SelectRedundant([Pipeline(1, "running"), Pipeline(2, "canceled")], "close")
      == [Pipeline(1, "running")]
  {
    var ps := [Pipeline(1, "running"), Pipeline(2, "canceled")];
    assert ps[..1] == [Pipeline(1, "running")];
    assert Active(ps) == [Pipeline(1, "running")];
  }
}
