/** Maximal runs of true flags: the shape shared by ignition windows and by the
    gaps of a backfill. */
module Runs {
  datatype Run = Run(first: nat, last: nat)

  ghost predicate Within(flags: seq<bool>, r: Run) {
    r.first <= r.last < |flags| && forall i :: r.first <= i <= r.last ==> flags[i]
  }

  ghost predicate Contains(r: Run, i: nat) {
    r.first <= i <= r.last
  }

  ghost predicate InSome(runs: seq<Run>, i: nat) {
    exists k :: 0 <= k < |runs| && Contains(runs[k], i)
  }

  /** Inside the flags, ordered, disjoint and never adjacent, and together
      every true flag: which makes each run maximal, and the list unique. */
  ghost predicate AreMaximalRuns(flags: seq<bool>, runs: seq<Run>) {
    && (forall k :: 0 <= k < |runs| ==> Within(flags, runs[k]))
    && (forall j, k :: 0 <= j < k < |runs| ==> runs[j].last + 1 < runs[k].first)
    && (forall i :: 0 <= i < |flags| && flags[i] ==> InSome(runs, i))
  }

  function RunsOf(flags: seq<bool>): seq<Run> {
    if flags == [] then []
    else
      var n := |flags| - 1;
      var before := RunsOf(flags[..n]);
      if !flags[n] then before
      else if ReachesEnd(before, n)
      then before[..|before| - 1] + [Run(before[|before| - 1].first, n)]
      else before + [Run(n, n)]
  }

  /** Whether the last run reaches the end of the flags. */
  predicate ReachesEnd(runs: seq<Run>, n: nat) {
    runs != [] && runs[|runs| - 1].last + 1 == n
  }

  ghost predicate InBounds(runs: seq<Run>, n: nat) {
    forall k :: 0 <= k < |runs| ==> runs[k].first <= runs[k].last < n
  }

  lemma {:induction false} LastRunIsOpen(flags: seq<bool>)
    ensures InBounds(RunsOf(flags), |flags|)
    ensures ReachesEnd(RunsOf(flags), |flags|) <==> flags != [] && flags[|flags| - 1]
    decreases |flags|
  {
    if flags != [] {
      var n := |flags| - 1;
      var before := RunsOf(flags[..n]);
      LastRunIsOpen(flags[..n]);
      assert InBounds(before, n);
      if !flags[n] {
        assert RunsOf(flags) == before;
        assert before != [] ==> before[|before| - 1].last < n;
      } else if ReachesEnd(before, n) {
        assert RunsOf(flags) == before[..|before| - 1] + [Run(before[|before| - 1].first, n)];
      } else {
        assert RunsOf(flags) == before + [Run(n, n)];
      }
    }
  }

  lemma FrontRunsFit(flags: seq<bool>, runs: seq<Run>, n: nat)
    requires n < |flags| && AreMaximalRuns(flags[..n], runs)
    ensures forall k :: 0 <= k < |runs| ==> Within(flags, runs[k]) && runs[k].last < n
    ensures forall i :: 0 <= i < n && flags[i] ==> InSome(runs, i)
  {
    forall k | 0 <= k < |runs| ensures Within(flags, runs[k]) && runs[k].last < n {
      assert Within(flags[..n], runs[k]);
      assert forall i :: runs[k].first <= i <= runs[k].last ==> flags[..n][i] == flags[i];
    }
    forall i | 0 <= i < n && flags[i] ensures InSome(runs, i) {
      assert flags[..n][i];
    }
  }

  /** The last run reaches the end: it grows by one. */
  lemma GrownRun(flags: seq<bool>, before: seq<Run>, n: nat)
    requires |flags| == n + 1 && flags[n] && AreMaximalRuns(flags[..n], before)
    requires before != [] && before[|before| - 1].last + 1 == n
    ensures AreMaximalRuns(flags, before[..|before| - 1] + [Run(before[|before| - 1].first, n)])
  {
    var m := |before| - 1;
    var runs := before[..m] + [Run(before[m].first, n)];
    FrontRunsFit(flags, before, n);
    assert Within(flags, before[m]);
    assert Within(flags, runs[m]);
    forall i | 0 <= i < |flags| && flags[i] ensures InSome(runs, i) {
      if i == n {
        assert Contains(runs[m], n);
      } else {
        var k :| 0 <= k < |before| && Contains(before[k], i);
        assert Contains(runs[k], i);
      }
    }
  }

  lemma FreshRun(flags: seq<bool>, before: seq<Run>, n: nat)
    requires |flags| == n + 1 && flags[n] && AreMaximalRuns(flags[..n], before)
    requires before == [] || before[|before| - 1].last + 1 != n
    ensures AreMaximalRuns(flags, before + [Run(n, n)])
  {
    var runs := before + [Run(n, n)];
    FrontRunsFit(flags, before, n);
    forall j | 0 <= j < |before| ensures before[j].last + 1 < n {
      assert j < |before| - 1 ==> before[j].last + 1 < before[|before| - 1].first;
      assert Within(flags, before[|before| - 1]);
    }
    forall i | 0 <= i < |flags| && flags[i] ensures InSome(runs, i) {
      if i == n {
        assert Contains(runs[|before|], n);
      } else {
        var k :| 0 <= k < |before| && Contains(before[k], i);
        assert Contains(runs[k], i);
      }
    }
  }

  lemma {:induction false} RunsOfAreMaximal(flags: seq<bool>)
    ensures AreMaximalRuns(flags, RunsOf(flags))
    decreases |flags|
  {
    if flags != [] {
      var n := |flags| - 1;
      var before := RunsOf(flags[..n]);
      RunsOfAreMaximal(flags[..n]);
      if !flags[n] {
        FrontRunsFit(flags, before, n);
      } else if before != [] && before[|before| - 1].last + 1 == n {
        GrownRun(flags, before, n);
      } else {
        FreshRun(flags, before, n);
      }
    }
  }

  /** A flag is set exactly when some run contains it. */
  lemma InSomeRunIffSet(flags: seq<bool>, runs: seq<Run>, i: nat)
    requires AreMaximalRuns(flags, runs) && i < |flags|
    ensures InSome(runs, i) <==> flags[i]
  {
    if InSome(runs, i) {
      var k :| 0 <= k < |runs| && Contains(runs[k], i);
      assert Within(flags, runs[k]);
    }
  }

  /** A run ends where its flags end: neither neighbour of a run is set. */
  lemma RunsCannotGrow(flags: seq<bool>, runs: seq<Run>, k: nat)
    requires AreMaximalRuns(flags, runs) && k < |runs|
    ensures runs[k].first == 0 || !flags[runs[k].first - 1]
    ensures runs[k].last + 1 == |flags| || !flags[runs[k].last + 1]
  {
    var r := runs[k];
    assert Within(flags, r);
    forall j | 0 <= j < |runs|
      ensures r.first > 0 ==> !Contains(runs[j], r.first - 1)
      ensures !Contains(runs[j], r.last + 1)
    {
      assert j < k ==> runs[j].last + 1 < runs[k].first;
      assert k < j ==> runs[k].last + 1 < runs[j].first;
    }
    if r.first > 0 {
      InSomeRunIffSet(flags, runs, r.first - 1);
    }
    if r.last + 1 < |flags| {
      InSomeRunIffSet(flags, runs, r.last + 1);
    }
  }

  /** The next run of one list starts no earlier than the next of the other. */
  lemma NextStartsNoEarlier(flags: seq<bool>, r: seq<Run>, q: seq<Run>, k: nat)
    requires AreMaximalRuns(flags, r) && AreMaximalRuns(flags, q)
    requires k < |r| && k <= |q| && r[..k] == q[..k]
    ensures k < |q| && q[k].first <= r[k].first
  {
    assert Within(flags, r[k]);
    assert flags[r[k].first];
    assert InSome(q, r[k].first);
    var j :| 0 <= j < |q| && Contains(q[j], r[k].first);
    forall i | 0 <= i < k ensures q[i].last < r[k].first {
      assert q[i] == q[..k][i] && r[i] == r[..k][i];
    }
    assert k < j ==> q[k].last + 1 < q[j].first;
    assert Within(flags, q[k]);
  }

  lemma FirstsAgree(flags: seq<bool>, r: seq<Run>, q: seq<Run>, k: nat)
    requires AreMaximalRuns(flags, r) && AreMaximalRuns(flags, q)
    requires k < |r| && k <= |q| && r[..k] == q[..k]
    ensures k < |q| && r[k] == q[k]
  {
    NextStartsNoEarlier(flags, r, q, k);
    NextStartsNoEarlier(flags, q, r, k);
    RunsCannotGrow(flags, r, k);
    RunsCannotGrow(flags, q, k);
    assert Within(flags, r[k]) && Within(flags, q[k]);
  }

  /** There is only one list of maximal runs. */
  lemma {:induction false} MaximalRunsAreUnique(flags: seq<bool>, r: seq<Run>, q: seq<Run>, k: nat)
    requires AreMaximalRuns(flags, r) && AreMaximalRuns(flags, q)
    requires k <= |r| && k <= |q| && r[..k] == q[..k]
    ensures r == q
    decreases |r| - k
  {
    if k < |r| {
      FirstsAgree(flags, r, q, k);
      assert r[..k + 1] == r[..k] + [r[k]] && q[..k + 1] == q[..k] + [q[k]];
      MaximalRunsAreUnique(flags, r, q, k + 1);
    } else if k < |q| {
      FirstsAgree(flags, q, r, k);
      assert false;
    } else {
      assert r == r[..k] && q == q[..k];
    }
  }
}
