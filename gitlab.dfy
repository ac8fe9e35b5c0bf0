/** The cancellation engine of the GitLab client: CancelRedundantPipelinesByMR.
    The GitLab API is replaced by two oracles: the outcome of listing the
    merge request's pipelines (`fetched`), and `cancel`, where
    `cancel(id)(k)` is true when the k-th cancel request for pipeline `id`
    succeeds. The method returns what the Go function returns and, in
    addition, the record of every cancel it attempted. */
module Gitlab {
  import opened Pipelines
  import Utils

  /** Cancel requests are retried up to 3 times, starting with a 4 second delay. */
  const MaxCancelAttempts: int := 3
  const CancelDelaySeconds: nat := 4

  /** What ListPipelinesByMR returns: the pipelines, or the host's error. */
  datatype FetchResult = Fetched(pipelines: seq<Pipeline>) | FetchFailed(cause: string)

  /** "failed to fetch the pipelines for MR <mrId>: <cause>" */
  datatype Error = FetchError(mrId: int, cause: string)

  /** One Retry-wrapped cancel: the pipeline and how that Retry went. */
  datatype CancelAttempt = CancelAttempt(pipelineId: int, run: Utils.Run)

  /** The cancels issued for `redundant`, one Retry per pipeline, in order,
      each independent of how the earlier ones went. */
  function CancelAll(redundant: seq<Pipeline>, cancel: int -> nat -> bool): (r: seq<CancelAttempt>)
    ensures |r| == |redundant|
  {
    if redundant == [] then []
    else
      var p := redundant[|redundant| - 1];
      CancelAll(redundant[..|redundant| - 1], cancel)
        + [CancelAttempt(p.id, Utils.RetryRun(MaxCancelAttempts, CancelDelaySeconds, cancel(p.id)))]
  }

  /** The filter loop: keep, in order, every pipeline whose status is not excluded. */
  method FilterActive(pipelines: seq<Pipeline>) returns (target: seq<Pipeline>)
    ensures target == Active(pipelines)
  {
    target := [];
    var i := 0;
    while i < |pipelines|
      invariant 0 <= i <= |pipelines|
      invariant target == Active(pipelines[..i])
    {
      var p := pipelines[i];
      assert pipelines[..i + 1][..i] == pipelines[..i];
      if !IsExcluded(p.status) {
        target := target + [p];
      }
      i := i + 1;
    }
    assert pipelines[..i] == pipelines;
  }

  /** The index of a newest pipeline among a[from..]. */
  method IndexOfNewest(a: array<Pipeline>, from: nat) returns (m: nat)
    requires from < a.Length
    ensures from <= m < a.Length
    ensures forall k :: from <= k < a.Length ==> a[m].id >= a[k].id
  {
    m := from;
    var j := from + 1;
    while j < a.Length
      invariant from <= m < a.Length
      invariant from + 1 <= j <= a.Length
      invariant forall k :: from <= k < j ==> a[m].id >= a[k].id
    {
      if a[j].id > a[m].id {
        m := j;
      }
      j := j + 1;
    }
  }

  method Swap(a: array<Pipeline>, i: nat, j: nat)
    requires i < a.Length && j < a.Length
    modifies a
    ensures a[i] == old(a[j]) && a[j] == old(a[i])
    ensures forall k :: 0 <= k < a.Length && k != i && k != j ==> a[k] == old(a[k])
    ensures multiset(a[..]) == old(multiset(a[..]))
  {
    a[i], a[j] := a[j], a[i];
  }

  /** In-place sort by id, newest first (a selection sort standing for sort.Slice). */
  method SortByIdDesc(a: array<Pipeline>)
    modifies a
    ensures Descending(a[..])
    ensures multiset(a[..]) == old(multiset(a[..]))
  {
    var i := 0;
    while i < a.Length
      invariant 0 <= i <= a.Length
      invariant forall x, y :: 0 <= x < y < i ==> a[x].id >= a[y].id
      invariant forall x, y :: 0 <= x < i <= y < a.Length ==> a[x].id >= a[y].id
      invariant multiset(a[..]) == old(multiset(a[..]))
    {
      var m := IndexOfNewest(a, i);
      Swap(a, i, m);
      i := i + 1;
    }
  }

  /** Filter, then sort the survivors in place, newest first. */
  method SortedActive(pipelines: seq<Pipeline>) returns (sorted: seq<Pipeline>)
    requires DistinctIds(pipelines)
    ensures sorted == SortDesc(Active(pipelines))
  {
    var target := FilterActive(pipelines);
    var arr := new Pipeline[|target|](k requires 0 <= k < |target| => target[k]);
    assert arr[..] == target;
    SortByIdDesc(arr);
    sorted := arr[..];
    ActiveDistinct(pipelines);
    SortDescStrictlyDescending(target);
    SortedPermutationUnique(sorted, SortDesc(target));
  }

  /** The cancel loop: one Retry(3, 4s) per pipeline, in order; a Retry that
      ends in an error does not stop the loop. */
  method CancelEach(redundant: seq<Pipeline>, cancel: int -> nat -> bool) returns (attempts: seq<CancelAttempt>)
    ensures attempts == CancelAll(redundant, cancel)
  {
    attempts := [];
    var i := 0;
    while i < |redundant|
      invariant 0 <= i <= |redundant|
      invariant attempts == CancelAll(redundant[..i], cancel)
    {
      var p := redundant[i];
      assert redundant[..i + 1][..i] == redundant[..i];
      var status, calls, sleeps := Utils.Retry(MaxCancelAttempts, CancelDelaySeconds, cancel(p.id));
      attempts := attempts + [CancelAttempt(p.id, Utils.Run(status, calls, sleeps))];
      i := i + 1;
    }
    assert redundant[..i] == redundant;
  }

  /** Fetch the pipelines (an error returns at once, before any cancel); keep
      the active ones; sort them newest first; pick the redundant ones for
      `action`; then cancel each of them and return nil. */
  method CancelRedundantPipelinesByMR(mrId: int, action: string, fetched: FetchResult, cancel: int -> nat -> bool)
    returns (err: Utils.Option<Error>, attempts: seq<CancelAttempt>)
    requires fetched.Fetched? ==> DistinctIds(fetched.pipelines)
    ensures fetched.FetchFailed? ==> err == Utils.Some(FetchError(mrId, fetched.cause)) && attempts == []
    ensures fetched.Fetched? ==>
      err == Utils.None && attempts == CancelAll(SelectRedundant(fetched.pipelines, action), cancel)
  {
    if fetched.FetchFailed? {
      return Utils.Some(FetchError(mrId, fetched.cause)), [];
    }
    var sorted := SortedActive(fetched.pipelines);
    var redundant := ChooseRedundant(sorted, action);
    attempts := CancelEach(redundant, cancel);
    err := Utils.None;
  }

  /** Every redundant pipeline gets exactly one Retry, in selection order,
      whatever the outcome of the others, and each Retry calls the cancel
      endpoint at least once and at most 3 times. */
  lemma {:induction false} CancelAllOnePerPipeline(redundant: seq<Pipeline>, cancel: int -> nat -> bool, i: nat)
    requires i < |redundant|
    ensures CancelAll(redundant, cancel)[i].pipelineId == redundant[i].id
    ensures 1 <= CancelAll(redundant, cancel)[i].run.calls <= MaxCancelAttempts
  {
    if i < |redundant| - 1 {
      CancelAllOnePerPipeline(redundant[..|redundant| - 1], cancel, i);
    } else {
      Utils.RetryCallsBounded(MaxCancelAttempts, CancelDelaySeconds, cancel(redundant[i].id));
    }
  }

  /** Which pipelines are attempted does not depend on how the cancels go. */
  lemma {:induction false} CancelTargetsIgnoreOutcomes(redundant: seq<Pipeline>, c1: int -> nat -> bool, c2: int -> nat -> bool, i: nat)
    requires i < |redundant|
    ensures CancelAll(redundant, c1)[i].pipelineId == CancelAll(redundant, c2)[i].pipelineId
  {
    CancelAllOnePerPipeline(redundant, c1, i);
    CancelAllOnePerPipeline(redundant, c2, i);
  }

  /** "update", fetched [10 success, 11 running, 12 pending]: one
      cancel, of pipeline 11, whatever the host answers. */
  lemma UpdateEndToEnd(cancel: int -> nat -> bool)
    ensures var attempts := CancelAll(SelectRedundant([Pipeline(10, "success"), Pipeline(11, "running"), Pipeline(12, "pending")], "update"), cancel);
      |attempts| == 1 && attempts[0].pipelineId == 11
  {
    UpdateScenario();
    CancelAllOnePerPipeline([Pipeline(11, "running")], cancel, 0);
  }

  /** "close", fetched [1 running, 2 canceled]: one cancel, of pipeline 1. */
  lemma CloseEndToEnd(cancel: int -> nat -> bool)
    ensures var attempts := CancelAll(SelectRedundant([Pipeline(1, "running"), Pipeline(2, "canceled")], "close"), cancel);
      |attempts| == 1 && attempts[0].pipelineId == 1
  {
    CloseScenario();
    CancelAllOnePerPipeline([Pipeline(1, "running")], cancel, 0);
  }
}
