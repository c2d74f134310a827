/** Model of Log-Analysis-for-Deployment/improved_log_analysis.py:
    `analyze_policy_deployments` (the row loop that keeps POLICY_DEPLOYMENT
    rows and sorts them into SUCCESS, FAILED and PENDING lists, and the
    results tallies) and `analyze_deployment_patterns` (per-policy and
    per-device counters, the five most common ids and the failure-reason
    classifier). */
module ImprovedLogAnalysis {
  import opened Records
  import opened Text
  import opened Deployments

  /** How many ids `most_common` reports. */
  const TopCount: nat := 5

  const InvalidRuleSyntax := "Invalid rule syntax"
  const ConnectionTimedOut := "Connection timed out"
  const Other := "Other"

  // ---------------------------------------------------------------------
  // analyze_policy_deployments

  /** The results dictionary. */
  datatype Results = Results(
    totalDeployments: nat,
    completedDeployments: nat,
    successfulDeployments: nat,
    failedDeployments: nat,
    pendingDeployments: nat,
    successRate: Rate,
    allDeployments: seq<Deployment>,
    successfulDetails: seq<Deployment>,
    failedDetails: seq<Deployment>,
    pendingDetails: seq<Deployment>)

  /** `analyze_policy_deployments` on the rows the CSV reader yields; `None`
      is what the generic exception handler returns on a `KeyError`. */
  method AnalyzePolicyDeployments(rows: seq<LogRecord>) returns (results: Option<Results>)
    ensures results.None? <==> ExtractDeployments(rows).MissingField?
    ensures results.Some? ==>
      var r, ds := results.value, ExtractDeployments(rows).value;
      && r.allDeployments == ds
      && r.successfulDetails == WithStatus(ds, Success)
      && r.failedDetails == WithStatus(ds, Failed)
      && r.pendingDetails == WithStatus(ds, Pending)
      && r.totalDeployments == |ds|
      && r.successfulDeployments == |r.successfulDetails|
      && r.failedDeployments == |r.failedDetails|
      && r.pendingDeployments == |r.pendingDetails|
      && r.completedDeployments == r.successfulDeployments + r.failedDeployments
      && r.successfulDeployments + r.failedDeployments + r.pendingDeployments <= r.totalDeployments
      && r.successRate == (if r.completedDeployments == 0 then ZeroRate
                           else Percent(r.successfulDeployments, r.completedDeployments))
  {
    var allDeployments: seq<Deployment> := [];
    var successfulDeployments: seq<Deployment> := [];
    var failedDeployments: seq<Deployment> := [];
    var pendingDeployments: seq<Deployment> := [];
    for i := 0 to |rows|
      invariant ExtractDeployments(rows[..i]) == Ok(allDeployments)
      invariant successfulDeployments == WithStatus(allDeployments, Success)
      invariant failedDeployments == WithStatus(allDeployments, Failed)
      invariant pendingDeployments == WithStatus(allDeployments, Pending)
    {
      var row := rows[i];
      assert rows[..i + 1][..i] == rows[..i];
      if "event_type" !in row {
        ExtractErrorPersists(rows, i + 1);
        return None;
      }
      if row["event_type"] == PolicyDeployment {
        var deployment := DeploymentOf(row);
        if deployment.MissingField? {
          ExtractErrorPersists(rows, i + 1);
          return None;
        }
        var deploymentData := deployment.value;
        assert (allDeployments + [deploymentData])[..|allDeployments|] == allDeployments;
        allDeployments := allDeployments + [deploymentData];
        if row["status"] == Success {
          successfulDeployments := successfulDeployments + [deploymentData];
        } else if row["status"] == Failed {
          failedDeployments := failedDeployments + [deploymentData];
        } else if row["status"] == Pending {
          pendingDeployments := pendingDeployments + [deploymentData];
        }
      }
    }
    assert rows[..|rows|] == rows;
    BucketsDisjoint(allDeployments, Success, Failed, Pending);
    var completed := |successfulDeployments| + |failedDeployments|;
    var rate := if completed > 0 then Percent(|successfulDeployments|, completed) else ZeroRate;
    results := Some(Results(|allDeployments|, completed, |successfulDeployments|, |failedDeployments|,
                            |pendingDeployments|, rate,
                            allDeployments, successfulDeployments, failedDeployments, pendingDeployments));
  }

  // ---------------------------------------------------------------------
  // analyze_deployment_patterns: counters

  /** Which id a counter is keyed by. */
  datatype IdKind = ByPolicy | ByDevice

  function IdOf(d: Deployment, kind: IdKind): string {
    match kind
    case ByPolicy => d.policyId
    case ByDevice => d.deviceId
  }

  /** The deployments a counter counts: all of them, or only the successful ones. */
  predicate Counted(d: Deployment, onlySuccess: bool) {
    !onlySuccess || d.status == Success
  }

  /** How many deployments of `ds` have id `id` (and, if `onlySuccess`,
      status SUCCESS). */
  function Tally(ds: seq<Deployment>, kind: IdKind, onlySuccess: bool, id: string): nat {
    if |ds| == 0 then 0
    else
      var d := ds[|ds| - 1];
      Tally(ds[..|ds| - 1], kind, onlySuccess, id) + (if IdOf(d, kind) == id && Counted(d, onlySuccess) then 1 else 0)
  }

  /** The ids that occur in `ds`. */
  function Ids(ds: seq<Deployment>, kind: IdKind): set<string> {
    set k | 0 <= k < |ds| :: IdOf(ds[k], kind)
  }

  /** An id is counted at least once exactly when it occurs. */
  lemma {:induction false} TallyPositive(ds: seq<Deployment>, kind: IdKind, id: string)
    ensures Tally(ds, kind, false, id) > 0 <==> id in Ids(ds, kind)
  {
    if |ds| > 0 {
      var init := ds[..|ds| - 1];
      TallyPositive(init, kind, id);
      assert forall k :: 0 <= k < |init| ==> init[k] == ds[k];
      if id in Ids(ds, kind) && IdOf(ds[|ds| - 1], kind) != id {
        var k :| 0 <= k < |ds| && IdOf(ds[k], kind) == id;
        assert id in Ids(init, kind);
      }
    }
  }

  /** A success count never exceeds the deployment count for the same id. */
  lemma {:induction false} SuccessTallyBound(ds: seq<Deployment>, kind: IdKind, id: string)
    ensures Tally(ds, kind, true, id) <= Tally(ds, kind, false, id)
  {
    if |ds| > 0 {
      SuccessTallyBound(ds[..|ds| - 1], kind, id);
    }
  }

  /** `Counter` semantics: `m` holds the tally of every id, and a key only
      once it has been incremented. */
  ghost predicate Tallies(m: map<string, nat>, ds: seq<Deployment>, kind: IdKind, onlySuccess: bool) {
    forall id :: Count(m, id) == Tally(ds, kind, onlySuccess, id) && (id in m ==> m[id] > 0)
  }

  /** One iteration of the counter loop: `counter[id] += 1` for a counted
      deployment keeps the counter in step with the prefix. */
  lemma TallyStep(m: map<string, nat>, ds: seq<Deployment>, i: nat, kind: IdKind, onlySuccess: bool)
    requires i < |ds| && Tallies(m, ds[..i], kind, onlySuccess)
    ensures var id := IdOf(ds[i], kind);
      Tallies(if Counted(ds[i], onlySuccess) then m[id := Count(m, id) + 1] else m, ds[..i + 1], kind, onlySuccess)
  {
    assert ds[..i + 1][..i] == ds[..i];
  }

  /** The counter `Counter(id for d in ds)` as a map. */
  function IdCounts(ds: seq<Deployment>, kind: IdKind): map<string, nat> {
    map id | id in Ids(ds, kind) :: Tally(ds, kind, false, id)
  }

  /** What a counting map that `Tallies` all deployments is. */
  lemma TalliesIsIdCounts(m: map<string, nat>, ds: seq<Deployment>, kind: IdKind)
    requires Tallies(m, ds, kind, false)
    ensures m == IdCounts(ds, kind)
  {
    forall id
      ensures id in m <==> id in Ids(ds, kind)
    {
      TallyPositive(ds, kind, id);
    }
  }

  // ---------------------------------------------------------------------
  // analyze_deployment_patterns: most_common

  /** The ids of a list of (id, count) pairs. */
  function KeysOf(top: seq<(string, nat)>): set<string> {
    set k | 0 <= k < |top| :: top[k].0
  }

  lemma KeysOfSnoc(top: seq<(string, nat)>, entry: (string, nat))
    ensures KeysOf(top + [entry]) == KeysOf(top) + {entry.0}
  {
    var top' := top + [entry];
    assert forall k :: 0 <= k < |top| ==> top'[k] == top[k];
    assert top'[|top|] == entry;
  }

  /** `top` is a valid answer of `Counter(counts).most_common(n)`: the `n`
      largest entries (all of them if fewer), with their counts, no id twice,
      in non-increasing count order, and no left-out id counted more than a
      reported one. */
  ghost predicate IsMostCommon(top: seq<(string, nat)>, counts: map<string, nat>, n: nat) {
    && |top| == (if |counts| < n then |counts| else n)
    && (forall k :: 0 <= k < |top| ==> top[k].0 in counts && counts[top[k].0] == top[k].1)
    && (forall k, l :: 0 <= k < l < |top| ==> top[k].0 != top[l].0 && top[k].1 >= top[l].1)
    && (forall id, k :: id in counts && id !in KeysOf(top) && 0 <= k < |top| ==> counts[id] <= top[k].1)
  }

  /** An id of `candidates` with the largest count. */
  method MaxKey(counts: map<string, nat>, candidates: set<string>) returns (best: string)
    requires candidates != {} && candidates <= counts.Keys
    ensures best in candidates
    ensures forall id :: id in candidates ==> counts[id] <= counts[best]
  {
    best :| best in candidates;
    var todo := candidates - {best};
    while todo != {}
      invariant todo <= candidates && best in candidates
      invariant forall id :: id in candidates && id !in todo ==> counts[id] <= counts[best]
      decreases todo
    {
      var id :| id in todo;
      if counts[id] > counts[best] {
        best := id;
      }
      todo := todo - {id};
    }
  }

  /** Every chosen entry is an id of `counts` with its count, no longer in `rest`. */
  ghost predicate EntriesOf(top: seq<(string, nat)>, rest: set<string>, counts: map<string, nat>) {
    forall k :: 0 <= k < |top| ==> top[k].0 in counts && counts[top[k].0] == top[k].1 && top[k].0 !in rest
  }

  /** No id twice, counts non-increasing. */
  ghost predicate Ranked(top: seq<(string, nat)>) {
    forall k, l :: 0 <= k < l < |top| ==> top[k].0 != top[l].0 && top[k].1 >= top[l].1
  }

  /** No id of `rest` is counted more than a chosen entry. */
  ghost predicate Dominates(top: seq<(string, nat)>, rest: set<string>, counts: map<string, nat>)
    requires rest <= counts.Keys
  {
    forall id, k :: id in rest && 0 <= k < |top| ==> counts[id] <= top[k].1
  }

  /** The selection loop's invariant: `top` holds the largest entries
      chosen so far, `rest` the ids not chosen yet. */
  ghost predicate Selecting(top: seq<(string, nat)>, rest: set<string>, counts: map<string, nat>, n: nat) {
    && rest <= counts.Keys
    && |top| + |rest| == |counts| && |top| <= n
    && (forall id :: id in counts ==> id in rest || id in KeysOf(top))
    && EntriesOf(top, rest, counts)
    && Ranked(top)
    && Dominates(top, rest, counts)
  }

  lemma EntriesStep(top: seq<(string, nat)>, rest: set<string>, counts: map<string, nat>, best: string)
    requires EntriesOf(top, rest, counts) && best in rest && best in counts
    ensures EntriesOf(top + [(best, counts[best])], rest - {best}, counts)
  {
    var top' := top + [(best, counts[best])];
    forall k | 0 <= k < |top'|
      ensures top'[k].0 in counts && counts[top'[k].0] == top'[k].1 && top'[k].0 !in rest - {best}
    {
      if k < |top| {
        assert top'[k] == top[k];
      }
    }
  }

  lemma RankedStep(top: seq<(string, nat)>, entry: (string, nat))
    requires Ranked(top)
    requires forall k :: 0 <= k < |top| ==> top[k].0 != entry.0 && top[k].1 >= entry.1
    ensures Ranked(top + [entry])
  {
    var top' := top + [entry];
    forall k, l | 0 <= k < l < |top'|
      ensures top'[k].0 != top'[l].0 && top'[k].1 >= top'[l].1
    {
      assert top'[k] == top[k];
      if l < |top| {
        assert top'[l] == top[l];
      }
    }
  }

  lemma DominatesStep(top: seq<(string, nat)>, rest: set<string>, counts: map<string, nat>, best: string)
    requires rest <= counts.Keys && Dominates(top, rest, counts) && best in rest
    requires forall id :: id in rest ==> counts[id] <= counts[best]
    ensures Dominates(top + [(best, counts[best])], rest - {best}, counts)
  {
    var top' := top + [(best, counts[best])];
    forall id, k | id in rest - {best} && 0 <= k < |top'|
      ensures counts[id] <= top'[k].1
    {
      if k < |top| {
        assert top'[k] == top[k];
      }
    }
  }

  /** Choosing a largest remaining id keeps the invariant. */
  lemma SelectingStep(top: seq<(string, nat)>, rest: set<string>, counts: map<string, nat>, n: nat, best: string)
    requires Selecting(top, rest, counts, n) && |top| < n
    requires best in rest && forall id :: id in rest ==> counts[id] <= counts[best]
    ensures Selecting(top + [(best, counts[best])], rest - {best}, counts, n)
  {
    var entry := (best, counts[best]);
    KeysOfSnoc(top, entry);
    EntriesStep(top, rest, counts, best);
    RankedStep(top, entry);
    DominatesStep(top, rest, counts, best);
  }

  /** When the loop stops, the selection is a valid `most_common` answer. */
  lemma SelectingDone(top: seq<(string, nat)>, rest: set<string>, counts: map<string, nat>, n: nat)
    requires Selecting(top, rest, counts, n) && (|top| == n || rest == {})
    ensures IsMostCommon(top, counts, n)
  {
  }

  /** `Counter.most_common(n)`, up to the order among equal counts. */
  method MostCommon(counts: map<string, nat>, n: nat) returns (top: seq<(string, nat)>)
    ensures IsMostCommon(top, counts, n)
  {
    var rest := counts.Keys;
    top := [];
    while |top| < n && rest != {}
      invariant Selecting(top, rest, counts, n)
      decreases rest
    {
      var best := MaxKey(counts, rest);
      SelectingStep(top, rest, counts, n, best);
      top := top + [(best, counts[best])];
      rest := rest - {best};
    }
    SelectingDone(top, rest, counts, n);
  }

  // ---------------------------------------------------------------------
  // analyze_deployment_patterns: failure reasons

  /** The classifier: 'Invalid rule syntax' is tested first, then
      'Connection timed out', and anything else is 'Other'. */
  function FailureReason(message: string): string {
    if Contains(message, InvalidRuleSyntax) then InvalidRuleSyntax
    else if Contains(message, ConnectionTimedOut) then ConnectionTimedOut
    else Other
  }

  /** How many deployments of `ds` the classifier puts under `reason`. */
  function ReasonCount(ds: seq<Deployment>, reason: string): nat {
    if |ds| == 0 then 0
    else ReasonCount(ds[..|ds| - 1], reason) + (if FailureReason(ds[|ds| - 1].message) == reason then 1 else 0)
  }

  /** Every failure gets exactly one of the three reasons, so their counts
      add up to the number of failures. */
  lemma {:induction false} ReasonCountsSum(ds: seq<Deployment>)
    ensures ReasonCount(ds, InvalidRuleSyntax) + ReasonCount(ds, ConnectionTimedOut) + ReasonCount(ds, Other) == |ds|
  {
    if |ds| > 0 {
      ReasonCountsSum(ds[..|ds| - 1]);
    }
  }

  /** `Counter` semantics for the failure reasons of `ds`. */
  ghost predicate ReasonsTally(m: map<string, nat>, ds: seq<Deployment>) {
    && (forall reason :: Count(m, reason) == ReasonCount(ds, reason))
    && (forall reason :: reason in m ==> m[reason] > 0)
    && m.Keys <= {InvalidRuleSyntax, ConnectionTimedOut, Other}
  }

  /** Appending one failure adds one to the count of its own reason only. */
  lemma ReasonCountStep(ds: seq<Deployment>, i: nat, r: string)
    requires i < |ds|
    ensures ReasonCount(ds[..i + 1], r)
            == ReasonCount(ds[..i], r) + (if FailureReason(ds[i].message) == r then 1 else 0)
  {
    assert ds[..i + 1][..i] == ds[..i];
  }

  /** One iteration of the classifier loop. */
  lemma ReasonStep(m: map<string, nat>, ds: seq<Deployment>, i: nat)
    requires i < |ds| && ReasonsTally(m, ds[..i])
    ensures var reason := FailureReason(ds[i].message);
      ReasonsTally(m[reason := Count(m, reason) + 1], ds[..i + 1])
  {
    var reason := FailureReason(ds[i].message);
    var m' := m[reason := Count(m, reason) + 1];
    forall r
      ensures Count(m', r) == ReasonCount(ds[..i + 1], r)
    {
      ReasonCountStep(ds, i, r);
    }
  }

  /** The result of `analyze_deployment_patterns`. */
  datatype Patterns = Patterns(
    topPolicies: seq<(string, nat)>,
    topDevices: seq<(string, nat)>,
    policySuccessRates: map<string, Rate>,
    deviceSuccessRates: map<string, Rate>,
    failureReasons: map<string, nat>)

  /** `{pid: success[pid] / counts[pid] * 100 for pid in counts.keys()}`. */
  function SuccessRates(counts: map<string, nat>, successCounts: map<string, nat>): (rates: map<string, Rate>)
    requires forall id :: id in counts ==> counts[id] > 0
  {
    map id | id in counts :: Percent(Count(successCounts, id), counts[id])
  }

  /** The rate maps built from a pair of counters that tally the deployments. */
  lemma SuccessRatesExact(counts: map<string, nat>, successCounts: map<string, nat>, ds: seq<Deployment>, kind: IdKind)
    requires Tallies(counts, ds, kind, false) && Tallies(successCounts, ds, kind, true)
    ensures forall id :: id in counts ==> counts[id] > 0
    ensures SuccessRates(counts, successCounts).Keys == Ids(ds, kind)
    ensures forall id :: id in SuccessRates(counts, successCounts) ==>
      var rate := SuccessRates(counts, successCounts)[id];
      rate.Percent? && rate.num == Tally(ds, kind, true, id) && rate.den == Tally(ds, kind, false, id)
  {
    TalliesIsIdCounts(counts, ds, kind);
  }

  /** The part of the result about one kind of id: the five most common ids
      and each id's success rate as the pair (successes, deployments). */
  ghost predicate ReportsIds(top: seq<(string, nat)>, rates: map<string, Rate>, ds: seq<Deployment>, kind: IdKind) {
    && IsMostCommon(top, IdCounts(ds, kind), TopCount)
    && |top| <= TopCount
    && rates.Keys == Ids(ds, kind)
    && (forall id :: id in rates ==>
          rates[id].Percent? && rates[id].num == Tally(ds, kind, true, id) && rates[id].den == Tally(ds, kind, false, id))
  }

  /** The counting loop of `analyze_deployment_patterns`: four counters
      filled in one pass over the deployments. */
  method CountDeployments(ds: seq<Deployment>)
    returns (policyCounts: map<string, nat>, policySuccessCounts: map<string, nat>,
             deviceCounts: map<string, nat>, deviceSuccessCounts: map<string, nat>)
    ensures Tallies(policyCounts, ds, ByPolicy, false) && Tallies(policySuccessCounts, ds, ByPolicy, true)
    ensures Tallies(deviceCounts, ds, ByDevice, false) && Tallies(deviceSuccessCounts, ds, ByDevice, true)
  {
    policyCounts, policySuccessCounts := map[], map[];
    deviceCounts, deviceSuccessCounts := map[], map[];
    for i := 0 to |ds|
      invariant Tallies(policyCounts, ds[..i], ByPolicy, false)
      invariant Tallies(policySuccessCounts, ds[..i], ByPolicy, true)
      invariant Tallies(deviceCounts, ds[..i], ByDevice, false)
      invariant Tallies(deviceSuccessCounts, ds[..i], ByDevice, true)
    {
      var deployment := ds[i];
      var policyId := deployment.policyId;
      var deviceId := deployment.deviceId;
      TallyStep(policyCounts, ds, i, ByPolicy, false);
      TallyStep(policySuccessCounts, ds, i, ByPolicy, true);
      TallyStep(deviceCounts, ds, i, ByDevice, false);
      TallyStep(deviceSuccessCounts, ds, i, ByDevice, true);
      policyCounts := policyCounts[policyId := Count(policyCounts, policyId) + 1];
      deviceCounts := deviceCounts[deviceId := Count(deviceCounts, deviceId) + 1];
      if deployment.status == Success {
        policySuccessCounts := policySuccessCounts[policyId := Count(policySuccessCounts, policyId) + 1];
        deviceSuccessCounts := deviceSuccessCounts[deviceId := Count(deviceSuccessCounts, deviceId) + 1];
      }
    }
    assert ds[..|ds|] == ds;
  }

  /** The failure-reason loop of `analyze_deployment_patterns`. */
  method CountFailureReasons(failed: seq<Deployment>) returns (failureReasons: map<string, nat>)
    ensures ReasonsTally(failureReasons, failed)
  {
    failureReasons := map[];
    for i := 0 to |failed|
      invariant ReasonsTally(failureReasons, failed[..i])
    {
      ReasonStep(failureReasons, failed, i);
      var message := failed[i].message;
      if Contains(message, InvalidRuleSyntax) {
        failureReasons := failureReasons[InvalidRuleSyntax := Count(failureReasons, InvalidRuleSyntax) + 1];
      } else if Contains(message, ConnectionTimedOut) {
        failureReasons := failureReasons[ConnectionTimedOut := Count(failureReasons, ConnectionTimedOut) + 1];
      } else {
        failureReasons := failureReasons[Other := Count(failureReasons, Other) + 1];
      }
    }
    assert failed[..|failed|] == failed;
  }

  /** Building one kind's part of the result from its two counters. */
  method ReportIds(counts: map<string, nat>, successCounts: map<string, nat>, ghost ds: seq<Deployment>, ghost kind: IdKind)
    returns (top: seq<(string, nat)>, rates: map<string, Rate>)
    requires Tallies(counts, ds, kind, false) && Tallies(successCounts, ds, kind, true)
    ensures ReportsIds(top, rates, ds, kind)
  {
    TalliesIsIdCounts(counts, ds, kind);
    SuccessRatesExact(counts, successCounts, ds, kind);
    top := MostCommon(counts, TopCount);
    rates := SuccessRates(counts, successCounts);
  }

  /** `analyze_deployment_patterns(results)`: `None` for a falsy argument;
      otherwise the most common ids, the success rates by id and the
      failure-reason counter. */
  method AnalyzeDeploymentPatterns(results: Option<Results>) returns (patterns: Option<Patterns>)
    ensures patterns.None? <==> results.None?
    ensures patterns.Some? ==>
      var ds, p := results.value.allDeployments, patterns.value;
      && ReportsIds(p.topPolicies, p.policySuccessRates, ds, ByPolicy)
      && ReportsIds(p.topDevices, p.deviceSuccessRates, ds, ByDevice)
      && ReasonsTally(p.failureReasons, results.value.failedDetails)
  {
    if results.None? {
      return None;
    }
    var policyCounts, policySuccessCounts, deviceCounts, deviceSuccessCounts
      := CountDeployments(results.value.allDeployments);
    var failureReasons := CountFailureReasons(results.value.failedDetails);
    var topPolicies, policyRates := ReportIds(policyCounts, policySuccessCounts, results.value.allDeployments, ByPolicy);
    var topDevices, deviceRates := ReportIds(deviceCounts, deviceSuccessCounts, results.value.allDeployments, ByDevice);
    patterns := Some(Patterns(topPolicies, topDevices, policyRates, deviceRates, failureReasons));
  }

  /** For the results `AnalyzePolicyDeployments` returns, the three reason
      counts add up to `failed_deployments`. */
  lemma ReasonsCoverFailures(r: Results)
    requires r.failedDetails == WithStatus(r.allDeployments, Failed)
    requires r.failedDeployments == |r.failedDetails|
    ensures ReasonCount(r.failedDetails, InvalidRuleSyntax) + ReasonCount(r.failedDetails, ConnectionTimedOut)
            + ReasonCount(r.failedDetails, Other) == r.failedDeployments
  {
    ReasonCountsSum(r.failedDetails);
  }
}
