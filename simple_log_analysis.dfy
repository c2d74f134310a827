/** Model of Log-Analysis-for-Deployment/simple_log_analysis.py, the body
    of `main`: a loop that collects the POLICY_DEPLOYMENT rows, a second
    loop that sorts them into SUCCESS, FAILED and PENDING lists, and the
    three percentages of the summary, which divide by the number of
    deployments. */
module SimpleLogAnalysis {
  import opened Records
  import opened Deployments

  /** How `main` ends. `Summary` is the normal run; `KeyError` is a row
      without one of the fields it reads, caught by the generic handler;
      `ZeroDivision` is the percentage line reached with no deployments,
      caught by the same handler before any percentage is shown. */
  datatype Outcome =
    | Summary(
        deployments: seq<Deployment>,
        successful: seq<Deployment>,
        failed: seq<Deployment>,
        pending: seq<Deployment>,
        successPercent: Rate,
        failedPercent: Rate,
        pendingPercent: Rate)
    | KeyError(field: string)
    | ZeroDivision

  /** `main` on the rows the CSV reader yields. */
  method AnalyzeDeployments(rows: seq<LogRecord>) returns (outcome: Outcome)
    ensures outcome.KeyError? <==> ExtractDeployments(rows).MissingField?
    ensures outcome.KeyError? ==> outcome.field == ExtractDeployments(rows).field
    ensures outcome.ZeroDivision? <==> ExtractDeployments(rows) == Ok([])
    ensures outcome.Summary? ==>
      var ds := ExtractDeployments(rows).value;
      && outcome.deployments == ds && |ds| > 0
      && outcome.successful == WithStatus(ds, Success)
      && outcome.failed == WithStatus(ds, Failed)
      && outcome.pending == WithStatus(ds, Pending)
      && |outcome.successful| + |outcome.failed| + |outcome.pending| <= |ds|
      && outcome.successPercent == Percent(|outcome.successful|, |ds|)
      && outcome.failedPercent == Percent(|outcome.failed|, |ds|)
      && outcome.pendingPercent == Percent(|outcome.pending|, |ds|)
  {
    var policyDeployments: seq<Deployment> := [];
    for i := 0 to |rows|
      invariant ExtractDeployments(rows[..i]) == Ok(policyDeployments)
    {
      var row := rows[i];
      assert rows[..i + 1][..i] == rows[..i];
      if "event_type" !in row {
        ExtractErrorPersists(rows, i + 1);
        return KeyError("event_type");
      }
      if row["event_type"] == PolicyDeployment {
        var deployment := DeploymentOf(row);
        if deployment.MissingField? {
          ExtractErrorPersists(rows, i + 1);
          return KeyError(deployment.field);
        }
        policyDeployments := policyDeployments + [deployment.value];
      }
    }
    assert rows[..|rows|] == rows;

    var successful: seq<Deployment> := [];
    var failed: seq<Deployment> := [];
    var pending: seq<Deployment> := [];
    for i := 0 to |policyDeployments|
      invariant successful == WithStatus(policyDeployments[..i], Success)
      invariant failed == WithStatus(policyDeployments[..i], Failed)
      invariant pending == WithStatus(policyDeployments[..i], Pending)
    {
      var deployment := policyDeployments[i];
      assert policyDeployments[..i + 1][..i] == policyDeployments[..i];
      if deployment.status == Success {
        successful := successful + [deployment];
      } else if deployment.status == Failed {
        failed := failed + [deployment];
      } else if deployment.status == Pending {
        pending := pending + [deployment];
      }
    }
    assert policyDeployments[..|policyDeployments|] == policyDeployments;
    BucketsDisjoint(policyDeployments, Success, Failed, Pending);

    var total := |policyDeployments|;
    if total == 0 {
      return ZeroDivision;
    }
    outcome := Summary(policyDeployments, successful, failed, pending,
                       Percent(|successful|, total), Percent(|failed|, total), Percent(|pending|, total));
  }
}
