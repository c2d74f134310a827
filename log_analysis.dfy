/** Model of Log-Analysis-for-Deployment/log_analysis.py,
    `analyze_policy_deployments`: one loop over the CSV rows that keeps the
    POLICY_DEPLOYMENT rows and sorts them into SUCCESS and FAILED lists,
    then a results dictionary of counts and a success rate over all
    deployments. */
module LogAnalysis {
  import opened Records
  import opened Deployments

  /** The results dictionary. */
  datatype Results = Results(
    totalDeployments: nat,
    successfulDeployments: nat,
    failedDeployments: nat,
    successRate: Rate,
    allDeployments: seq<Deployment>,
    successfulDetails: seq<Deployment>,
    failedDetails: seq<Deployment>)

  /** `analyze_policy_deployments` on the rows the CSV reader yields; `None`
      is what the generic exception handler returns on a `KeyError`. */
  method AnalyzePolicyDeployments(rows: seq<LogRecord>) returns (results: Option<Results>)
    ensures results.None? <==> ExtractDeployments(rows).MissingField?
    ensures results.Some? ==>
      var r, ds := results.value, ExtractDeployments(rows).value;
      && r.allDeployments == ds
      && r.successfulDetails == WithStatus(ds, Success)
      && r.failedDetails == WithStatus(ds, Failed)
      && r.totalDeployments == |ds|
      && r.successfulDeployments == |r.successfulDetails|
      && r.failedDeployments == |r.failedDetails|
      && r.successfulDeployments + r.failedDeployments <= r.totalDeployments
      && r.successRate == (if |ds| == 0 then ZeroRate else Percent(r.successfulDeployments, |ds|))
  {
    var policyDeployments: seq<Deployment> := [];
    var successfulDeployments: seq<Deployment> := [];
    var failedDeployments: seq<Deployment> := [];
    for i := 0 to |rows|
      invariant ExtractDeployments(rows[..i]) == Ok(policyDeployments)
      invariant successfulDeployments == WithStatus(policyDeployments, Success)
      invariant failedDeployments == WithStatus(policyDeployments, Failed)
    {
      var row := rows[i];
      assert rows[..i + 1][..i] == rows[..i];
      if "event_type" !in row {
        ExtractErrorPersists(rows, i + 1);
        return None;
      }
      if row["event_type"] == PolicyDeployment {
        var deployment := DeploymentOf(row);
        if deployment.MissingField? {
          ExtractErrorPersists(rows, i + 1);
          return None;
        }
        var deploymentData := deployment.value;
        assert (policyDeployments + [deploymentData])[..|policyDeployments|] == policyDeployments;
        policyDeployments := policyDeployments + [deploymentData];
        if row["status"] == Success {
          successfulDeployments := successfulDeployments + [deploymentData];
        } else if row["status"] == Failed {
          failedDeployments := failedDeployments + [deploymentData];
        }
      }
    }
    assert rows[..|rows|] == rows;
    TwoBucketsDisjoint(policyDeployments, Success, Failed);
    var total := |policyDeployments|;
    var rate := if total > 0 then Percent(|successfulDeployments|, total) else ZeroRate;
    results := Some(Results(total, |successfulDeployments|, |failedDeployments|, rate,
                            policyDeployments, successfulDeployments, failedDeployments));
  }
}
