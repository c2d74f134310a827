/** What log_analysis.py, improved_log_analysis.py and simple_log_analysis.py
    share: keeping the POLICY_DEPLOYMENT rows of the CSV file, copying five of
    their columns into a deployment record, and splitting deployments by
    status. Each script's own loop is modelled in its own module against the
    functions here. */
module Deployments {
  import opened Records
  import opened Sequences

  const PolicyDeployment := "POLICY_DEPLOYMENT"
  const Success := "SUCCESS"
  const Failed := "FAILED"
  const Pending := "PENDING"

  /** The dictionary the scripts build for each deployment row. */
  datatype Deployment = Deployment(
    timestamp: string, policyId: string, deviceId: string, status: string, message: string)

  /** A value, or the `KeyError` raised by `row[field]` on a missing column. */
  datatype Read<+T> = Ok(value: T) | MissingField(field: string)

  /** The columns the deployment dictionary copies, in the order the
      dictionary display reads them. */
  const DeploymentFields: seq<string> := ["timestamp", "policy_id", "device_id", "status", "message"]

  predicate HasDeploymentFields(row: LogRecord) {
    forall f :: f in DeploymentFields ==> f in row
  }

  /** `{'timestamp': row['timestamp'], ..., 'message': row['message']}`: the
      first missing column, in reading order, raises. */
  function DeploymentOf(row: LogRecord): (r: Read<Deployment>)
    ensures r.Ok? <==> HasDeploymentFields(row)
    ensures r.Ok? ==> r.value == Deployment(row["timestamp"], row["policy_id"], row["device_id"],
                                            row["status"], row["message"])
    ensures r.MissingField? ==> r.field in DeploymentFields && r.field !in row
    ensures r.MissingField? ==>
      exists k :: 0 <= k < |DeploymentFields| && r.field == DeploymentFields[k]
        && forall l :: 0 <= l < k ==> DeploymentFields[l] in row
  {
    if "timestamp" !in row then MissingField("timestamp")
    else if "policy_id" !in row then MissingField("policy_id")
    else if "device_id" !in row then MissingField("device_id")
    else if "status" !in row then MissingField("status")
    else if "message" !in row then MissingField("message")
    else Ok(Deployment(row["timestamp"], row["policy_id"], row["device_id"], row["status"], row["message"]))
  }

  /** The filter loop over the rows: `row['event_type']` is read for every
      row, and the deployment dictionary for every POLICY_DEPLOYMENT row; the
      first `KeyError` ends the loop. */
  function ExtractDeployments(rows: seq<LogRecord>): Read<seq<Deployment>> {
    if |rows| == 0 then Ok([])
    else
      match ExtractDeployments(rows[..|rows| - 1])
      case MissingField(f) => MissingField(f)
      case Ok(ds) =>
        var row := rows[|rows| - 1];
        if "event_type" !in row then MissingField("event_type")
        else if row["event_type"] != PolicyDeployment then Ok(ds)
        else
          match DeploymentOf(row)
          case MissingField(f) => MissingField(f)
          case Ok(d) => Ok(ds + [d])
  }

  /** Once a prefix of the rows raises, the whole loop raises, with the
      same missing column. */
  lemma {:induction false} ExtractErrorPersists(rows: seq<LogRecord>, n: nat)
    requires n <= |rows|
    requires ExtractDeployments(rows[..n]).MissingField?
    ensures ExtractDeployments(rows) == ExtractDeployments(rows[..n])
    decreases |rows| - n
  {
    if n < |rows| {
      assert rows[..n + 1][..n] == rows[..n];
      ExtractErrorPersists(rows, n + 1);
    } else {
      assert rows[..n] == rows;
    }
  }

  /** A row the filter loop reads without raising. */
  predicate Readable(row: LogRecord) {
    "event_type" in row && (row["event_type"] == PolicyDeployment ==> HasDeploymentFields(row))
  }

  /** The rows the filter keeps: `row['event_type'] == 'POLICY_DEPLOYMENT'`. */
  function PolicyRows(rows: seq<LogRecord>): seq<LogRecord> {
    if |rows| == 0 then []
    else
      var row := rows[|rows| - 1];
      PolicyRows(rows[..|rows| - 1]) + (if FieldIs(row, "event_type", PolicyDeployment) then [row] else [])
  }

  /** The loop raises exactly when some row is unreadable; otherwise it yields
      one deployment per POLICY_DEPLOYMENT row, in file order, with the five
      columns copied unchanged. */
  lemma {:induction false} ExtractDeploymentsExact(rows: seq<LogRecord>)
    ensures ExtractDeployments(rows).Ok? <==> forall i :: 0 <= i < |rows| ==> Readable(rows[i])
    ensures ExtractDeployments(rows).Ok? ==>
      var ds, kept := ExtractDeployments(rows).value, PolicyRows(rows);
      && |ds| == |kept|
      && forall k :: 0 <= k < |ds| ==> DeploymentOf(kept[k]) == Ok(ds[k])
  {
    if |rows| > 0 {
      var init, row := rows[..|rows| - 1], rows[|rows| - 1];
      ExtractDeploymentsExact(init);
      assert forall i :: 0 <= i < |init| ==> init[i] == rows[i];
      if ExtractDeployments(init).Ok? && Readable(row) && row["event_type"] == PolicyDeployment {
        var ds := ExtractDeployments(init).value;
        assert ExtractDeployments(rows) == Ok(ds + [DeploymentOf(row).value]);
      }
    }
  }

  /** A failed extraction names the column that the first unreadable row
      lacks: `event_type` if that is missing, otherwise the first of the
      five deployment columns missing from it. */
  lemma {:induction false} ErrorNamesFirstUnreadable(rows: seq<LogRecord>)
    requires ExtractDeployments(rows).MissingField?
    ensures exists i :: (0 <= i < |rows| && !Readable(rows[i])
      && (forall j :: 0 <= j < i ==> Readable(rows[j]))
      && ExtractDeployments(rows).field
         == (if "event_type" !in rows[i] then "event_type" else DeploymentOf(rows[i]).field))
  {
    var init, row := rows[..|rows| - 1], rows[|rows| - 1];
    assert forall i :: 0 <= i < |init| ==> init[i] == rows[i];
    ExtractDeploymentsExact(init);
    if ExtractDeployments(init).MissingField? {
      ErrorNamesFirstUnreadable(init);
    } else {
      assert !Readable(row);
    }
  }

  /** PolicyRows is the order-preserving filter on the event type. */
  lemma {:induction false} PolicyRowsExact(rows: seq<LogRecord>)
    ensures IsSubsequence(PolicyRows(rows), rows)
    ensures forall r :: multiset(PolicyRows(rows))[r]
                     == (if FieldIs(r, "event_type", PolicyDeployment) then multiset(rows)[r] else 0)
  {
    if |rows| == 0 {
      EmptySubsequence(rows);
    } else {
      var init, row := rows[..|rows| - 1], rows[|rows| - 1];
      assert rows == init + [row];
      PolicyRowsExact(init);
      var kept := PolicyRows(init);
      if FieldIs(row, "event_type", PolicyDeployment) {
        assert PolicyRows(rows) == kept + [row];
        SubsequenceTake(kept, init, row);
      } else {
        assert PolicyRows(rows) == kept;
        SubsequenceSkip(kept, init, row);
      }
    }
  }

  /** The deployments whose status is `status`, in order: the list an
      `if status == ...: list.append(deployment)` branch builds. */
  function WithStatus(ds: seq<Deployment>, status: string): seq<Deployment> {
    if |ds| == 0 then []
    else
      var d := ds[|ds| - 1];
      WithStatus(ds[..|ds| - 1], status) + (if d.status == status then [d] else [])
  }

  /** WithStatus keeps the order and keeps exactly the deployments with that
      status, each as often as it occurs. */
  lemma {:induction false} WithStatusExact(ds: seq<Deployment>, status: string)
    ensures IsSubsequence(WithStatus(ds, status), ds)
    ensures forall d :: multiset(WithStatus(ds, status))[d]
                     == (if d.status == status then multiset(ds)[d] else 0)
  {
    if |ds| == 0 {
      EmptySubsequence(ds);
    } else {
      var init, d := ds[..|ds| - 1], ds[|ds| - 1];
      assert ds == init + [d];
      WithStatusExact(init, status);
      var kept := WithStatus(init, status);
      if d.status == status {
        assert WithStatus(ds, status) == kept + [d];
        SubsequenceTake(kept, init, d);
      } else {
        assert WithStatus(ds, status) == kept;
        SubsequenceSkip(kept, init, d);
      }
    }
  }

  /** Status buckets for distinct statuses never share a deployment
      occurrence: together they are a sub-multiset of the deployments, so a
      deployment with any other status is in none of them. */
  lemma {:induction false} BucketsDisjoint(ds: seq<Deployment>, a: string, b: string, c: string)
    requires a != b && b != c && a != c
    ensures multiset(WithStatus(ds, a)) + multiset(WithStatus(ds, b)) + multiset(WithStatus(ds, c))
            <= multiset(ds)
    ensures |WithStatus(ds, a)| + |WithStatus(ds, b)| + |WithStatus(ds, c)| <= |ds|
  {
    if |ds| > 0 {
      var init, d := ds[..|ds| - 1], ds[|ds| - 1];
      assert ds == init + [d];
      BucketsDisjoint(init, a, b, c);
    }
  }

  /** Two buckets: the same bound for the scripts that keep only two. */
  lemma {:induction false} TwoBucketsDisjoint(ds: seq<Deployment>, a: string, b: string)
    requires a != b
    ensures multiset(WithStatus(ds, a)) + multiset(WithStatus(ds, b)) <= multiset(ds)
    ensures |WithStatus(ds, a)| + |WithStatus(ds, b)| <= |ds|
  {
    if |ds| > 0 {
      var init, d := ds[..|ds| - 1], ds[|ds| - 1];
      assert ds == init + [d];
      TwoBucketsDisjoint(init, a, b);
    }
  }

  type Positive = n: nat | n > 0 witness 1

  /** A percentage as the scripts compute it, `num / den * 100`, kept as the
      integer pair; `ZeroRate` is the literal `0` of the guarded branch. */
  datatype Rate = ZeroRate | Percent(num: nat, den: Positive)
}
