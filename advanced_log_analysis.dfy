/** Model of Log-Analysis-for-Deployment/advanced_log_analysis.py: the level
    and component filter, the per-pattern message counter and the correlator
    that pairs every failed policy deployment with the ERROR records among
    the five entries before it. */
module AdvancedLogAnalysis {
  import opened Records
  import opened Text
  import opened Sequences

  /** The script's configuration constants. */
  const Components: set<string> := {"PolicyService", "NetworkMonitor"}
  const ErrorLevels: set<string> := {"ERROR", "WARNING"}
  const ErrorPatterns: seq<string> :=
    ["authentication failed", "connection timeout", "disk space low", "POLICY_DEPLOYMENT failed"]

  /** How many entries the correlator looks back from a failure. */
  const Lookback: nat := 5

  // ---------------------------------------------------------------------
  // filter_logs

  /** The comprehension's condition: both fields present and in their sets. */
  predicate Selected(log: LogRecord, levels: set<string>, components: set<string>) {
    FieldIn(log, "log_level", levels) && FieldIn(log, "component", components)
  }

  /** `filter_logs(logs, levels, components)`. */
  function FilterLogs(logs: seq<LogRecord>, levels: set<string>, components: set<string>): seq<LogRecord>
  {
    if |logs| == 0 then []
    else
      var last := logs[|logs| - 1];
      FilterLogs(logs[..|logs| - 1], levels, components)
        + (if Selected(last, levels, components) then [last] else [])
  }

  /** The filter keeps input order and keeps exactly the selected records,
      each as often as it occurs in the input. */
  lemma {:induction false} FilterLogsExact(logs: seq<LogRecord>, levels: set<string>, components: set<string>)
    ensures IsSubsequence(FilterLogs(logs, levels, components), logs)
    ensures forall x :: multiset(FilterLogs(logs, levels, components))[x]
                     == (if Selected(x, levels, components) then multiset(logs)[x] else 0)
  {
    if |logs| == 0 {
      EmptySubsequence(logs);
    } else {
      var init, last := logs[..|logs| - 1], logs[|logs| - 1];
      assert logs == init + [last];
      FilterLogsExact(init, levels, components);
      var kept := FilterLogs(init, levels, components);
      if Selected(last, levels, components) {
        assert FilterLogs(logs, levels, components) == kept + [last];
        SubsequenceTake(kept, init, last);
      } else {
        assert FilterLogs(logs, levels, components) == kept;
        SubsequenceSkip(kept, init, last);
      }
    }
  }

  /** A record without a `log_level` or a `component` column is never kept. */
  lemma MissingFieldNeverSelected(logs: seq<LogRecord>, levels: set<string>, components: set<string>, x: LogRecord)
    requires "log_level" !in x || "component" !in x
    ensures x !in FilterLogs(logs, levels, components)
  {
    FilterLogsExact(logs, levels, components);
  }

  // ---------------------------------------------------------------------
  // count_error_patterns

  /** `log.get('message', '')`. */
  function Message(log: LogRecord): string {
    GetOr(log, "message", "")
  }

  /** `re.search(pattern, message, re.IGNORECASE)` for a literal pattern. */
  predicate MessageMatches(log: LogRecord, pattern: string) {
    ContainsIgnoreCase(Message(log), pattern)
  }

  /** The number of records whose message matches `pattern`. */
  function MatchCount(logs: seq<LogRecord>, pattern: string): nat {
    if |logs| == 0 then 0
    else MatchCount(logs[..|logs| - 1], pattern) + (if MessageMatches(logs[|logs| - 1], pattern) then 1 else 0)
  }

  /** The positions of the records whose message matches `pattern`. */
  function MatchPositions(logs: seq<LogRecord>, pattern: string): set<int> {
    set i | 0 <= i < |logs| && MessageMatches(logs[i], pattern)
  }

  /** One more record adds its own position, or nothing. */
  lemma MatchPositionsSnoc(logs: seq<LogRecord>, pattern: string)
    requires |logs| > 0
    ensures var n := |logs| - 1;
      MatchPositions(logs, pattern)
      == MatchPositions(logs[..n], pattern) + (if MessageMatches(logs[n], pattern) then {n} else {})
  {
    var n := |logs| - 1;
    var init := logs[..n];
    var last: set<int> := if MessageMatches(logs[n], pattern) then {n} else {};
    forall i
      ensures i in MatchPositions(logs, pattern) <==> i in MatchPositions(init, pattern) + last
    {
      if 0 <= i < n {
        assert init[i] == logs[i];
      }
    }
  }

  /** `MatchCount` is the number of positions holding a matching record. */
  lemma {:induction false} MatchCountIsCardinality(logs: seq<LogRecord>, pattern: string)
    ensures MatchCount(logs, pattern) == |MatchPositions(logs, pattern)|
  {
    if |logs| > 0 {
      var n := |logs| - 1;
      var before := MatchPositions(logs[..n], pattern);
      MatchCountIsCardinality(logs[..n], pattern);
      MatchPositionsSnoc(logs, pattern);
      assert n !in before;
    } else {
      assert MatchPositions(logs, pattern) == {};
    }
  }

  lemma {:induction false} MatchCountBound(logs: seq<LogRecord>, pattern: string)
    ensures MatchCount(logs, pattern) <= |logs|
  {
    if |logs| > 0 {
      MatchCountBound(logs[..|logs| - 1], pattern);
    }
  }

  /** What one record adds to a pattern's count when the loop over the
      pattern list has reached the end of `patterns`. */
  function Contribution(log: LogRecord, patterns: seq<string>, p: string): nat {
    if MessageMatches(log, p) then multiset(patterns)[p] else 0
  }

  /** What the first `n` records add to a pattern's count. */
  function Tally(logs: seq<LogRecord>, n: nat, patterns: seq<string>, p: string): nat
    requires n <= |logs|
  {
    if n == 0 then 0 else Tally(logs, n - 1, patterns, p) + Contribution(logs[n - 1], patterns, p)
  }

  /** The tally is the number of matching records times the number of times
      the pattern is listed. */
  lemma {:induction false} TallyIsProduct(logs: seq<LogRecord>, n: nat, patterns: seq<string>, p: string)
    requires n <= |logs|
    ensures Tally(logs, n, patterns, p) == MatchCount(logs[..n], p) * multiset(patterns)[p]
  {
    if n > 0 {
      TallyIsProduct(logs, n - 1, patterns, p);
      assert logs[..n][..n - 1] == logs[..n - 1];
      var c, m := MatchCount(logs[..n - 1], p), multiset(patterns)[p];
      if MessageMatches(logs[n - 1], p) {
        assert MatchCount(logs[..n], p) == c + 1;
        assert (c + 1) * m == c * m + m;
      } else {
        assert MatchCount(logs[..n], p) == c;
      }
    }
  }

  /** `count_error_patterns(logs, patterns)`: a `defaultdict(int)` that gets a
      key the first time a pattern matches. A pattern listed twice is tested,
      and counted, twice per record. */
  method CountErrorPatterns(logs: seq<LogRecord>, patterns: seq<string>) returns (counts: map<string, nat>)
    ensures forall p :: p in counts <==> p in patterns && MatchCount(logs, p) > 0
    ensures forall p :: p in counts ==> counts[p] == MatchCount(logs, p) * multiset(patterns)[p]
    ensures (forall a, b :: 0 <= a < b < |patterns| ==> patterns[a] != patterns[b]) ==>
      forall p :: p in counts ==> counts[p] == MatchCount(logs, p) <= |logs|
  {
    counts := map[];
    for i := 0 to |logs|
      invariant forall p :: p in counts ==> counts[p] > 0
      invariant forall p :: Count(counts, p) == Tally(logs, i, patterns, p)
    {
      var message := Message(logs[i]);
      ghost var before := counts;
      for j := 0 to |patterns|
        invariant forall p :: p in counts ==> counts[p] > 0
        invariant forall p :: Count(counts, p) == Count(before, p) + Contribution(logs[i], patterns[..j], p)
      {
        var pattern := patterns[j];
        assert patterns[..j + 1] == patterns[..j] + [pattern];
        if ContainsIgnoreCase(message, pattern) {
          counts := counts[pattern := Count(counts, pattern) + 1];
        }
      }
      assert patterns[..|patterns|] == patterns;
    }
    assert logs[..|logs|] == logs;
    forall p
      ensures Count(counts, p) == MatchCount(logs, p) * multiset(patterns)[p]
      ensures p in counts <==> p in patterns && MatchCount(logs, p) > 0
    {
      TallyIsProduct(logs, |logs|, patterns, p);
      ProductPositive(MatchCount(logs, p), multiset(patterns)[p]);
    }
    if forall a, b :: 0 <= a < b < |patterns| ==> patterns[a] != patterns[b] {
      forall p | p in counts
        ensures counts[p] == MatchCount(logs, p) <= |logs|
      {
        DistinctOnce(patterns, p);
        MatchCountBound(logs, p);
      }
    }
  }

  lemma ProductPositive(c: nat, m: nat)
    ensures c * m > 0 <==> c > 0 && m > 0
  {
    if c > 0 && m > 0 {
      assert c * m >= m;
    }
  }

  /** In a list without repetitions every member occurs once. */
  lemma {:induction false} DistinctOnce(s: seq<string>, x: string)
    requires forall a, b :: 0 <= a < b < |s| ==> s[a] != s[b]
    requires x in s
    ensures multiset(s)[x] == 1
  {
    var n := |s| - 1;
    assert s == s[..n] + [s[n]];
    if s[n] == x {
      assert x !in s[..n];
    } else {
      DistinctOnce(s[..n], x);
    }
  }

  // ---------------------------------------------------------------------
  // correlate_policy_deployment_failures

  /** `log.get('event_type') == 'POLICY_DEPLOYMENT' and log.get('status') == 'FAILED'`. */
  predicate IsPolicyFailure(log: LogRecord) {
    FieldIs(log, "event_type", "POLICY_DEPLOYMENT") && FieldIs(log, "status", "FAILED")
  }

  /** `logs[j].get('log_level') == 'ERROR'`. */
  predicate IsErrorLog(log: LogRecord) {
    FieldIs(log, "log_level", "ERROR")
  }

  /** The two record tests the correlator uses, as data. */
  datatype Kind = PolicyFailure | ErrorLevel

  predicate Is(kind: Kind, log: LogRecord) {
    match kind
    case PolicyFailure => IsPolicyFailure(log)
    case ErrorLevel => IsErrorLog(log)
  }

  /** The positions in `lo .. hi - 1` whose record is of `kind`, ascending. */
  function Positions(logs: seq<LogRecord>, kind: Kind, lo: nat, hi: nat): (r: seq<nat>)
    requires lo <= hi <= |logs|
    ensures forall k :: 0 <= k < |r| ==> lo <= r[k] < hi && Is(kind, logs[r[k]])
    ensures forall k, l :: 0 <= k < l < |r| ==> r[k] < r[l]
    decreases hi - lo
  {
    if hi == lo then []
    else Positions(logs, kind, lo, hi - 1) + (if Is(kind, logs[hi - 1]) then [hi - 1] else [])
  }

  /** Every position of the range whose record is of `kind` is listed, so
      the list has at most `hi - lo` entries. */
  lemma {:induction false} PositionsComplete(logs: seq<LogRecord>, kind: Kind, lo: nat, hi: nat)
    requires lo <= hi <= |logs|
    ensures forall j :: lo <= j < hi && Is(kind, logs[j]) ==> j in Positions(logs, kind, lo, hi)
    ensures |Positions(logs, kind, lo, hi)| <= hi - lo
    decreases hi - lo
  {
    if hi > lo {
      PositionsComplete(logs, kind, lo, hi - 1);
    }
  }

  /** The records at the given positions, in the order of the positions. */
  function At(logs: seq<LogRecord>, idx: seq<nat>): (r: seq<LogRecord>)
    requires forall k :: 0 <= k < |idx| ==> idx[k] < |logs|
    ensures |r| == |idx| && forall k :: 0 <= k < |idx| ==> r[k] == logs[idx[k]]
  {
    if |idx| == 0 then [] else At(logs, idx[..|idx| - 1]) + [logs[idx[|idx| - 1]]]
  }

  /** `max(0, i - 5)`: the first index of the look-back window. */
  function WindowStart(i: nat): nat {
    if i < Lookback then 0 else i - Lookback
  }

  /** One entry of the result: `{'failure_log': ..., 'preceding_errors': ...}`. */
  datatype Correlation = Correlation(failureLog: LogRecord, precedingErrors: seq<LogRecord>)

  /** The ERROR records among `logs[lo .. hi - 1]`, in index order. */
  function ErrorsBetween(logs: seq<LogRecord>, lo: nat, hi: nat): seq<LogRecord>
    requires lo <= hi <= |logs|
    decreases hi - lo
  {
    if hi == lo then []
    else ErrorsBetween(logs, lo, hi - 1) + (if IsErrorLog(logs[hi - 1]) then [logs[hi - 1]] else [])
  }

  /** The errors of a range are the records at the ERROR positions of that
      range, in ascending position order. */
  lemma {:induction false} ErrorsBetweenPositions(logs: seq<LogRecord>, lo: nat, hi: nat)
    requires lo <= hi <= |logs|
    ensures ErrorsBetween(logs, lo, hi) == At(logs, Positions(logs, ErrorLevel, lo, hi))
    decreases hi - lo
  {
    if hi > lo {
      var before := Positions(logs, ErrorLevel, lo, hi - 1);
      ErrorsBetweenPositions(logs, lo, hi - 1);
      PositionsSnoc(logs, ErrorLevel, lo, hi - 1);
      if IsErrorLog(logs[hi - 1]) {
        assert Positions(logs, ErrorLevel, lo, hi) == before + [hi - 1];
        AtSnoc(logs, before, hi - 1);
      } else {
        assert Positions(logs, ErrorLevel, lo, hi) == before;
      }
    }
  }

  /** The entry the correlator builds for the failure at index `i`. */
  function CorrelationAt(logs: seq<LogRecord>, i: nat): Correlation
    requires i < |logs|
  {
    Correlation(logs[i], ErrorsBetween(logs, WindowStart(i), i))
  }

  /** The entries the correlator has produced after the first `n` records. */
  function Correlations(logs: seq<LogRecord>, n: nat): seq<Correlation>
    requires n <= |logs|
  {
    if n == 0 then []
    else Correlations(logs, n - 1) + (if IsPolicyFailure(logs[n - 1]) then [CorrelationAt(logs, n - 1)] else [])
  }

  /** `correlate_policy_deployment_failures(logs)`: one entry per failed policy
      deployment, in input order, each carrying the ERROR records of its
      look-back window. */
  method CorrelatePolicyDeploymentFailures(logs: seq<LogRecord>) returns (correlations: seq<Correlation>)
    ensures correlations == Correlations(logs, |logs|)
  {
    correlations := [];
    for i := 0 to |logs|
      invariant correlations == Correlations(logs, i)
    {
      var log := logs[i];
      if IsPolicyFailure(log) {
        var precedingErrors := [];
        var start := if i < Lookback then 0 else i - Lookback;
        for j := start to i
          invariant precedingErrors == ErrorsBetween(logs, start, j)
        {
          if IsErrorLog(logs[j]) {
            precedingErrors := precedingErrors + [logs[j]];
          }
        }
        correlations := correlations + [Correlation(log, precedingErrors)];
      }
    }
  }

  /** The result has one entry per failed policy deployment, in ascending
      index order, and the entry for the failure at index `i` is built from
      exactly that failure and its window. */
  lemma {:induction false} CorrelationsExact(logs: seq<LogRecord>, n: nat)
    requires n <= |logs|
    ensures var failures := Positions(logs, PolicyFailure, 0, n);
      && |Correlations(logs, n)| == |failures|
      && forall k :: 0 <= k < |failures| ==> Correlations(logs, n)[k] == CorrelationAt(logs, failures[k])
  {
    if n > 0 {
      CorrelationsExact(logs, n - 1);
      PositionsSnoc(logs, PolicyFailure, 0, n - 1);
    }
  }

  lemma PositionsSnoc(logs: seq<LogRecord>, kind: Kind, lo: nat, hi: nat)
    requires lo <= hi < |logs|
    ensures Positions(logs, kind, lo, hi + 1)
            == Positions(logs, kind, lo, hi) + (if Is(kind, logs[hi]) then [hi] else [])
  {
  }

  lemma AtSnoc(logs: seq<LogRecord>, idx: seq<nat>, j: nat)
    requires forall k :: 0 <= k < |idx| ==> idx[k] < |logs|
    requires j < |logs|
    ensures At(logs, idx + [j]) == At(logs, idx) + [logs[j]]
  {
    assert (idx + [j])[..|idx|] == idx;
  }

  /** The window of a failure at index `i` holds at most `min(5, i)` errors;
      a failure at index 0 has none. */
  lemma WindowBound(logs: seq<LogRecord>, i: nat)
    requires i < |logs|
    ensures |CorrelationAt(logs, i).precedingErrors| <= if i < Lookback then i else Lookback
    ensures i == 0 ==> CorrelationAt(logs, i).precedingErrors == []
  {
    PositionsComplete(logs, ErrorLevel, WindowStart(i), i);
    ErrorsBetweenPositions(logs, WindowStart(i), i);
  }

  /** Windows of nearby failures overlap and are not deduplicated: an error
      inside both windows is reported for both failures. */
  lemma OverlapReportedTwice(logs: seq<LogRecord>, i: nat, i2: nat, j: nat)
    requires i < i2 < |logs|
    requires WindowStart(i2) <= j < i && IsErrorLog(logs[j])
    ensures logs[j] in CorrelationAt(logs, i).precedingErrors
    ensures logs[j] in CorrelationAt(logs, i2).precedingErrors
  {
    PositionsComplete(logs, ErrorLevel, WindowStart(i), i);
    PositionsComplete(logs, ErrorLevel, WindowStart(i2), i2);
    ErrorsBetweenPositions(logs, WindowStart(i), i);
    ErrorsBetweenPositions(logs, WindowStart(i2), i2);
    var p1 := Positions(logs, ErrorLevel, WindowStart(i), i);
    var p2 := Positions(logs, ErrorLevel, WindowStart(i2), i2);
    var k1 :| 0 <= k1 < |p1| && p1[k1] == j;
    var k2 :| 0 <= k2 < |p2| && p2[k2] == j;
    assert CorrelationAt(logs, i).precedingErrors[k1] == logs[j];
    assert CorrelationAt(logs, i2).precedingErrors[k2] == logs[j];
  }

  /** Seven records with ERROR records at indices 2 and 4 and a failed
      policy deployment at index 5 give one entry, whose preceding errors
      are the records at 2 and 4, in that order. */
  lemma SevenRecordScenario(logs: seq<LogRecord>)
    requires |logs| == 7
    requires forall i :: 0 <= i < 7 ==> (IsErrorLog(logs[i]) <==> i == 2 || i == 4)
    requires forall i :: 0 <= i < 7 ==> (IsPolicyFailure(logs[i]) <==> i == 5)
    ensures Correlations(logs, 7) == [Correlation(logs[5], [logs[2], logs[4]])]
  {
    assert !IsPolicyFailure(logs[0]) && !IsPolicyFailure(logs[1]) && !IsPolicyFailure(logs[2]);
    assert !IsPolicyFailure(logs[3]) && !IsPolicyFailure(logs[4]) && !IsPolicyFailure(logs[6]);
    assert Correlations(logs, 1) == [];
    assert Correlations(logs, 2) == [];
    assert Correlations(logs, 3) == [];
    assert Correlations(logs, 4) == [];
    assert Correlations(logs, 5) == [];
    assert !IsErrorLog(logs[0]) && !IsErrorLog(logs[1]) && !IsErrorLog(logs[3]);
    assert ErrorsBetween(logs, 0, 1) == [];
    assert ErrorsBetween(logs, 0, 2) == [];
    assert ErrorsBetween(logs, 0, 3) == [logs[2]];
    assert ErrorsBetween(logs, 0, 4) == [logs[2]];
    assert ErrorsBetween(logs, 0, 5) == [logs[2], logs[4]];
  }
}
