/**
 * The rule-based classifier: an entry is an anomaly when its details,
 * lower-cased, contain "failed login" or "account locked".
 */
module AnomalyClassifier {
  import opened GoStrings
  import opened LogParser

  /** An entry judged risky: the entry's identifier and a fixed description. */
  datatype Anomaly = Anomaly(logId: string, description: string)

  const FailedLogin := "failed login"
  const AccountLocked := "account locked"
  const DescriptionIntro := "Potential anomaly detected in log with ID "

  /** `isAnomalous`: one of the two risk phrases is a substring of the lower-cased details. */
  function IsAnomalous(e: LogEntry): (r: bool)
    ensures r <==> Occurs(FailedLogin, ToLower(e.details)) || Occurs(AccountLocked, ToLower(e.details))
  {
    Contains(ToLower(e.details), FailedLogin) || Contains(ToLower(e.details), AccountLocked)
  }

  /** The anomaly reported for an entry. */
  function Describe(e: LogEntry): Anomaly {
    Anomaly(e.id, DescriptionIntro + e.id + ": " + e.details)
  }

  /** The number of anomalous entries. */
  function CountAnomalous(logs: seq<LogEntry>): nat {
    if logs == [] then 0
    else CountAnomalous(logs[..|logs| - 1]) + (if IsAnomalous(logs[|logs| - 1]) then 1 else 0)
  }

  /** `analyzeLogs`: the anomalies of the entries, in order; one per anomalous entry. */
  function Analyze(logs: seq<LogEntry>): (r: seq<Anomaly>)
    ensures |r| == CountAnomalous(logs) <= |logs|
  {
    if logs == [] then []
    else
      var e := logs[|logs| - 1];
      Analyze(logs[..|logs| - 1]) + (if IsAnomalous(e) then [Describe(e)] else [])
  }

  /** `analyzeLogs` as the source runs it: one loop appending to the result. */
  method AnalyzeLogs(logs: seq<LogEntry>) returns (anomalies: seq<Anomaly>)
    ensures anomalies == Analyze(logs)
    ensures |anomalies| <= |logs|
  {
    anomalies := [];
    for i := 0 to |logs|
      invariant anomalies == Analyze(logs[..i])
    {
      assert logs[..i + 1][..i] == logs[..i];
      if IsAnomalous(logs[i]) {
        anomalies := anomalies + [Anomaly(logs[i].id, DescriptionIntro + logs[i].id + ": " + logs[i].details)];
      }
    }
    assert logs[..|logs|] == logs;
  }

  /** The anomalies of a prefix of the entries are a prefix of all the anomalies. */
  lemma {:induction false} AnalyzePrefix(logs: seq<LogEntry>, n: nat)
    requires n <= |logs|
    ensures Analyze(logs[..n]) <= Analyze(logs)
    decreases |logs|
  {
    if n < |logs| {
      var p := logs[..|logs| - 1];
      assert p[..n] == logs[..n];
      AnalyzePrefix(p, n);
    } else {
      assert logs[..n] == logs;
    }
  }

  /**
   * An anomalous entry is reported, numbered by the anomalous entries before
   * it, with its own identifier and the fixed description.
   */
  lemma AnalyzeAt(logs: seq<LogEntry>, i: nat)
    requires i < |logs| && IsAnomalous(logs[i])
    ensures CountAnomalous(logs[..i]) < |Analyze(logs)|
    ensures Analyze(logs)[CountAnomalous(logs[..i])] ==
      Anomaly(logs[i].id, DescriptionIntro + logs[i].id + ": " + logs[i].details)
  {
    assert logs[..i + 1][..i] == logs[..i];
    AnalyzePrefix(logs, i + 1);
  }

  /** Every reported anomaly comes from an anomalous entry. */
  lemma {:induction false} AnalyzeOrigin(logs: seq<LogEntry>, k: nat)
    requires k < |Analyze(logs)|
    ensures exists i :: 0 <= i < |logs| && IsAnomalous(logs[i]) && CountAnomalous(logs[..i]) == k
  {
    var n := |logs| - 1;
    var p := logs[..n];
    if k < CountAnomalous(p) {
      AnalyzeOrigin(p, k);
      var i :| 0 <= i < |p| && IsAnomalous(p[i]) && CountAnomalous(p[..i]) == k;
      assert p[..i] == logs[..i];
    } else {
      assert IsAnomalous(logs[n]) && CountAnomalous(logs[..n]) == k;
    }
  }

  /**
   * An anomaly is reported exactly when some anomalous entry describes it:
   * no entry without a risk phrase is ever reported.
   */
  lemma AnalyzeMembership(logs: seq<LogEntry>, a: Anomaly)
    ensures a in Analyze(logs) <==> exists i :: 0 <= i < |logs| && IsAnomalous(logs[i]) && a == Describe(logs[i])
  {
    if a in Analyze(logs) {
      var k :| 0 <= k < |Analyze(logs)| && Analyze(logs)[k] == a;
      AnalyzeOrigin(logs, k);
      var i :| 0 <= i < |logs| && IsAnomalous(logs[i]) && CountAnomalous(logs[..i]) == k;
      AnalyzeAt(logs, i);
    }
    if exists i :: 0 <= i < |logs| && IsAnomalous(logs[i]) && a == Describe(logs[i]) {
      var i :| 0 <= i < |logs| && IsAnomalous(logs[i]) && a == Describe(logs[i]);
      AnalyzeAt(logs, i);
    }
  }

  /** Classification is entry by entry: the anomalies of two runs of entries are concatenated. */
  lemma {:induction false} AnalyzeAppend(xs: seq<LogEntry>, ys: seq<LogEntry>)
    ensures Analyze(xs + ys) == Analyze(xs) + Analyze(ys)
    decreases |ys|
  {
    if ys == [] {
      assert xs + ys == xs;
    } else {
      var n := |ys| - 1;
      assert (xs + ys)[..|xs + ys| - 1] == xs + ys[..n];
      AnalyzeAppend(xs, ys[..n]);
    }
  }

  /** Whether an entry is anomalous depends only on its lower-cased details. */
  lemma IsAnomalousOnlyDetails(e1: LogEntry, e2: LogEntry)
    requires ToLower(e1.details) == ToLower(e2.details)
    ensures IsAnomalous(e1) == IsAnomalous(e2)
  {
  }

  /** Matching ignores ASCII case: ASCII upper-casing of the details does not change the verdict. */
  lemma IsAnomalousIgnoresCase(e: LogEntry)
    ensures IsAnomalous(e.(details := ToUpper(e.details))) == IsAnomalous(e)
  {
    ToLowerOfToUpper(e.details);
  }
}
