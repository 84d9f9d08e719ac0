/**
 * The run of the triage tool: fetch the query output, parse it, classify
 * the entries, then either report that all is well or escalate each anomaly
 * to the text-completion service and notify its answer.
 *
 * The query command and the completion service are inputs: `fetched` is the
 * command's output (`None` when it fails), and `responses[i]` is the
 * service's raw answer for the `i`-th anomaly (`None` when the call fails).
 */
module Pipeline {
  import opened Wrappers
  import opened GoStrings
  import opened LogParser
  import opened AnomalyClassifier

  /** A desktop notification. */
  datatype Notification = Notification(title: string, message: string)

  const CleanTitle := "Security Audit"
  const CleanMessage := "No anomalies detected. Your system is safe."
  const AnomalyTitle := "Security Audit - Anomaly Detected"
  const PromptIntro := "Provide a concise explanation for the following anomaly:\n"

  const CleanNotification := Notification(CleanTitle, CleanMessage)

  /** The prompt sent to the completion service for an anomaly. */
  function Prompt(a: Anomaly): string {
    PromptIntro + a.description
  }

  /** The prompts sent for the anomalies, one per anomaly in order. */
  function Prompts(anomalies: seq<Anomaly>): seq<string> {
    seq(|anomalies|, i requires 0 <= i < |anomalies| => Prompt(anomalies[i]))
  }

  /** `escalateToOpenAI` given the service's raw answer: the answer trimmed, or the failure. */
  function Escalate(response: Option<string>): Option<string> {
    if response.Some? then Some(TrimSpace(response.value)) else None
  }

  /** The number of successful answers. */
  function CountSome(responses: seq<Option<string>>): nat {
    if responses == [] then 0
    else CountSome(responses[..|responses| - 1]) + (if responses[|responses| - 1].Some? then 1 else 0)
  }

  /** The notification an answer yields: one for a success, none for a failure. */
  function AlertOf(response: Option<string>): seq<Notification> {
    match Escalate(response)
    case Some(text) => [Notification(AnomalyTitle, text)]
    case None => []
  }

  /** The notifications of the escalation loop: one per successful answer, in order. */
  function Alerts(responses: seq<Option<string>>): (r: seq<Notification>)
    ensures |r| == CountSome(responses) <= |responses|
  {
    if responses == [] then []
    else Alerts(responses[..|responses| - 1]) + AlertOf(responses[|responses| - 1])
  }

  /** All notifications of a run that found the given anomalies. */
  function Notifications(anomalies: seq<Anomaly>, responses: seq<Option<string>>): seq<Notification>
    requires |responses| == |anomalies|
  {
    if |anomalies| == 0 then [CleanNotification] else Alerts(responses)
  }

  /**
   * The anomaly loop of `main` as the source runs it: with no anomaly one
   * clean notification; otherwise each anomaly is escalated in order, a
   * failure is skipped and a success notified.
   */
  method HandleAnomalies(anomalies: seq<Anomaly>, responses: seq<Option<string>>)
    returns (prompts: seq<string>, notes: seq<Notification>)
    requires |responses| == |anomalies|
    ensures prompts == Prompts(anomalies)
    ensures notes == Notifications(anomalies, responses)
  {
    prompts, notes := [], [];
    if |anomalies| == 0 {
      notes := notes + [Notification(CleanTitle, CleanMessage)];
      return;
    }
    for i := 0 to |anomalies|
      invariant prompts == Prompts(anomalies[..i])
      invariant notes == Alerts(responses[..i])
    {
      assert responses[..i + 1][..i] == responses[..i];
      prompts := prompts + [Prompt(anomalies[i])];
      var answer := Escalate(responses[i]);
      if answer.None? {
        continue;
      }
      notes := notes + [Notification(AnomalyTitle, answer.value)];
    }
    assert anomalies[..|anomalies|] == anomalies;
    assert responses[..|responses|] == responses;
  }

  /** How a run ends: aborted when the log query fails, else what it sent and notified. */
  datatype RunOutcome = Aborted | Completed(prompts: seq<string>, notifications: seq<Notification>)

  /** `main`, with the query output and the service's answers given. */
  method Run(fetched: Option<string>, responses: seq<Option<string>>) returns (outcome: RunOutcome)
    requires fetched.Some? ==> |responses| == |Analyze(Parse(fetched.value))|
    ensures fetched.None? ==> outcome == Aborted
    ensures fetched.Some? ==>
      var anomalies := Analyze(Parse(fetched.value));
      outcome == Completed(Prompts(anomalies), Notifications(anomalies, responses))
  {
    if fetched.None? {
      return Aborted;
    }
    var logs := ParseWindowsLogs(fetched.value);
    var anomalies := AnalyzeLogs(logs);
    var prompts, notes := HandleAnomalies(anomalies, responses);
    outcome := Completed(prompts, notes);
  }

  // ---------------------------------------------------------------------
  // What the run promises.
  // ---------------------------------------------------------------------

  /** With no anomaly, exactly one clean notification and no call to the service. */
  lemma NoAnomalyIsClean(responses: seq<Option<string>>)
    requires |responses| == 0
    ensures Notifications([], responses) == [Notification("Security Audit", "No anomalies detected. Your system is safe.")]
    ensures Prompts([]) == []
  {
  }

  /** The answers of a prefix of the calls yield a prefix of the notifications. */
  lemma {:induction false} AlertsPrefix(responses: seq<Option<string>>, n: nat)
    requires n <= |responses|
    ensures Alerts(responses[..n]) <= Alerts(responses)
    decreases |responses|
  {
    if n < |responses| {
      var p := responses[..|responses| - 1];
      assert p[..n] == responses[..n];
      AlertsPrefix(p, n);
    } else {
      assert responses[..n] == responses;
    }
  }

  /**
   * A successful answer is notified, numbered by the successful answers
   * before it, titled as an anomaly and carrying the trimmed answer.
   */
  lemma AlertsAt(responses: seq<Option<string>>, i: nat)
    requires i < |responses| && responses[i].Some?
    ensures CountSome(responses[..i]) < |Alerts(responses)|
    ensures Alerts(responses)[CountSome(responses[..i])] == Notification(AnomalyTitle, TrimSpace(responses[i].value))
  {
    assert responses[..i + 1][..i] == responses[..i];
    AlertsPrefix(responses, i + 1);
  }

  /** Every notification of the loop carries some successful answer. */
  lemma {:induction false} AlertsOrigin(responses: seq<Option<string>>, k: nat)
    requires k < |Alerts(responses)|
    ensures exists i ::
              && 0 <= i < |responses| && responses[i].Some? && CountSome(responses[..i]) == k
              && Alerts(responses)[k] == Notification(AnomalyTitle, TrimSpace(responses[i].value))
  {
    var n := |responses| - 1;
    var p := responses[..n];
    if k < CountSome(p) {
      AlertsOrigin(p, k);
      var i :| 0 <= i < |p| && p[i].Some? && CountSome(p[..i]) == k &&
        Alerts(p)[k] == Notification(AnomalyTitle, TrimSpace(p[i].value));
      assert p[..i] == responses[..i];
    } else {
      assert responses[n].Some? && CountSome(responses[..n]) == k;
    }
  }

  /** The loop handles each answer on its own: the notifications of two runs of answers are concatenated. */
  lemma {:induction false} AlertsAppend(xs: seq<Option<string>>, ys: seq<Option<string>>)
    ensures Alerts(xs + ys) == Alerts(xs) + Alerts(ys)
    decreases |ys|
  {
    if ys == [] {
      assert xs + ys == xs;
    } else {
      var n := |ys| - 1;
      assert (xs + ys)[..|xs + ys| - 1] == xs + ys[..n];
      AlertsAppend(xs, ys[..n]);
    }
  }

  /**
   * A failed escalation yields no notification and no fallback text, and
   * does not stop or change what the later anomalies yield.
   */
  lemma FailureIsolated(xs: seq<Option<string>>, ys: seq<Option<string>>)
    ensures Alerts(xs + [None] + ys) == Alerts(xs) + Alerts(ys)
  {
    AlertsAppend(xs + [None], ys);
    assert (xs + [None])[..|xs|] == xs;
  }

  /** With at least one anomaly every notification is titled as an anomaly and there are at most as many as anomalies. */
  lemma AnomalyNotificationsTitled(anomalies: seq<Anomaly>, responses: seq<Option<string>>)
    requires |responses| == |anomalies| > 0
    ensures |Notifications(anomalies, responses)| <= |anomalies|
    ensures forall n | n in Notifications(anomalies, responses) :: n.title == AnomalyTitle
  {
    forall n | n in Alerts(responses) ensures n.title == AnomalyTitle {
      var k :| 0 <= k < |Alerts(responses)| && Alerts(responses)[k] == n;
      AlertsOrigin(responses, k);
    }
  }

  /**
   * Two anomalies whose first escalation fails and second succeeds: one
   * notification, with the second answer; the first anomaly is not notified.
   */
  lemma FirstFailsSecondSucceeds(a1: Anomaly, a2: Anomaly, answer: string)
    ensures Notifications([a1, a2], [None, Some(answer)]) == [Notification(AnomalyTitle, TrimSpace(answer))]
    ensures Prompts([a1, a2]) == [Prompt(a1), Prompt(a2)]
  {
    var rs: seq<Option<string>> := [None, Some(answer)];
    var first: seq<Option<string>> := [None];
    assert rs[..1] == first && first[..0] == [];
    assert Alerts(first) == [];
    assert Alerts(rs) == Alerts(rs[..1]) + AlertOf(rs[1]);
  }

  /**
   * The prompt sent for an anomalous entry: the request text, then the
   * anomaly description naming the entry's identifier and details, at the
   * position counted by the anomalous entries before it.
   */
  lemma PromptOfEntry(logs: seq<LogEntry>, i: nat)
    requires i < |logs| && IsAnomalous(logs[i])
    ensures CountAnomalous(logs[..i]) < |Prompts(Analyze(logs))|
    ensures Prompts(Analyze(logs))[CountAnomalous(logs[..i])] ==
      PromptIntro + DescriptionIntro + logs[i].id + ": " + logs[i].details
  {
    AnalyzeAt(logs, i);
  }

  /** An empty query output: nothing parsed, nothing sent, one clean notification. */
  lemma EmptyOutputRun()
    ensures Analyze(Parse("")) == []
    ensures Notifications(Analyze(Parse("")), []) == [CleanNotification]
  {
    ParseEmpty();
  }
}
