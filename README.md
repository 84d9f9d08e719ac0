# Evax security-log triage, modelled in Dafny

Evax is a small Windows command-line tool. It runs one query against the
Security event log (failed log-ons, event 4625) in text form, parses the text
into `LogEntry` records, flags each record whose message mentions
"failed login" or "account locked" (ignoring case) as an `Anomaly`, and
either shows a single "all clear" desktop notification or asks a
text-completion service to explain each anomaly and shows each explanation
as a notification.

The model covers that pipeline:

- `wrappers.dfy` (`Wrappers`): the `Option` type used for results that may be absent.
- `go_strings.dfy` (`GoStrings`): the Go `strings` functions the pipeline uses, over strings of Unicode scalar values:
  - `TrimSpace`;
  - `HasPrefix` and `TrimPrefix`;
  - `ToLower`;
  - `Contains`;
  - `Split` on a one-character separator.
- `log_parser.dfy` (`LogParser`): `parseWindowsLogs`.
  - The method `ParseWindowsLogs` is the source's loop.
  - It is proved equal to the functional scan `Parse`. `Parse` is `Lex` of each line followed by `Step` over the lines.
  - `CurrentRef` is an independent, declarative description of the record under construction.
  - The lemmas about emitted entries are stated against `CurrentRef`.
- `anomaly_classifier.dfy` (`AnomalyClassifier`): `isAnomalous` and `analyzeLogs`.
  - `AnalyzeLogs` is the loop. It is proved equal to the function `Analyze`.
- `pipeline.dfy` (`Pipeline`): the control flow of `main` after the logs are fetched.
  - It has two inputs:
    - the query's output, `None` when the command fails;
    - one raw answer of the completion service per anomaly, `None` when the call fails.
  - It yields the prompts sent and the notifications shown.

### Behaviour worth knowing

- **The record is never reset after a `Message:` line.** When only message or unlabelled lines come between two message lines, the second emits the first one's identifier, timestamp and task again, with its own details; a `Time Created:` or `Task:` line in between overwrites that field first (`LogParser.MessageKeepsRecord`).
- **Every `Message:` line emits an entry, even one with an empty identifier.** This happens when no `Event ID:` line came before it (`LogParser.MessageWithoutEventId`).
- **A line is recognised by its label without the space, but the value is cut with the space.**
  - `HasPrefix` tests `Event ID:` and the other labels without a trailing space.
  - `TrimPrefix` then removes the label and one space.
  - So `Event ID:4625` stores the whole line `Event ID:4625` as the identifier (`LogParser.LexLabelWithoutSpace`).
- **A failed escalation is logged and skipped.** There is no fallback notification. With two anomalies whose first escalation fails and whose second succeeds, exactly one notification is shown, carrying the second answer (`Pipeline.FirstFailsSecondSucceeds`).

## Model

| member | source | states |
|---|---|---|
| LogParser.ParseWindowsLogs | main.go:39-58 | the loop returns exactly the functional scan's entries, as many as there are lines of the raw text that start with `Message:` once trimmed |
| LogParser.Scan | main.go:41-56 | the scan emits exactly one record per message line |
| LogParser.Step | main.go:45-55 | an unlabelled line changes nothing, a message line appends the updated record, every other line leaves the emitted records alone |
| LogParser.ClassifySpec | main.go:44-55 | a trimmed line is labelled exactly when it starts with one of the four labels; its value is the line minus label and space, or the whole line when that prefix is absent |
| LogParser.CurrentMatchesRef | main.go:42-55 | the scan's record under construction equals the reference record: each field is the value of the last line of its kind since the last `Event ID:` line |
| LogParser.EntryAt | main.go:52-54 | the `n`-th message line emits entry number `n`, and that entry is the reference record just after that line |
| LogParser.EventIdResets | main.go:45-47 | an entry carries the identifier of the last `Event ID:` line before its message line, its own details, and an empty timestamp or task unless one was set after that `Event ID:` line |
| LogParser.MessageWithoutEventId | main.go:42 | a message line with no `Event ID:` line before it emits an entry whose identifier is empty |
| LogParser.MessageKeepsRecord | main.go:52-54 | a later message line, with only message or unlabelled lines in between, emits the same identifier, timestamp and task with its own details |
| LogParser.EntriesInOrder | main.go:52-54 | entries appear in the order of the message lines that emit them |
| LogParser.EntryOrigin | main.go:52-54 | every emitted entry is the one of some message line |
| LogParser.LogsPrefix | main.go:43-56 | the entries of a prefix of the lines are a prefix of all entries |
| LogParser.ParseEmpty | main.go:39-58 | empty output yields no entries |
| LogParser.LexMessage | main.go:52-54 | a line emits an entry exactly when, once trimmed, it starts with `Message:` |
| LogParser.ParseCountsMessageLines | main.go:40-55 | the number of entries parsed from a raw text is the number of its line-feed-separated pieces that start with `Message:` once trimmed |
| LogParser.LexLabelled | main.go:45-53 | a line that is, once trimmed, a label, one space and a value stores that value under the label's field |
| LogParser.LexLabelWithoutSpace | main.go:45-53 | a line that is, once trimmed, a label directly followed by a non-space stores the whole trimmed line |
| LogParser.LexIgnoresSpaces | main.go:44 | white space around a line, such as a carriage return left by splitting at line feeds, does not change how the line is read |
| LogParser.LastOf | main.go:45-53 | the reference's index is the last line of the given kind in range, or none exists |
| AnomalyClassifier.IsAnomalous | main.go:75-78 | an entry is anomalous exactly when "failed login" or "account locked" occurs in its lower-cased details |
| AnomalyClassifier.IsAnomalousIgnoresCase | main.go:76-77 | ASCII upper-casing of the details does not change the verdict |
| AnomalyClassifier.IsAnomalousOnlyDetails | main.go:76-77 | the verdict depends only on the lower-cased details |
| AnomalyClassifier.Analyze | main.go:61-72 | one anomaly per anomalous entry, so never more anomalies than entries |
| AnomalyClassifier.AnalyzeLogs | main.go:61-72 | the loop returns exactly the anomalies that `Analyze` specifies, at most one per entry |
| AnomalyClassifier.AnalyzeAt | main.go:64-68 | an anomalous entry is reported at the position counted by the anomalous entries before it, with its identifier and the description "Potential anomaly detected in log with ID <id>: <details>" |
| AnomalyClassifier.AnalyzeOrigin | main.go:63-69 | every reported anomaly comes from an anomalous entry |
| AnomalyClassifier.AnalyzeMembership | main.go:61-72 | an anomaly is reported if and only if some anomalous entry describes it |
| AnomalyClassifier.AnalyzePrefix | main.go:63-70 | the anomalies of a prefix of the entries are a prefix of all anomalies |
| AnomalyClassifier.AnalyzeAppend | main.go:63-70 | classification is entry by entry: the anomalies of concatenated entry lists are concatenated |
| Pipeline.Run | main.go:111-142 | a failed query aborts; otherwise the run sends the prompts and shows the notifications that the parsed and analysed output determines |
| Pipeline.HandleAnomalies | main.go:120-141 | one clean notification when there is no anomaly; otherwise one prompt per anomaly and the notifications `Notifications` specifies |
| Pipeline.PromptOfEntry | main.go:85 | the prompt for an anomalous entry, at the position counted by the anomalous entries before it, is the request text followed by "Potential anomaly detected in log with ID <id>: <details>" |
| Pipeline.Alerts | main.go:129-141 | one notification per successful answer, so never more than there are anomalies |
| Pipeline.AlertsAt | main.go:133-140 | a successful answer is shown, at the position counted by the successes before it, titled "Security Audit - Anomaly Detected" and carrying the trimmed answer |
| Pipeline.AlertsOrigin | main.go:129-141 | every anomaly notification carries the trimmed text of some successful answer |
| Pipeline.AlertsPrefix | main.go:129-141 | the answers to a prefix of the calls yield a prefix of the notifications |
| Pipeline.AlertsAppend | main.go:129-141 | each answer is handled on its own: concatenated answer lists yield concatenated notifications |
| Pipeline.FailureIsolated | main.go:133-137 | a failed escalation adds no notification and does not change what later anomalies yield |
| Pipeline.NoAnomalyIsClean | main.go:121-126 | with no anomaly: exactly one "Security Audit" notification saying no anomalies were found, and no prompt |
| Pipeline.AnomalyNotificationsTitled | main.go:129-141 | with anomalies, every notification is an anomaly notification and there are at most as many as anomalies |
| Pipeline.FirstFailsSecondSucceeds | main.go:129-141 | two anomalies whose first escalation fails and second succeeds yield one notification, with the second answer |
| Pipeline.EmptyOutputRun | main.go:113-126 | empty query output yields no anomaly and the clean notification |
| GoStrings.TrimSpaceSpec | main.go:44 | the trimmed line is a slice of the line with only white space around it, neither starting nor ending with white space, and empty exactly when the line is all white space |
| GoStrings.TrimSpaceIgnoresSpaces | main.go:44 | white space added at either end does not change the trimmed line |
| GoStrings.TrimPrefix | main.go:47 | with the prefix present, prefix plus result is the input; otherwise the input is returned unchanged |
| GoStrings.ToLower | main.go:76-77 | same length; each character is mapped to its lower case |
| GoStrings.ToLowerOfToUpper | main.go:76-77 | lower-casing forgets an earlier ASCII upper-casing |
| GoStrings.Contains | main.go:76-77 | true exactly when the phrase occurs at some position of the text |
| GoStrings.Split | main.go:40 | one piece more than there are separators; no piece contains the separator; joining the pieces gives the text back |
| GoStrings.SplitJoin | main.go:40 | splitting the join of separator-free pieces gives the pieces back |

## Left out

- Running `wevtutil` (main.go:29-36) is not modelled. The command's output is the input `fetched`. A failure (`None`) ends the run as `Aborted`, which stands for `log.Fatalf`. The query's arguments are not modelled.
- The completion client (main.go:81-96) is an oracle. The model keeps one raw answer per anomaly, and `Escalate` trims it as `strings.TrimSpace` does.
  - The API key, the model name and the 50-token limit are not modelled.
  - An answer with no choice makes `resp.Choices[0]` panic in the source. The model has no such case: it treats every successful call as one that carries an answer.
- Notification delivery (main.go:99-109) is not modelled. The model returns the notifications (title and message) the tool would push. The application id and the logging of a failed push are not modelled.
- Console and log output (`fmt.Printf`, `fmt.Println`, `log.Printf`) are not modelled. They do not affect what is parsed, sent or notified.
- Concurrency is not modelled; the tool is single-threaded.
- Strings are sequences of Unicode scalar values, and invalid UTF-8 in the query output is not modelled. `TrimSpace` uses Go's full Unicode white-space set.
- GoStrings.ToLower: maps only `A`-`Z`, U+0130 and U+212A, the characters whose lower case is ASCII; other case mappings are left out. They cannot change whether the ASCII phrases "failed login" and "account locked" occur.
- GoStrings.Split: only the one-character separator `"\n"` the parser uses.
- `main`'s `return` after the clean notification and the `for` loop's `continue` are modelled by `HandleAnomalies`'s control flow. Their printed messages are not.
