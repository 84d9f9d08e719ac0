/**
 * The parser that turns the text output of the Windows event-log query into
 * `LogEntry` records: a single forward scan over the trimmed lines with one
 * record under construction.
 *
 * The model separates what the source does in one loop body into two steps:
 * `Lex` classifies one trimmed line and cuts out its value, `Step` updates
 * the scan's state with it.
 */
module LogParser {
  import opened Wrappers
  import opened GoStrings

  /** One audit record; every field is a string cut from one labelled line. */
  datatype LogEntry = LogEntry(id: string, timestamp: string, eventType: string, details: string)

  /** Go's zero value of `LogEntry`. */
  const EmptyEntry := LogEntry("", "", "", "")

  // The labels a line is recognised by (no trailing space) ...
  const EventIdLabel := "Event ID:"
  const TimeCreatedLabel := "Time Created:"
  const TaskLabel := "Task:"
  const MessageLabel := "Message:"

  // ... and the prefixes removed to get the field's value (with a trailing space).
  const EventIdPrefix := "Event ID: "
  const TimeCreatedPrefix := "Time Created: "
  const TaskPrefix := "Task: "
  const MessagePrefix := "Message: "

  datatype LineKind = EventIdLine | TimeCreatedLine | TaskLine | MessageLine | OtherLine

  /** A classified line: its kind and the value it stores (for an unlabelled line, the trimmed line). */
  datatype Line = Line(kind: LineKind, value: string)

  function PrefixOf(k: LineKind): string
    requires k != OtherLine
  {
    match k
    case EventIdLine => EventIdPrefix
    case TimeCreatedLine => TimeCreatedPrefix
    case TaskLine => TaskPrefix
    case MessageLine => MessagePrefix
  }

  function LabelOf(k: LineKind): string
    requires k != OtherLine
  {
    match k
    case EventIdLine => EventIdLabel
    case TimeCreatedLine => TimeCreatedLabel
    case TaskLine => TaskLabel
    case MessageLine => MessageLabel
  }

  /**
   * Classifies a raw line once trimmed; the labels are tried in the source's
   * order (ClassifySpec states the result).
   */
  function Lex(raw: string): Line {
    Classify(TrimSpace(raw))
  }

  /** The classification of an already trimmed line. */
  function Classify(t: string): Line {
    if HasPrefix(t, EventIdLabel) then Line(EventIdLine, TrimPrefix(t, EventIdPrefix))
    else if HasPrefix(t, TimeCreatedLabel) then Line(TimeCreatedLine, TrimPrefix(t, TimeCreatedPrefix))
    else if HasPrefix(t, TaskLabel) then Line(TaskLine, TrimPrefix(t, TaskPrefix))
    else if HasPrefix(t, MessageLabel) then Line(MessageLine, TrimPrefix(t, MessagePrefix))
    else Line(OtherLine, t)
  }

  /**
   * A trimmed line is labelled when it starts with one of the four labels,
   * and then it stores its text with the label AND one space removed, or the
   * whole text when that longer prefix is not there.
   */
  lemma ClassifySpec(t: string)
    ensures Classify(t).kind != OtherLine ==> HasPrefix(t, LabelOf(Classify(t).kind))
    ensures Classify(t).kind == OtherLine <==> forall k | k != OtherLine :: !HasPrefix(t, LabelOf(k))
    ensures Classify(t).kind != OtherLine && HasPrefix(t, PrefixOf(Classify(t).kind)) ==>
      PrefixOf(Classify(t).kind) + Classify(t).value == t
    ensures Classify(t).kind != OtherLine && !HasPrefix(t, PrefixOf(Classify(t).kind)) ==>
      Classify(t).value == t
    ensures Classify(t).kind == OtherLine ==> Classify(t).value == t
  {
  }

  /** The classified lines of a raw text, in order. */
  function LexAll(raw: string): seq<Line> {
    var lines := Split(raw, '\n');
    seq(|lines|, i requires 0 <= i < |lines| => Lex(lines[i]))
  }

  /** The scan's state: the record under construction and the records emitted so far. */
  datatype ParserState = ParserState(current: LogEntry, logs: seq<LogEntry>)

  const Start := ParserState(EmptyEntry, [])

  /** One iteration of the scan; it emits exactly when the line is a message line. */
  function Step(st: ParserState, l: Line): (r: ParserState)
    ensures l.kind == OtherLine ==> r == st
    ensures l.kind == MessageLine ==> r.logs == st.logs + [r.current]
    ensures l.kind != MessageLine ==> r.logs == st.logs
  {
    match l.kind
    case EventIdLine => ParserState(EmptyEntry.(id := l.value), st.logs)
    case TimeCreatedLine => st.(current := st.current.(timestamp := l.value))
    case TaskLine => st.(current := st.current.(eventType := l.value))
    case MessageLine =>
      var c := st.current.(details := l.value);
      ParserState(c, st.logs + [c])
    case OtherLine => st
  }

  /** The number of lines of kind `k`. */
  function CountKind(ls: seq<Line>, k: LineKind): nat {
    if ls == [] then 0
    else CountKind(ls[..|ls| - 1], k) + (if ls[|ls| - 1].kind == k then 1 else 0)
  }

  /** The state after scanning `ls` from the start; one record is emitted per message line. */
  function Scan(ls: seq<Line>): (r: ParserState)
    ensures |r.logs| == CountKind(ls, MessageLine)
  {
    if ls == [] then Start else Step(Scan(ls[..|ls| - 1]), ls[|ls| - 1])
  }

  /** `parseWindowsLogs`: the records of a raw query output. */
  function Parse(raw: string): seq<LogEntry> {
    Scan(LexAll(raw)).logs
  }

  /** `parseWindowsLogs` as the source runs it: one loop updating `current` field by field. */
  method ParseWindowsLogs(raw: string) returns (logs: seq<LogEntry>)
    ensures logs == Parse(raw)
    ensures |logs| == CountMessageLines(Split(raw, '\n'))
  {
    var lines := Split(raw, '\n');
    ghost var ls := LexAll(raw);
    var current := EmptyEntry;
    logs := [];
    for i := 0 to |lines|
      invariant ParserState(current, logs) == Scan(ls[..i])
    {
      assert ls[..i + 1][..i] == ls[..i];
      assert Scan(ls[..i + 1]) == Step(Scan(ls[..i]), ls[i]);
      assert ls[i] == Lex(lines[i]);
      var line := TrimSpace(lines[i]);
      if HasPrefix(line, EventIdLabel) {
        current := EmptyEntry;
        current := current.(id := TrimPrefix(line, EventIdPrefix));
      } else if HasPrefix(line, TimeCreatedLabel) {
        current := current.(timestamp := TrimPrefix(line, TimeCreatedPrefix));
      } else if HasPrefix(line, TaskLabel) {
        current := current.(eventType := TrimPrefix(line, TaskPrefix));
      } else if HasPrefix(line, MessageLabel) {
        current := current.(details := TrimPrefix(line, MessagePrefix));
        logs := logs + [current];
      }
    }
    assert ls[..|lines|] == ls;
    ParseCountsMessageLines(raw);
  }

  // ---------------------------------------------------------------------
  // A reference description of the record under construction, independent
  // of the scan: each field holds the value of the last line of its kind
  // since the last `Event ID:` line (the identifier that line's own).
  // ---------------------------------------------------------------------

  /** The index of the last line of kind `k` at or after `from`, if any. */
  function LastOf(ls: seq<Line>, k: LineKind, from: nat): (r: Option<nat>)
    ensures r.Some? ==> from <= r.value < |ls| && ls[r.value].kind == k
    ensures r.Some? ==> forall m | r.value < m < |ls| :: ls[m].kind != k
    ensures r.None? ==> forall m | from <= m < |ls| :: ls[m].kind != k
  {
    if |ls| <= from then None
    else if ls[|ls| - 1].kind == k then Some(|ls| - 1)
    else LastOf(ls[..|ls| - 1], k, from)
  }

  /** The value stored by line `o`, or the empty string when there is no such line. */
  function ValueAt(ls: seq<Line>, o: Option<nat>): string
    requires o.Some? ==> o.value < |ls|
  {
    if o.Some? then ls[o.value].value else ""
  }

  /** The record under construction after `ls`, described by the last relevant lines. */
  function CurrentRef(ls: seq<Line>): LogEntry {
    var e := LastOf(ls, EventIdLine, 0);
    var from := if e.Some? then e.value + 1 else 0;
    LogEntry(
      ValueAt(ls, e),
      ValueAt(ls, LastOf(ls, TimeCreatedLine, from)),
      ValueAt(ls, LastOf(ls, TaskLine, from)),
      ValueAt(ls, LastOf(ls, MessageLine, from)))
  }

  /** LastOf is the only index its contract allows. */
  lemma LastOfIs(ls: seq<Line>, k: LineKind, from: nat, i: nat)
    requires from <= i < |ls| && ls[i].kind == k
    requires forall m | i < m < |ls| :: ls[m].kind != k
    ensures LastOf(ls, k, from) == Some(i)
  {
  }

  /** Lines without kind `k` appended after `n` do not change the last line of kind `k`. */
  lemma LastOfExtend(ls: seq<Line>, n: nat, k: LineKind, from: nat)
    requires from <= n <= |ls|
    requires forall m | n <= m < |ls| :: ls[m].kind != k
    ensures LastOf(ls, k, from) == LastOf(ls[..n], k, from)
  {
    var o := LastOf(ls[..n], k, from);
    if o.Some? {
      LastOfIs(ls, k, from, o.value);
    } else {
      assert forall m | from <= m < n :: ls[..n][m].kind != k;
    }
  }

  /** The reference value of field `k` after one more line. */
  lemma ValueAfterAppend(ls: seq<Line>, k: LineKind, from: nat)
    requires ls != [] && from < |ls|
    ensures ValueAt(ls, LastOf(ls, k, from)) ==
      if ls[|ls| - 1].kind == k then ls[|ls| - 1].value
      else ValueAt(ls[..|ls| - 1], LastOf(ls[..|ls| - 1], k, from))
  {
  }

  /** The reference record after one more line is the scan's step applied to the reference record. */
  lemma RefAppend(ls: seq<Line>)
    requires ls != []
    ensures CurrentRef(ls) == Step(ParserState(CurrentRef(ls[..|ls| - 1]), []), ls[|ls| - 1]).current
  {
    var n := |ls| - 1;
    var p := ls[..n];
    if ls[n].kind == EventIdLine {
      LastOfIs(ls, EventIdLine, 0, n);
    } else {
      LastOfExtend(ls, n, EventIdLine, 0);
      var e := LastOf(p, EventIdLine, 0);
      var from := if e.Some? then e.value + 1 else 0;
      assert ValueAt(ls, e) == ValueAt(p, e);
      ValueAfterAppend(ls, TimeCreatedLine, from);
      ValueAfterAppend(ls, TaskLine, from);
      ValueAfterAppend(ls, MessageLine, from);
    }
  }

  /** The scan's record under construction is the reference record. */
  lemma {:induction false} CurrentMatchesRef(ls: seq<Line>)
    ensures Scan(ls).current == CurrentRef(ls)
  {
    if ls != [] {
      CurrentMatchesRef(ls[..|ls| - 1]);
      RefAppend(ls);
    }
  }

  /** The records of a prefix of the lines are a prefix of the records of all of them. */
  lemma {:induction false} LogsPrefix(ls: seq<Line>, n: nat)
    requires n <= |ls|
    ensures Scan(ls[..n]).logs <= Scan(ls).logs
    decreases |ls|
  {
    if n < |ls| {
      var p := ls[..|ls| - 1];
      assert p[..n] == ls[..n];
      LogsPrefix(p, n);
    } else {
      assert ls[..n] == ls;
    }
  }

  /**
   * The message line `j` emits the record numbered by the message lines
   * before it, and that record is the reference record right after line `j`.
   */
  lemma EntryAt(ls: seq<Line>, j: nat)
    requires j < |ls| && ls[j].kind == MessageLine
    ensures CountKind(ls[..j], MessageLine) < |Scan(ls).logs|
    ensures Scan(ls).logs[CountKind(ls[..j], MessageLine)] == CurrentRef(ls[..j + 1])
  {
    var q := ls[..j + 1];
    assert q[..j] == ls[..j];
    CurrentMatchesRef(q);
    LogsPrefix(ls, j + 1);
  }

  // ---------------------------------------------------------------------
  // What the emitted records hold.
  // ---------------------------------------------------------------------

  /**
   * An `Event ID:` line discards the record under construction: the entry
   * emitted by a later message line carries that line's identifier, and a
   * timestamp or task seen before it only when set again after it.
   */
  lemma EventIdResets(ls: seq<Line>, i: nat, j: nat)
    requires i < j < |ls| && ls[i].kind == EventIdLine && ls[j].kind == MessageLine
    requires forall m | i < m < j :: ls[m].kind != EventIdLine
    ensures CountKind(ls[..j], MessageLine) < |Scan(ls).logs|
    ensures var e := Scan(ls).logs[CountKind(ls[..j], MessageLine)];
      && e.id == ls[i].value
      && e.details == ls[j].value
      && ((forall m | i < m < j :: ls[m].kind != TimeCreatedLine) ==> e.timestamp == "")
      && ((forall m | i < m < j :: ls[m].kind != TaskLine) ==> e.eventType == "")
  {
    EntryAt(ls, j);
    var q := ls[..j + 1];
    LastOfIs(q, EventIdLine, 0, i);
    LastOfIs(q, MessageLine, i + 1, j);
  }

  /** A message line with no `Event ID:` line before it emits an entry with an empty identifier. */
  lemma MessageWithoutEventId(ls: seq<Line>, j: nat)
    requires j < |ls| && ls[j].kind == MessageLine
    requires forall m | 0 <= m < j :: ls[m].kind != EventIdLine
    ensures CountKind(ls[..j], MessageLine) < |Scan(ls).logs|
    ensures var e := Scan(ls).logs[CountKind(ls[..j], MessageLine)];
      e.id == "" && e.details == ls[j].value
  {
    EntryAt(ls, j);
    var q := ls[..j + 1];
    assert LastOf(q, EventIdLine, 0) == None;
    LastOfIs(q, MessageLine, 0, j);
  }

  /**
   * A message line does not reset the record: a later message line with only
   * message or unlabelled lines in between emits the same identifier,
   * timestamp and task again, with its own details.
   */
  lemma MessageKeepsRecord(ls: seq<Line>, j1: nat, j2: nat)
    requires j1 < j2 < |ls| && ls[j1].kind == MessageLine && ls[j2].kind == MessageLine
    requires forall m | j1 < m < j2 :: ls[m].kind == MessageLine || ls[m].kind == OtherLine
    ensures CountKind(ls[..j1], MessageLine) < CountKind(ls[..j2], MessageLine) < |Scan(ls).logs|
    ensures Scan(ls).logs[CountKind(ls[..j2], MessageLine)] ==
      Scan(ls).logs[CountKind(ls[..j1], MessageLine)].(details := ls[j2].value)
  {
    EntryAt(ls, j1);
    EntryAt(ls, j2);
    EntriesInOrder(ls, j1, j2);
    var q2 := ls[..j2 + 1];
    assert q2[..j1 + 1] == ls[..j1 + 1];
    RefAfterQuietLines(q2, j1 + 1);
  }

  /** Message and unlabelled lines change only the details of the record under construction. */
  lemma RefAfterQuietLines(q: seq<Line>, n: nat)
    requires n < |q| && q[|q| - 1].kind == MessageLine
    requires forall m | n <= m < |q| :: q[m].kind == MessageLine || q[m].kind == OtherLine
    ensures CurrentRef(q) == CurrentRef(q[..n]).(details := q[|q| - 1].value)
  {
    CurrentMatchesRef(q);
    CurrentMatchesRef(q[..n]);
    ScanQuiet(q, n);
  }

  lemma {:induction false} ScanQuiet(q: seq<Line>, n: nat)
    requires n <= |q|
    requires forall m | n <= m < |q| :: q[m].kind == MessageLine || q[m].kind == OtherLine
    ensures Scan(q).current.(details := "") == Scan(q[..n]).current.(details := "")
    decreases |q|
  {
    if n < |q| {
      var p := q[..|q| - 1];
      assert p[..n] == q[..n];
      ScanQuiet(p, n);
    } else {
      assert q[..n] == q;
    }
  }

  /** Counting a kind over a longer prefix never gives less. */
  lemma {:induction false} CountKindMono(ls: seq<Line>, a: nat, b: nat, k: LineKind)
    requires a <= b <= |ls|
    ensures CountKind(ls[..a], k) <= CountKind(ls[..b], k)
    decreases b - a
  {
    if a < b {
      CountKindMono(ls, a, b - 1, k);
      assert ls[..b][..b - 1] == ls[..b - 1];
    }
  }

  /** Entries appear in the order of the message lines that emit them. */
  lemma EntriesInOrder(ls: seq<Line>, j1: nat, j2: nat)
    requires j1 < j2 < |ls| && ls[j1].kind == MessageLine && ls[j2].kind == MessageLine
    ensures CountKind(ls[..j1], MessageLine) < CountKind(ls[..j2], MessageLine)
  {
    assert ls[..j1 + 1][..j1] == ls[..j1];
    CountKindMono(ls, j1 + 1, j2, MessageLine);
  }

  /** Every emitted entry is the one of some message line: the scan emits nothing else. */
  lemma {:induction false} EntryOrigin(ls: seq<Line>, k: nat)
    requires k < |Scan(ls).logs|
    ensures exists j :: 0 <= j < |ls| && ls[j].kind == MessageLine && CountKind(ls[..j], MessageLine) == k
  {
    var n := |ls| - 1;
    var p := ls[..n];
    if k < CountKind(p, MessageLine) {
      EntryOrigin(p, k);
      var j :| 0 <= j < |p| && p[j].kind == MessageLine && CountKind(p[..j], MessageLine) == k;
      assert p[..j] == ls[..j];
    } else {
      assert ls[n].kind == MessageLine && CountKind(ls[..n], MessageLine) == k;
    }
  }

  /** Empty input yields no entries. */
  lemma ParseEmpty()
    ensures Parse("") == []
  {
    assert LexAll("") == [Lex("")];
  }

  /** The number of raw lines that, once trimmed, start with `Message:`. */
  function CountMessageLines(lines: seq<string>): nat {
    if lines == [] then 0
    else
      CountMessageLines(lines[..|lines| - 1])
      + (if HasPrefix(TrimSpace(lines[|lines| - 1]), MessageLabel) then 1 else 0)
  }

  /**
   * The parser emits exactly as many entries as there are pieces of the raw
   * text, split at line feeds, that start with `Message:` once trimmed.
   */
  lemma ParseCountsMessageLines(raw: string)
    ensures |Parse(raw)| == CountMessageLines(Split(raw, '\n'))
  {
    LexedMessageCount(Split(raw, '\n'), LexAll(raw));
  }

  lemma {:induction false} LexedMessageCount(lines: seq<string>, ls: seq<Line>)
    requires |ls| == |lines|
    requires forall i | 0 <= i < |ls| :: ls[i] == Lex(lines[i])
    ensures CountKind(ls, MessageLine) == CountMessageLines(lines)
  {
    if ls != [] {
      var n := |ls| - 1;
      LexedMessageCount(lines[..n], ls[..n]);
      LexMessage(lines[n]);
    }
  }

  /** A trimmed line starting with a label and one space stores the rest of the line. */
  lemma LexLabelled(raw: string, k: LineKind, v: string)
    requires k != OtherLine && TrimSpace(raw) == PrefixOf(k) + v
    ensures Lex(raw) == Line(k, v)
  {
    ClassifyLabelled(TrimSpace(raw), k, v);
  }

  lemma ClassifyLabelled(t: string, k: LineKind, v: string)
    requires k != OtherLine && t == PrefixOf(k) + v
    ensures Classify(t) == Line(k, v)
  {
    var p := PrefixOf(k);
    assert t[..|p|] == p && t[|p|..] == v;
    assert p[..|LabelOf(k)|] == LabelOf(k);
    assert t[..|LabelOf(k)|] == LabelOf(k);
    OtherLabelsAbsent(t, k);
  }

  /** A line emits an entry exactly when, once trimmed, it starts with `Message:`. */
  lemma LexMessage(raw: string)
    ensures Lex(raw).kind == MessageLine <==> HasPrefix(TrimSpace(raw), MessageLabel)
  {
    if HasPrefix(TrimSpace(raw), MessageLabel) {
      OtherLabelsAbsent(TrimSpace(raw), MessageLine);
    }
  }

  /** A line starting with one label does not start with any label tried before it. */
  lemma OtherLabelsAbsent(t: string, k: LineKind)
    requires k != OtherLine && HasPrefix(t, LabelOf(k))
    ensures k != EventIdLine ==> !HasPrefix(t, EventIdLabel)
    ensures k != EventIdLine && k != TimeCreatedLine ==> !HasPrefix(t, TimeCreatedLabel)
    ensures k == MessageLine ==> !HasPrefix(t, TaskLabel)
  {
    var l := LabelOf(k);
    assert t[0] == l[0] && t[1] == l[1];
  }

  /**
   * The label is tested without the space that the removed prefix has: a
   * trimmed line such as `Event ID:4625` or `Task:x` is a labelled line
   * that stores the whole trimmed line.
   */
  lemma LexLabelWithoutSpace(raw: string, k: LineKind, v: string)
    requires k != OtherLine && TrimSpace(raw) == LabelOf(k) + v
    requires v == [] || v[0] != ' '
    ensures Lex(raw) == Line(k, TrimSpace(raw))
  {
    ClassifyLabelWithoutSpace(TrimSpace(raw), k, v);
  }

  lemma ClassifyLabelWithoutSpace(t: string, k: LineKind, v: string)
    requires k != OtherLine && t == LabelOf(k) + v
    requires v == [] || v[0] != ' '
    ensures Classify(t) == Line(k, t)
  {
    var l := LabelOf(k);
    assert t[..|l|] == l;
    OtherLabelsAbsent(t, k);
    assert v != [] ==> t[|l|] == v[0];
    assert !HasPrefix(t, PrefixOf(k));
  }

  /**
   * White space around a line, such as the carriage return a Windows line
   * ending leaves once the text is split at line feeds, does not change how
   * the line is read.
   */
  lemma LexIgnoresSpaces(a: string, line: string, b: string)
    requires AllSpace(a) && AllSpace(b)
    ensures Lex(a + line + b) == Lex(line)
  {
    TrimSpaceIgnoresSpaces(a, line, b);
  }
}
