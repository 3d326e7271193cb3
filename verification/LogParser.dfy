/** Reading an execution's outcome from its logs: pkg/executor/output/parser.go, from decoded lines on. */
module LogParser {
  import opened Collections
  import opened Executions

  datatype OutputType = LogEvent | LogLine | Error | ParsingError | ResultType | Unknown | OtherType(name: string)

  /** A result as it appears in a log; container logs may lack the status. */
  datatype LogResult = LogResult(status: Option<Status>, errorMessage: string, output: string) {
    predicate IsRunning() { status == Some(Running) }
  }

  /** A time is nanoseconds since the zero time. */
  datatype Output = Output(kind: OutputType, content: string, result: Option<LogResult>, time: int)

  const ZERO_TIME := 0

  function StatusName(s: Status): string {
    match s
    case Queued => "queued"
    case Running => "running"
    case Passed => "passed"
    case Failed => "failed"
    case Aborted => "aborted"
    case Timeout => "timeout"
  }

  /** getResultMessage, which needs a status. */
  function ResultMessage(r: LogResult): string
    requires r.status.Some?
  {
    match r.status.value
    case Failed => r.errorMessage
    case Passed => r.output
    case s => StatusName(s)
  }

  predicate SameSeverity(a: OutputType, b: OutputType) { a == b }

  predicate MoreSevere(a: OutputType, b: OutputType) {
    if SameSeverity(a, b) then false
    else if a == ResultType then true
    else if a == Error then b != ResultType
    else b != ResultType && b != Error
  }

  /** Two different ordinary types are each more severe than the other. */
  lemma MoreSevereIsNotAnOrder(a: OutputType, b: OutputType)
    requires a != b
    ensures MoreSevere(a, b) && MoreSevere(b, a) <==> a !in {ResultType, Error} && b !in {ResultType, Error}
  {
  }

  const NOTHING_YET := Output(LogLine, "", None, ZERO_TIME)

  /** The fold both deciding functions share. */
  function Step(best: Output, log: Output): Output {
    if MoreSevere(log.kind, best.kind) then log
    else if SameSeverity(log.kind, best.kind) && log.time >= best.time then log
    else best
  }

  function Best(logs: seq<Output>, ignore: Output -> bool): Output {
    if logs == [] then NOTHING_YET
    else
      var n := |logs| - 1;
      if ignore(logs[n]) then Best(logs[..n], ignore) else Step(Best(logs[..n], ignore), logs[n])
  }

  // ---------- container logs

  /** Results of the init container or the scraper pod, and results that say nothing. */
  predicate Unusable(log: Output) {
    log.kind == ResultType && (log.result.None? || log.result.value.status.None? || log.result.value.IsRunning())
  }

  function ContainerDecision(logs: seq<Output>): Option<Output> {
    var best := Best(logs, Unusable);
    if logs == [] || best.kind !in {ResultType, Error} then None else Some(best)
  }

  /** getDecidingContainerLogLine. */
  method DecidingContainerLogLine(logs: seq<Output>) returns (deciding: Option<Output>)
    ensures deciding == ContainerDecision(logs)
  {
    if |logs| == 0 {
      return None;
    }
    var resultLog := NOTHING_YET;
    for i := 0 to |logs|
      invariant resultLog == Best(logs[..i], Unusable)
    {
      assert logs[..i + 1][..i] == logs[..i];
      var log := logs[i];
      if log.kind == ResultType && (log.result.None? || log.result.value.status.None? || log.result.value.IsRunning()) {
        continue;
      }
      if MoreSevere(log.kind, resultLog.kind) {
        resultLog := log;
        continue;
      }
      if SameSeverity(log.kind, resultLog.kind) {
        if log.time < resultLog.time {
          continue;
        }
        resultLog := log;
      }
    }
    assert logs[..|logs|] == logs;
    if resultLog.kind != ResultType && resultLog.kind != Error {
      return None;
    }
    return Some(resultLog);
  }

  /** Entry i counts and is of this type. */
  predicate Counts(logs: seq<Output>, ignore: Output -> bool, kind: OutputType, i: nat) {
    i < |logs| && !ignore(logs[i]) && logs[i].kind == kind
  }

  /** Entry i is the latest that counts and is of this type, the last one of several at the same time. */
  ghost predicate Latest(logs: seq<Output>, ignore: Output -> bool, kind: OutputType, i: nat) {
    && Counts(logs, ignore, kind, i)
    && forall j: nat | Counts(logs, ignore, kind, j) ::
         logs[j].time <= logs[i].time && (logs[j].time == logs[i].time ==> j <= i)
  }

  ghost predicate AnyCounts(logs: seq<Output>, ignore: Output -> bool, kind: OutputType) {
    exists i: nat :: Counts(logs, ignore, kind, i)
  }

  /** The latest entry that counts and is of this type. */
  ghost predicate IsLatest(logs: seq<Output>, ignore: Output -> bool, kind: OutputType, log: Output) {
    exists i: nat :: Latest(logs, ignore, kind, i) && logs[i] == log
  }

  /** One more entry that does not count, or is of another type. */
  lemma LatestStays(logs: seq<Output>, log: Output, ignore: Output -> bool, kind: OutputType)
    requires ignore(log) || log.kind != kind
    ensures AnyCounts(logs + [log], ignore, kind) <==> AnyCounts(logs, ignore, kind)
    ensures forall best :: IsLatest(logs, ignore, kind, best) ==> IsLatest(logs + [log], ignore, kind, best)
  {
    var more := logs + [log];
    forall i: nat ensures Counts(more, ignore, kind, i) <==> Counts(logs, ignore, kind, i) {}
    forall best | IsLatest(logs, ignore, kind, best) ensures IsLatest(more, ignore, kind, best) {
      var i: nat :| Latest(logs, ignore, kind, i) && logs[i] == best;
      assert Latest(more, ignore, kind, i) && more[i] == best;
    }
  }

  /** One more entry that counts is the latest of its type, unless an earlier one is later. */
  lemma LatestMoves(logs: seq<Output>, log: Output, ignore: Output -> bool)
    requires !ignore(log)
    ensures AnyCounts(logs + [log], ignore, log.kind)
    ensures !AnyCounts(logs, ignore, log.kind) ==> IsLatest(logs + [log], ignore, log.kind, log)
    ensures forall best | IsLatest(logs, ignore, log.kind, best) ::
      IsLatest(logs + [log], ignore, log.kind, if log.time >= best.time then log else best)
  {
    var more, n := logs + [log], |logs|;
    forall i: nat | i < n ensures Counts(more, ignore, log.kind, i) <==> Counts(logs, ignore, log.kind, i) {}
    assert Counts(more, ignore, log.kind, n);
    if !AnyCounts(logs, ignore, log.kind) {
      assert Latest(more, ignore, log.kind, n);
    }
    forall best | IsLatest(logs, ignore, log.kind, best)
      ensures IsLatest(more, ignore, log.kind, if log.time >= best.time then log else best)
    {
      var i: nat :| Latest(logs, ignore, log.kind, i) && logs[i] == best;
      assert if log.time >= best.time then Latest(more, ignore, log.kind, n) else Latest(more, ignore, log.kind, i);
    }
  }

  /** This is the latest result that counts if there is one, else the latest error, else no result and no error. */
  ghost predicate IsLatestOfTheMostSevere(logs: seq<Output>, ignore: Output -> bool, best: Output) {
    if AnyCounts(logs, ignore, ResultType) then IsLatest(logs, ignore, ResultType, best)
    else if AnyCounts(logs, ignore, Error) then IsLatest(logs, ignore, Error, best)
    else best.kind !in {ResultType, Error}
  }

  lemma StepKeepsBest(logs: seq<Output>, log: Output, ignore: Output -> bool, best: Output)
    requires IsLatestOfTheMostSevere(logs, ignore, best)
    ensures IsLatestOfTheMostSevere(logs + [log], ignore, if ignore(log) then best else Step(best, log))
  {
    if ignore(log) {
      LatestStays(logs, log, ignore, ResultType);
      LatestStays(logs, log, ignore, Error);
    } else {
      LatestMoves(logs, log, ignore);
      if log.kind != ResultType { LatestStays(logs, log, ignore, ResultType); }
      if log.kind != Error { LatestStays(logs, log, ignore, Error); }
    }
  }

  /** The fold's answer, although the relation it folds is no order: results beat errors, which beat the rest. */
  lemma {:induction false} BestIsLatestOfTheMostSevere(logs: seq<Output>, ignore: Output -> bool)
    ensures IsLatestOfTheMostSevere(logs, ignore, Best(logs, ignore))
  {
    if logs == [] {
    } else {
      var n := |logs| - 1;
      BestIsLatestOfTheMostSevere(logs[..n], ignore);
      StepKeepsBest(logs[..n], logs[n], ignore, Best(logs[..n], ignore));
      assert logs == logs[..n] + [logs[n]];
    }
  }

  /**
   * The deciding line of a container log is the latest usable result if there is one, else the latest error, else
   * there is none.
   */
  lemma ContainerDecisionIsLexicographicMaximum(logs: seq<Output>)
    ensures if exists i: nat :: Counts(logs, Unusable, ResultType, i)
      then exists i: nat :: Latest(logs, Unusable, ResultType, i) && ContainerDecision(logs) == Some(logs[i])
      else if exists i: nat :: Counts(logs, Unusable, Error, i)
      then exists i: nat :: Latest(logs, Unusable, Error, i) && ContainerDecision(logs) == Some(logs[i])
      else ContainerDecision(logs) == None
  {
    BestIsLatestOfTheMostSevere(logs, Unusable);
  }

  predicate Usable(log: Output) { !Unusable(log) }

  lemma BestOfOneMore(logs: seq<Output>, log: Output, ignore: Output -> bool)
    ensures Best(logs + [log], ignore) == (if ignore(log) then Best(logs, ignore) else Step(Best(logs, ignore), log))
  {
    assert (logs + [log])[..|logs|] == logs;
  }

  lemma {:induction false} BestIgnores(logs: seq<Output>)
    ensures Best(logs, Unusable) == Best(Filter(Usable, logs), Unusable)
  {
    if logs == [] {
    } else {
      var n := |logs| - 1;
      assert logs == logs[..n] + [logs[n]];
      FilterAppend(Usable, logs[..n], [logs[n]]);
      BestIgnores(logs[..n]);
      var kept := Filter(Usable, logs[..n]);
      assert Filter(Usable, [logs[n]]) == (if Usable(logs[n]) then [logs[n]] else []);
      if Usable(logs[n]) {
        BestOfOneMore(kept, logs[n], Unusable);
      } else {
        assert kept + [] == kept;
      }
    }
  }

  /** Deleting the unusable result entries from a container log never changes the answer. */
  lemma UnusableEntriesDoNotMatter(logs: seq<Output>)
    ensures ContainerDecision(Filter(Usable, logs)) == ContainerDecision(logs)
  {
    BestIgnores(logs);
  }

  // ---------- runner logs

  /** A line that is too short or no JSON object, or a line and the entry GetLogEntry made of it. */
  datatype Line = Skipped | Decoded(raw: string, entry: Output)

  /** A logged result says what its status is. */
  ghost predicate ResultsHaveStatus(lines: seq<Line>) {
    forall l | l in lines && l.Decoded? && l.entry.kind == ResultType && l.entry.result.Some? ::
      l.entry.result.value.status.Some?
  }

  predicate HasStatus(e: Output) { e.result.Some? && e.result.value.status.Some? }

  /** What parseLogs makes of a result entry without a result. */
  function EmptyResult(raw: string): Output {
    Output(Error, "ERROR empty result entry: %!s(<nil>), (((" + raw + ")))", None, ZERO_TIME)
  }

  /** The entries that parseLogs makes of one line. */
  function EntriesOf(line: Line): seq<Output> {
    if line.Skipped? then []
    else
      var e := line.entry;
      if e.kind == ResultType then
        if !HasStatus(e) then
          [EmptyResult(line.raw)]
        else [Output(ResultType, ResultMessage(e.result.value), e.result, ZERO_TIME)]
      else if e.content == "" then []
      else [e]
  }

  function Parsed(lines: seq<Line>): seq<Output> {
    if lines == [] then [] else Parsed(lines[..|lines| - 1]) + EntriesOf(lines[|lines| - 1])
  }

  method ParseLogs(lines: seq<Line>) returns (logs: seq<Output>)
    requires ResultsHaveStatus(lines)
    ensures logs == Parsed(lines)
  {
    logs := [];
    for i := 0 to |lines|
      invariant logs == Parsed(lines[..i])
    {
      assert lines[..i + 1][..i] == lines[..i];
      assert lines[i] in lines;
      if lines[i].Skipped? {
        continue;
      }
      var log := lines[i].entry;
      if log.kind == ResultType {
        if log.result.None? {
          logs := logs + [EmptyResult(lines[i].raw)];
          continue;
        }
        var message := ResultMessage(log.result.value);
        logs := logs + [Output(ResultType, message, log.result, ZERO_TIME)];
        continue;
      }
      if log.content == "" {
        continue;
      }
      logs := logs + [log];
    }
    assert lines[..|lines|] == lines;
  }

  /** The result of the init container. */
  predicate IsRunningResult(log: Output) {
    log.kind == ResultType && log.result.Some? && log.result.value.IsRunning()
  }

  function RunnerDecision(logs: seq<Output>): Option<Output> {
    if logs == [] then None
    else
      var best := Best(logs, IsRunningResult);
      Some(if best.content == "" then logs[|logs| - 1] else best)
  }

  /** getDecidingLogLine, for entries whose results are there. */
  method DecidingLogLine(logs: seq<Output>) returns (deciding: Option<Output>)
    requires forall l | l in logs && l.kind == ResultType :: HasStatus(l)
    ensures deciding == RunnerDecision(logs)
  {
    if |logs| == 0 {
      return None;
    }
    var resultLog := NOTHING_YET;
    for i := 0 to |logs|
      invariant resultLog == Best(logs[..i], IsRunningResult)
    {
      assert logs[..i + 1][..i] == logs[..i];
      var log := logs[i];
      assert log in logs;
      if log.kind == ResultType && log.result.value.IsRunning() {
        continue;
      }
      if MoreSevere(log.kind, resultLog.kind) {
        resultLog := log;
        continue;
      }
      if SameSeverity(log.kind, resultLog.kind) {
        if log.time < resultLog.time {
          continue;
        }
        resultLog := log;
      }
    }
    assert logs[..|logs|] == logs;
    if resultLog.content == "" {
      resultLog := logs[|logs| - 1];
    }
    return Some(resultLog);
  }

  /** A human-readable string of all entries. */
  function Sanitized(logs: seq<Output>): string {
    if logs == [] then "" else Sanitized(logs[..|logs| - 1]) + logs[|logs| - 1].content + "\n"
  }

  method SanitizeLogs(logs: seq<Output>) returns (s: string)
    ensures s == Sanitized(logs)
  {
    s := "";
    for i := 0 to |logs|
      invariant s == Sanitized(logs[..i])
    {
      assert logs[..i + 1][..i] == logs[..i];
      s := s + logs[i].content + "\n";
    }
    assert logs[..|logs|] == logs;
  }

  lemma {:induction false} SanitizedAppend(a: seq<Output>, b: seq<Output>)
    ensures Sanitized(a + b) == Sanitized(a) + Sanitized(b)
  {
    if b == [] {
      assert a + b == a;
    } else {
      var n := |b| - 1;
      assert (a + b)[..|a| + n] == a + b[..n];
      SanitizedAppend(a, b[..n]);
      Regroup(Sanitized(a), Sanitized(b[..n]), b[n].content + "\n");
      Regroup(Sanitized(a) + Sanitized(b[..n]), b[n].content, "\n");
      Regroup(Sanitized(b[..n]), b[n].content, "\n");
    }
  }

  function FailedWith(error: string): LogResult { LogResult(Some(Failed), error, "") }

  /** fmt.Errorf, which treats an entry's content as a format; and %v of an entry. */
  datatype Format = Format(errorf: string -> string, describe: Output -> string)

  /** The result an entry stands for. */
  function ResultFrom(log: Output, format: Format): LogResult {
    match log.kind
    case ResultType => if log.result.Some? then log.result.value else FailedWith("found result log with no content")
    case Error => FailedWith(format.errorf(log.content))
    case ParsingError => FailedWith(format.errorf(log.content))
    case _ => FailedWith("wrong log type was found as last log: " + format.describe(log))
  }

  /** parseLogs never emits a result entry without a result, and drops the times of those it emits. */
  lemma {:induction false} ParsedResults(lines: seq<Line>)
    ensures forall l | l in Parsed(lines) && l.kind == ResultType :: HasStatus(l) && l.time == ZERO_TIME
  {
    if lines == [] {
    } else {
      ParsedResults(lines[..|lines| - 1]);
    }
  }

  function RunnerResult(lines: seq<Line>, format: Format): LogResult {
    var logs := Parsed(lines);
    if logs == [] then FailedWith("no logs found")
    else ResultFrom(RunnerDecision(logs).value, format).(output := Sanitized(logs))
  }

  /** ParseRunnerOutput of non-empty logs. */
  method ParseRunnerOutput(lines: seq<Line>, format: Format) returns (result: LogResult)
    requires ResultsHaveStatus(lines)
    ensures result == RunnerResult(lines, format)
  {
    var logs := ParseLogs(lines);
    ParsedResults(lines);
    var log := DecidingLogLine(logs);
    if log.None? {
      return FailedWith("no logs found");
    }
    match log.value.kind {
      case ResultType =>
        if log.value.result.Some? {
          result := log.value.result.value;
        } else {
          result := FailedWith("found result log with no content");
        }
      case Error => result := FailedWith(format.errorf(log.value.content));
      case ParsingError => result := FailedWith(format.errorf(log.value.content));
      case _ => result := FailedWith("wrong log type was found as last log: " + format.describe(log.value));
    }
    var output := SanitizeLogs(logs);
    result := result.(output := output);
  }

  /** What a result says: its output if the test passed, its error if it failed, and else its status. */
  lemma MessageMeaning(r: LogResult)
    requires r.status.Some?
    ensures ResultMessage(r) ==
      if r.status.value == Passed then r.output
      else if r.status.value == Failed then r.errorMessage
      else if r.status.value == Queued then "queued"
      else if r.status.value == Running then "running"
      else if r.status.value == Aborted then "aborted"
      else "timeout"
  {
  }

  lemma OutputIsCollected(lines: seq<Line>, format: Format)
    ensures RunnerResult(lines, format).output == Sanitized(Parsed(lines))
  {
  }

  lemma OneEntryCollected(e: Output)
    ensures Sanitized([e]) == e.content + "\n"
  {
    assert [e][..0] == [];
  }

  lemma OneLineCollected(line: Line)
    ensures Sanitized(EntriesOf(line)) ==
      if line.Skipped? then ""
      else if line.entry.kind != ResultType then (if line.entry.content == "" then "" else line.entry.content + "\n")
      else if line.entry.result.None? || line.entry.result.value.status.None? then
        "ERROR empty result entry: %!s(<nil>), (((" + line.raw + ")))" + "\n"
      else ResultMessage(line.entry.result.value) + "\n"
  {
    if EntriesOf(line) != [] {
      var e := EntriesOf(line)[0];
      assert EntriesOf(line) == [e];
      OneEntryCollected(e);
    }
  }

  /** Every line adds to the collected output: a result what it says, a result without a status an error. */
  lemma OutputGrows(lines: seq<Line>, line: Line, format: Format)
    ensures RunnerResult([], format).output == ""
    ensures RunnerResult(lines + [line], format).output == RunnerResult(lines, format).output +
      if line.Skipped? then ""
      else if line.entry.kind != ResultType then (if line.entry.content == "" then "" else line.entry.content + "\n")
      else if line.entry.result.None? || line.entry.result.value.status.None? then
        "ERROR empty result entry: %!s(<nil>), (((" + line.raw + ")))" + "\n"
      else ResultMessage(line.entry.result.value) + "\n"
  {
    assert (lines + [line])[..|lines|] == lines;
    assert Parsed(lines + [line]) == Parsed(lines) + EntriesOf(line);
    OutputIsCollected(lines, format);
    OutputIsCollected(lines + [line], format);
    SanitizedAppend(Parsed(lines), EntriesOf(line));
    OneLineCollected(line);
  }

  /** The result on the last line that has one, init container results aside. */
  function LastResult(lines: seq<Line>): (r: Option<LogResult>)
    ensures r.Some? ==> r.value.status.Some?
  {
    if lines == [] then None
    else
      var l := lines[|lines| - 1];
      if l.Decoded? && l.entry.kind == ResultType && HasStatus(l.entry) && !l.entry.result.value.IsRunning()
      then l.entry.result
      else LastResult(lines[..|lines| - 1])
  }

  /** The fold stands at the last result seen so far, or at no result if there was none. */
  predicate StandsAt(best: Output, last: Option<LogResult>) {
    if last.Some? then
      && last.value.status.Some?
      && best == Output(ResultType, ResultMessage(last.value), last, ZERO_TIME)
    else best.kind != ResultType
  }

  lemma StepMoves(best: Output, last: Option<LogResult>, e: Output)
    requires StandsAt(best, last)
    requires e.kind == ResultType ==> StandsAt(e, e.result) && !IsRunningResult(e)
    ensures StandsAt(Step(best, e), if e.kind == ResultType then e.result else last)
  {
  }

  lemma BestOfOneLine(logs: seq<Output>, line: Line, last: Option<LogResult>)
    requires StandsAt(Best(logs, IsRunningResult), last)
    ensures var counts := line.Decoded? && line.entry.kind == ResultType && HasStatus(line.entry)
        && !line.entry.result.value.IsRunning();
      StandsAt(Best(logs + EntriesOf(line), IsRunningResult), if counts then line.entry.result else last)
  {
    var entries := EntriesOf(line);
    if entries == [] {
      assert logs + entries == logs;
    } else {
      assert entries == [entries[0]];
      BestOfOneMore(logs, entries[0], IsRunningResult);
      if !IsRunningResult(entries[0]) {
        StepMoves(Best(logs, IsRunningResult), last, entries[0]);
      }
    }
  }

  /** Whatever lines, events, errors and times surround it, the fold ends on the last result. */
  lemma {:induction false} BestIsLastResult(lines: seq<Line>)
    ensures StandsAt(Best(Parsed(lines), IsRunningResult), LastResult(lines))
  {
    if lines == [] {
    } else {
      var n := |lines| - 1;
      BestIsLastResult(lines[..n]);
      BestOfOneLine(Parsed(lines[..n]), lines[n], LastResult(lines[..n]));
    }
  }

  /** A passed test with an output, a failed one with an error, or another status. */
  predicate HasMessage(r: LogResult) {
    (r.status == Some(Passed) ==> r.output != "") && (r.status == Some(Failed) ==> r.errorMessage != "")
  }

  /** The last result is returned, with the collected log as its output, whenever its message is not empty. */
  lemma RunnerReturnsLastResult(lines: seq<Line>, format: Format)
    requires LastResult(lines).Some?
    requires HasMessage(LastResult(lines).value)
    ensures RunnerResult(lines, format) == LastResult(lines).value.(output := Sanitized(Parsed(lines)))
  {
    BestIsLastResult(lines);
  }

  /** The entry of the last line that makes one. */
  function LastEntry(lines: seq<Line>): Option<Output> {
    if lines == [] then None
    else
      var entries := EntriesOf(lines[|lines| - 1]);
      if entries != [] then Some(entries[0]) else LastEntry(lines[..|lines| - 1])
  }

  lemma {:induction false} LastEntryIsLast(lines: seq<Line>)
    ensures var logs := Parsed(lines);
      LastEntry(lines) == (if logs == [] then None else Some(logs[|logs| - 1]))
  {
    if lines == [] {
    } else {
      var before, entries := Parsed(lines[..|lines| - 1]), EntriesOf(lines[|lines| - 1]);
      if entries == [] {
        LastEntryIsLast(lines[..|lines| - 1]);
        assert before + entries == before;
      } else {
        assert |entries| == 1 && (before + entries)[|before|] == entries[0];
      }
    }
  }

  /** The last line that makes an entry has the last result, or its error reads as that result's empty message. */
  predicate LastEntryAgrees(lines: seq<Line>, result: LogResult, format: Format) {
    var last := LastEntry(lines);
    && last.Some?
    && if last.value.kind == ResultType then last.value.result == Some(result)
       else
         && last.value.kind in {Error, ParsingError}
         && result.status == Some(Failed) && format.errorf(last.value.content) == ""
  }

  /** If the last entry is a result that is not running, it is the last result. */
  lemma {:induction false} LastEntryIsOwnResult(lines: seq<Line>)
    requires LastEntry(lines).Some? && LastEntry(lines).value.kind == ResultType
    ensures LastEntry(lines).value.result.Some?
    ensures LastEntry(lines).value.result.value.IsRunning() || LastResult(lines) == LastEntry(lines).value.result
  {
    if EntriesOf(lines[|lines| - 1]) == [] {
      LastEntryIsOwnResult(lines[..|lines| - 1]);
    }
  }

  /** A last result with an empty message leaves the decision to the last entry, whatever it is. */
  lemma LastEntryDecides(lines: seq<Line>, format: Format)
    requires LastResult(lines).Some? && !HasMessage(LastResult(lines).value)
    ensures LastEntry(lines).Some?
    ensures RunnerResult(lines, format) ==
      ResultFrom(LastEntry(lines).value, format).(output := Sanitized(Parsed(lines)))
  {
    BestIsLastResult(lines);
    LastEntryIsLast(lines);
  }

  /** Which is the last result after all if the entry agrees with it, and not otherwise. */
  lemma AgreementIff(lines: seq<Line>, format: Format, output: string)
    requires LastResult(lines).Some? && !HasMessage(LastResult(lines).value) && LastEntry(lines).Some?
    ensures var result := LastResult(lines).value;
      ResultFrom(LastEntry(lines).value, format).(output := output) == result.(output := output)
      <==> LastEntryAgrees(lines, result, format)
  {
    if LastEntry(lines).value.kind == ResultType {
      LastEntryIsOwnResult(lines);
    }
  }

  /**
   * The last result is returned, with the collected log as its output, exactly when its message is not empty or the
   * last line that makes an entry agrees with it.
   */
  lemma LastResultReturnedIff(lines: seq<Line>, format: Format)
    requires LastResult(lines).Some?
    ensures RunnerResult(lines, format) == LastResult(lines).value.(output := Sanitized(Parsed(lines)))
      <==> HasMessage(LastResult(lines).value) || LastEntryAgrees(lines, LastResult(lines).value, format)
  {
    if HasMessage(LastResult(lines).value) {
      RunnerReturnsLastResult(lines, format);
    } else {
      LastEntryDecides(lines, format);
      AgreementIff(lines, format, Sanitized(Parsed(lines)));
    }
  }

  lemma LatestIsUnique(logs: seq<Output>, ignore: Output -> bool, kind: OutputType, i: nat, log: Output)
    requires Latest(logs, ignore, kind, i) && IsLatest(logs, ignore, kind, log)
    ensures log == logs[i]
  {
    var j: nat :| Latest(logs, ignore, kind, j) && logs[j] == log;
    assert Counts(logs, ignore, kind, i) && Counts(logs, ignore, kind, j);
  }

  lemma {:induction false} NoResultNoEntry(lines: seq<Line>)
    requires LastResult(lines).None?
    ensures forall l | l in Parsed(lines) :: (l.kind == ResultType ==> IsRunningResult(l)) && l.content != ""
  {
    if lines == [] {
    } else {
      NoResultNoEntry(lines[..|lines| - 1]);
    }
  }

  lemma {:induction false} BestIsFromLogs(logs: seq<Output>, ignore: Output -> bool)
    ensures Best(logs, ignore) == NOTHING_YET || (Best(logs, ignore) in logs && !ignore(Best(logs, ignore)))
  {
    if logs == [] {
    } else {
      BestIsFromLogs(logs[..|logs| - 1], ignore);
    }
  }

  lemma BestIsLatestError(lines: seq<Line>, i: nat)
    requires LastResult(lines).None? && Latest(Parsed(lines), IsRunningResult, Error, i)
    ensures Best(Parsed(lines), IsRunningResult) == Parsed(lines)[i] && Parsed(lines)[i].content != ""
  {
    var logs := Parsed(lines);
    NoResultNoEntry(lines);
    BestIsLatestOfTheMostSevere(logs, IsRunningResult);
    assert Counts(logs, IsRunningResult, Error, i) && logs[i] in logs;
    forall k: nat ensures !Counts(logs, IsRunningResult, ResultType, k) {
      assert k < |logs| ==> logs[k] in logs;
    }
    LatestIsUnique(logs, IsRunningResult, Error, i, Best(logs, IsRunningResult));
  }

  /** Without a result that is not running, the test failed with the latest error of the log, if it has one. */
  lemma LatestErrorReturned(lines: seq<Line>, format: Format, i: nat)
    requires LastResult(lines).None? && Latest(Parsed(lines), IsRunningResult, Error, i)
    ensures RunnerResult(lines, format) ==
      LogResult(Some(Failed), format.errorf(Parsed(lines)[i].content), Sanitized(Parsed(lines)))
  {
    BestIsLatestError(lines, i);
  }

  lemma DecidedWithoutResult(logs: seq<Output>)
    requires logs != [] && forall l | l in logs :: l.kind == ResultType ==> IsRunningResult(l)
    ensures var decided := RunnerDecision(logs).value;
      decided.kind != ResultType || (decided == logs[|logs| - 1] && IsRunningResult(decided))
  {
    BestIsFromLogs(logs, IsRunningResult);
    assert logs[|logs| - 1] in logs;
  }

  /** It never ends as anything but failed then, unless the last entry is a running result. */
  lemma WithoutResult(lines: seq<Line>, format: Format)
    requires LastResult(lines).None?
    ensures var logs, status := Parsed(lines), RunnerResult(lines, format).status;
      || status == Some(Failed)
      || (logs != [] && IsRunningResult(logs[|logs| - 1]) && status == Some(Running))
  {
    if Parsed(lines) != [] {
      NoResultNoEntry(lines);
      DecidedWithoutResult(Parsed(lines));
    }
  }

  /** A log of nothing but running results is returned as running. */
  lemma OnlyRunningResults(lines: seq<Line>, format: Format)
    requires Parsed(lines) != [] && forall l | l in Parsed(lines) :: IsRunningResult(l)
    ensures RunnerResult(lines, format).status == Some(Running)
  {
    var logs := Parsed(lines);
    BestIsFromLogs(logs, IsRunningResult);
    assert Best(logs, IsRunningResult) == NOTHING_YET && logs[|logs| - 1] in logs;
  }

  /** A passed test without output, followed by a line of chatter, is reported as failed. */
  lemma SilentPassIsLost(format: Format)
    ensures var passed := LogResult(Some(Passed), "", "");
      var lines := [Decoded("", Output(ResultType, "", Some(passed), 5)), Decoded("", Output(LogLine, "bye", None, 6))];
      LastResult(lines) == Some(passed) && RunnerResult(lines, format).status == Some(Failed)
  {
    var passed := LogResult(Some(Passed), "", "");
    var first := Decoded("", Output(ResultType, "", Some(passed), 5));
    var second := Decoded("", Output(LogLine, "bye", None, 6));
    assert [first, second][..1] == [first];
    assert LastResult([first]) == Some(passed);
    assert EntriesOf(second) == [second.entry];
    LastEntryDecides([first, second], format);
  }

  // ---------- container output

  /** The entry that parseContainerLogs makes of a line; what cannot be decoded is kept as plain text. */
  function ContainerEntry(raw: string, entry: Output): Output {
    if entry.kind == ParsingError || entry.kind == Unknown then Output(LogLine, raw, None, ZERO_TIME)
    else if entry.kind == ResultType && HasStatus(entry) then
      Output(ResultType, ResultMessage(entry.result.value), entry.result, ZERO_TIME)
    else entry
  }

  datatype RawLine = RawLine(raw: string, entry: Output)

  function ParsedContainer(lines: seq<RawLine>): seq<Output> {
    seq(|lines|, i requires 0 <= i < |lines| => ContainerEntry(lines[i].raw, lines[i].entry))
  }

  method ParseContainerLogs(lines: seq<RawLine>) returns (logs: seq<Output>)
    ensures logs == ParsedContainer(lines)
  {
    logs := [];
    for i := 0 to |lines|
      invariant logs == ParsedContainer(lines[..i])
    {
      var log := lines[i].entry;
      if log.kind == ParsingError || log.kind == Unknown {
        logs := logs + [Output(LogLine, lines[i].raw, None, ZERO_TIME)];
        continue;
      }
      if log.kind == ResultType && log.result.Some? && log.result.value.status.Some? {
        logs := logs + [Output(ResultType, ResultMessage(log.result.value), log.result, ZERO_TIME)];
        continue;
      }
      logs := logs + [log];
    }
    assert lines[..|lines|] == lines;
  }

  /** The result that the deciding line of a container log stands for. */
  function ContainerResult(lines: seq<RawLine>, format: Format): Option<LogResult> {
    var log := ContainerDecision(ParsedContainer(lines));
    if log.None? then None else Some(ResultFrom(log.value, format))
  }

  /** ParseContainerOutput of non-empty logs: no result when no line decides. */
  method ParseContainerOutput(lines: seq<RawLine>, format: Format) returns (result: Option<LogResult>, output: string)
    ensures result == ContainerResult(lines, format) && output == Sanitized(ParsedContainer(lines))
  {
    var logs := ParseContainerLogs(lines);
    output := SanitizeLogs(logs);
    var log := DecidingContainerLogLine(logs);
    ContainerDecisionIsLexicographicMaximum(logs);
    if log.None? {
      return None, output;
    }
    match log.value.kind {
      case ResultType => result := log.value.result;
      case Error => result := Some(FailedWith(format.errorf(log.value.content)));
    }
  }

  predicate IsUsableLine(l: RawLine) {
    l.entry.kind == ResultType && HasStatus(l.entry) && !l.entry.result.value.IsRunning()
  }

  /** A container's outcome is the last result in the log that is not a running one, whatever the times of the lines. */
  lemma ContainerReturnsLastResult(lines: seq<RawLine>, format: Format, i: nat)
    requires i < |lines| && IsUsableLine(lines[i]) && forall j | i < j < |lines| :: !IsUsableLine(lines[j])
    ensures ContainerResult(lines, format) == lines[i].entry.result
  {
    var logs := ParsedContainer(lines);
    ContainerDecisionIsLexicographicMaximum(logs);
    assert Counts(logs, Unusable, ResultType, i);
    forall j: nat | Counts(logs, Unusable, ResultType, j) ensures IsUsableLine(lines[j]) && logs[j].time == ZERO_TIME {}
    var k: nat :| Latest(logs, Unusable, ResultType, k) && ContainerDecision(logs) == Some(logs[k]);
    assert k == i;
  }

  /** Entry i is an error, and no later line has an error that is at least as late. */
  ghost predicate IsLastError(lines: seq<RawLine>, i: nat) {
    && i < |lines| && lines[i].entry.kind == Error
    && forall j | 0 <= j < |lines| && lines[j].entry.kind == Error ::
         lines[j].entry.time <= lines[i].entry.time && (lines[j].entry.time == lines[i].entry.time ==> j <= i)
  }

  /** With no such result, it failed with the latest error, and without an error there is no result at all. */
  lemma ContainerWithoutResult(lines: seq<RawLine>, format: Format)
    requires forall j | 0 <= j < |lines| :: !IsUsableLine(lines[j])
    ensures forall i: nat | IsLastError(lines, i) ::
      ContainerResult(lines, format) == Some(LogResult(Some(Failed), format.errorf(lines[i].entry.content), ""))
    ensures (forall j | 0 <= j < |lines| :: lines[j].entry.kind != Error) ==> ContainerResult(lines, format) == None
  {
    var logs := ParsedContainer(lines);
    ContainerDecisionIsLexicographicMaximum(logs);
    forall j: nat ensures !Counts(logs, Unusable, ResultType, j) {}
    forall j: nat ensures Counts(logs, Unusable, Error, j) <==> j < |lines| && lines[j].entry.kind == Error {}
    forall i: nat | IsLastError(lines, i) ensures ContainerDecision(logs) == Some(lines[i].entry) {
      assert Counts(logs, Unusable, Error, i);
      var k: nat :| Latest(logs, Unusable, Error, k) && ContainerDecision(logs) == Some(logs[k]);
      assert lines[k].entry.kind == Error && logs[k] == lines[k].entry && logs[i] == lines[i].entry;
      assert k == i;
    }
  }

  /** Every line of a container adds to the collected output; what cannot be decoded adds itself. */
  lemma ContainerOutputGrows(lines: seq<RawLine>, line: RawLine)
    ensures Sanitized(ParsedContainer([])) == ""
    ensures Sanitized(ParsedContainer(lines + [line])) == Sanitized(ParsedContainer(lines)) +
      (if line.entry.kind in {ParsingError, Unknown} then line.raw
       else if line.entry.kind == ResultType && line.entry.result.Some? && line.entry.result.value.status.Some? then
         ResultMessage(line.entry.result.value)
       else line.entry.content) + "\n"
  {
    var e := ContainerEntry(line.raw, line.entry);
    assert ParsedContainer(lines + [line]) == ParsedContainer(lines) + [e];
    SanitizedAppend(ParsedContainer(lines), [e]);
    assert [e][..0] == [];
    Regroup(Sanitized(ParsedContainer(lines)), e.content, "\n");
  }
}
