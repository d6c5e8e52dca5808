/** The gateway under concurrent use, as a state machine. Any number of tool calls are in
    flight; each query call takes its four steps (arrive, admit, execute, record) and each
    usage call its three queries one at a time, in any interleaving. */
module Pipeline {
  import opened Wrappers
  import opened Config
  import opened Rbac
  import opened Timestamp
  import opened Metering

  /** What the request context holds: no claims, a nil pointer, or verified claims. */
  datatype Credentials = Missing | Nil | Present(claims: Claims)

  datatype Arg = Text(text: string) | Number(number: real) | Other

  type Args = map<string, Arg>

  /** args[key].(string), with "" for an absent or differently typed argument. */
  function TextArg(args: Args, key: string): string {
    if key in args && args[key].Text? then args[key].text else ""
  }

  function Params(args: Args): Args {
    args - {"resource", "operation"}
  }

  datatype Refusal = Unauthorized | ResourceRequired | OperationRequired | Forbidden | NotFound

  datatype Outcome = Returned(data: string, encodable: bool) | Failed(error: string)

  datatype Phase =
    | Arrived
    | Refused(why: Refusal)
    | Admitted
    | Ran(outcome: Outcome, latency: int)
    | Settled(result: Outcome, took: int, at: Instant, recorded: Option<UsageEntry>)

  datatype Call = Call(credentials: Credentials, args: Args, phase: Phase)

  /** One Execute on a backend, and the call that made it. */
  datatype Execution = Execution(call: nat, resource: string, operation: string, params: Args, outcome: Outcome)

  /** A get_usage in progress. moments[i] is the number of events before query i ran. */
  datatype Usage = Usage(userId: string, from: Instant, to: Instant, begun: nat, moments: seq<nat>, stats: UsageStats)

  datatype System = System(
    rules: seq<RBACRule>, managed: set<string>, metered: bool,
    log: seq<Row>, executed: seq<Execution>, calls: seq<Call>, usages: seq<Usage>)

  datatype Event =
    | Arrive(credentials: Credentials, args: Args)
    | Admit(call: nat)
    | Execute(call: nat, outcome: Outcome, latency: int)
    | Record(call: nat, now: Instant, stored: bool)
    | Ask(userId: string, from: Instant, to: Instant)
    | Query(usage: nat)

  function ClaimsOf(c: Credentials): Option<Claims> {
    if c.Present? then Some(c.claims) else None
  }

  /** Why a call is turned away before anything happens, if it is. */
  function Admission(rules: seq<RBACRule>, managed: set<string>, credentials: Credentials, args: Args): Option<Refusal>
  {
    var resource, operation := TextArg(args, "resource"), TextArg(args, "operation");
    if credentials.Missing? then Some(Unauthorized)
    else if resource == "" then Some(ResourceRequired)
    else if operation == "" then Some(OperationRequired)
    else if !Granted(rules, ClaimsOf(credentials), resource, "read") then Some(Forbidden)
    else if resource !in managed then Some(NotFound)
    else None
  }

  /** Exactly when each reason applies, on the arguments, the claims, the rules and the
      managed names themselves; and so exactly which calls go ahead. */
  lemma AdmissionExactly(rules: seq<RBACRule>, managed: set<string>, credentials: Credentials, args: Args)
    ensures var named := "resource" in args && args["resource"].Text? && args["resource"].text != "";
            var asked := "operation" in args && args["operation"].Text? && args["operation"].text != "";
            var allowed := named && credentials.Present? && exists i | 0 <= i < |rules| ::
                             && rules[i].group in credentials.claims.groups
                             && ("*" in rules[i].resources || args["resource"].text in rules[i].resources)
                             && "read" in rules[i].permissions;
            var known := named && args["resource"].text in managed;
            var admission := Admission(rules, managed, credentials, args);
            && (admission == Some(Unauthorized) <==> credentials.Missing?)
            && (admission == Some(ResourceRequired) <==> !credentials.Missing? && !named)
            && (admission == Some(OperationRequired) <==> !credentials.Missing? && named && !asked)
            && (admission == Some(Forbidden) <==> !credentials.Missing? && named && asked && !allowed)
            && (admission == Some(NotFound) <==> named && asked && allowed && !known)
            && (admission == None <==> named && asked && allowed && known)
  {
    hide Granted;
    GrantedExactly(rules, ClaimsOf(credentials), TextArg(args, "resource"), "read");
  }

  function EntryOf(call: Call, now: Instant): (e: UsageEntry)
    requires call.phase.Ran?
    ensures e.timestamp == now && e.bytes == 0
  {
    var claims := ClaimsOf(call.credentials);
    var (subject, email) := if claims.Some? then (claims.value.subject, claims.value.email) else ("", "");
    UsageEntry(subject, email, TextArg(call.args, "resource"), TextArg(call.args, "operation"), 0,
               call.phase.latency, now, call.phase.outcome.Returned?,
               if call.phase.outcome.Failed? then call.phase.outcome.error else "")
  }

  /** One query of a get_usage: totals first, then each breakdown. */
  function Advance(u: Usage, log: seq<Row>, moment: nat): Usage {
    var selected := Select(log, QueryFor(u.userId, u.from, u.to));
    var stats := match |u.moments|
      case 0 => u.stats.(totalRequests := |selected|, totalBytes := SumBytes(selected))
      case 1 => u.stats.(byResource := Groups(selected, Resource))
      case _ => u.stats.(byOperation := Groups(selected, Operation));
    u.(moments := u.moments + [moment], stats := stats)
  }

  const NO_STATS := UsageStats(0, 0, map[], map[])

  function SetPhase(s: System, i: nat, phase: Phase): System
    requires i < |s.calls|
  {
    s.(calls := s.calls[i := s.calls[i].(phase := phase)])
  }

  /** One event at one moment; an event that is not enabled changes nothing. */
  function Step(s: System, e: Event, moment: nat): System {
    match e
    case Arrive(credentials, args) => s.(calls := s.calls + [Call(credentials, args, Arrived)])
    case Admit(i) =>
      if i < |s.calls| && s.calls[i].phase.Arrived? then
        match Admission(s.rules, s.managed, s.calls[i].credentials, s.calls[i].args)
        case Some(why) => SetPhase(s, i, Refused(why))
        case None => SetPhase(s, i, Admitted)
      else s
    case Execute(i, outcome, latency) =>
      if i < |s.calls| && s.calls[i].phase.Admitted? then
        var args := s.calls[i].args;
        var execution := Execution(i, TextArg(args, "resource"), TextArg(args, "operation"), Params(args), outcome);
        SetPhase(s, i, Ran(outcome, latency)).(executed := s.executed + [execution])
      else s
    case Record(i, now, stored) =>
      if i < |s.calls| && s.calls[i].phase.Ran? then
        var (outcome, took) := (s.calls[i].phase.outcome, s.calls[i].phase.latency);
        var entry := EntryOf(s.calls[i], now);
        if s.metered && stored then
          SetPhase(s, i, Settled(outcome, took, now, Some(entry))).(log := s.log + [RowOf(entry)])
        else SetPhase(s, i, Settled(outcome, took, now, None))
      else s
    case Ask(userId, from, to) =>
      if s.metered then s.(usages := s.usages + [Usage(userId, from, to, moment, [], NO_STATS)]) else s
    case Query(u) =>
      if u < |s.usages| && |s.usages[u].moments| < 3 then
        s.(usages := s.usages[u := Advance(s.usages[u], s.log, moment)])
      else s
  }

  /** A process that has just started: no call yet, whatever the table holds from before. */
  predicate Started(s: System) {
    s.executed == [] && s.calls == [] && s.usages == []
  }

  function Run(s: System, events: seq<Event>): System {
    if events == [] then s
    else
      var last := |events| - 1;
      Step(Run(s, events[..last]), events[last], last)
  }

  // ---------- authorization ----------

  predicate Reached(phase: Phase) {
    phase.Ran? || phase.Settled?
  }

  /** A call's phase agrees with what the rules say about it. */
  ghost predicate Ruled(s: System, c: Call) {
    var admission := Admission(s.rules, s.managed, c.credentials, c.args);
    && (c.phase.Refused? ==> admission == Some(c.phase.why))
    && (c.phase.Admitted? || Reached(c.phase) ==> admission == None)
  }

  /** An execution is the one its call made. */
  ghost predicate MadeBy(x: Execution, c: Call) {
    && Reached(c.phase)
    && x.resource == TextArg(c.args, "resource") && x.operation == TextArg(c.args, "operation")
    && x.params == Params(c.args)
    && x.outcome == if c.phase.Ran? then c.phase.outcome else c.phase.result
  }

  ghost predicate AllRuled(s: System) {
    forall i :: 0 <= i < |s.calls| ==> Ruled(s, s.calls[i])
  }

  ghost predicate AllMade(s: System) {
    forall k :: 0 <= k < |s.executed| ==>
      s.executed[k].call < |s.calls| && MadeBy(s.executed[k], s.calls[s.executed[k].call])
  }

  ghost predicate NoRepeats(s: System) {
    forall j, k :: 0 <= j < k < |s.executed| ==> s.executed[j].call != s.executed[k].call
  }

  ghost predicate ExecutedBy(s: System, i: nat) {
    exists k :: 0 <= k < |s.executed| && s.executed[k].call == i
  }

  ghost predicate AllExecuted(s: System) {
    forall i :: 0 <= i < |s.calls| && Reached(s.calls[i].phase) ==> ExecutedBy(s, i)
  }

  /** Executions and the calls past admission match one to one, and the rules entitled
      every such call to what it executed. */
  ghost predicate Guarded(s: System) {
    AllRuled(s) && AllMade(s) && NoRepeats(s) && AllExecuted(s)
  }

  lemma StepKeepsRuled(s: System, e: Event, moment: nat)
    requires AllRuled(s)
    ensures AllRuled(Step(s, e, moment))
  {
    hide Admission, EntryOf;
  }

  lemma StepKeepsMade(s: System, e: Event, moment: nat)
    requires AllMade(s)
    ensures AllMade(Step(s, e, moment))
  {
    hide Admission, EntryOf, Params, TextArg, Advance;
  }

  lemma StepKeepsNoRepeats(s: System, e: Event, moment: nat)
    requires AllMade(s) && NoRepeats(s)
    ensures NoRepeats(Step(s, e, moment))
  {
    hide Admission, EntryOf, Params, TextArg, Advance;
    if e.Execute? && e.call < |s.calls| && s.calls[e.call].phase.Admitted? {
      assert forall k :: 0 <= k < |s.executed| ==> s.executed[k].call != e.call;
    }
  }

  lemma StepKeepsExecuted(s: System, e: Event, moment: nat)
    requires AllExecuted(s)
    ensures AllExecuted(Step(s, e, moment))
  {
    hide Admission, EntryOf, Params, TextArg;
    var s' := Step(s, e, moment);
    forall i | 0 <= i < |s'.calls| && Reached(s'.calls[i].phase) ensures ExecutedBy(s', i) {
      if i < |s.calls| && Reached(s.calls[i].phase) {
        var k :| 0 <= k < |s.executed| && s.executed[k].call == i;
        assert s'.executed[k] == s.executed[k];
      } else {
        assert s'.executed[|s.executed|].call == i;
      }
    }
  }

  /** In every run, in any interleaving, the guard holds throughout. */
  lemma {:induction false} RunIsGuarded(s0: System, events: seq<Event>)
    requires Started(s0)
    ensures var s := Run(s0, events);
            Guarded(s) && s.rules == s0.rules && s.managed == s0.managed && s.metered == s0.metered
  {
    hide Guarded, Step;
    if events != [] {
      var last := |events| - 1;
      RunIsGuarded(s0, events[..last]);
      StepKeepsGuarded(Run(s0, events[..last]), events[last], last);
      StepKeepsConfig(Run(s0, events[..last]), events[last], last);
    } else {
      StartIsGuarded(s0);
    }
  }

  lemma StartIsGuarded(s0: System)
    requires Started(s0)
    ensures Guarded(s0)
  {
  }

  lemma StepKeepsConfig(s: System, e: Event, moment: nat)
    ensures var s' := Step(s, e, moment); s'.rules == s.rules && s'.managed == s.managed && s'.metered == s.metered
  {
    hide Admission, EntryOf, Params, TextArg, Advance;
  }

  lemma StepKeepsGuarded(s: System, e: Event, moment: nat)
    requires Guarded(s)
    ensures Guarded(Step(s, e, moment))
  {
    StepKeepsRuled(s, e, moment);
    StepKeepsMade(s, e, moment);
    StepKeepsNoRepeats(s, e, moment);
    StepKeepsExecuted(s, e, moment);
  }

  /** No Execute without a passing Check: in every run, every execution was made by one
      call with verified claims whose groups grant "read" on a managed resource. */
  lemma EveryExecutionWasGranted(s0: System, events: seq<Event>, k: nat)
    requires Started(s0) && k < |Run(s0, events).executed|
    ensures var s := Run(s0, events);
            var x := s.executed[k];
            && x.call < |s.calls| && s.calls[x.call].credentials.Present?
            && (exists i | 0 <= i < |s0.rules| ::
                  && s0.rules[i].group in s.calls[x.call].credentials.claims.groups
                  && ("*" in s0.rules[i].resources || x.resource in s0.rules[i].resources)
                  && "read" in s0.rules[i].permissions)
            && x.resource in s0.managed && x.resource != "" && x.operation != ""
            && "resource" in s.calls[x.call].args && s.calls[x.call].args["resource"] == Arg.Text(x.resource)
            && "operation" in s.calls[x.call].args && s.calls[x.call].args["operation"] == Arg.Text(x.operation)
            && x.params == s.calls[x.call].args - {"resource", "operation"}
  {
    hide Run, Admission;
    RunIsGuarded(s0, events);
    var s := Run(s0, events);
    var x := s.executed[k];
    assert MadeBy(x, s.calls[x.call]) && Ruled(s, s.calls[x.call]);
    AdmissionExactly(s.rules, s.managed, s.calls[x.call].credentials, s.calls[x.call].args);
  }

  /** The event is a step of this call. */
  predicate StepOf(e: Event, i: nat) {
    (e.Admit? || e.Execute? || e.Record?) && e.call == i
  }

  lemma RefusedStays(s: System, e: Event, moment: nat, i: nat)
    requires i < |s.calls| && s.calls[i].phase.Refused?
    ensures var s' := Step(s, e, moment); i < |s'.calls| && s'.calls[i] == s.calls[i]
  {
    hide Admission, EntryOf, Params, TextArg;
  }

  lemma RefusedIsOver(s: System, i: nat)
    requires Guarded(s) && i < |s.calls| && s.calls[i].phase.Refused?
    ensures !ExecutedBy(s, i) && forall e, moment :: StepOf(e, i) ==> Step(s, e, moment) == s
  {
    hide Admission, EntryOf, Params, TextArg;
  }

  /** A refused call stays refused: whatever happens later it has no execution, and no step
      of it changes anything, so it leaves no row either. */
  lemma {:induction false} RefusedForGood(s: System, events: seq<Event>, i: nat)
    requires Guarded(s) && i < |s.calls| && s.calls[i].phase.Refused?
    ensures var s' := Run(s, events);
            && i < |s'.calls| && s'.calls[i] == s.calls[i] && !ExecutedBy(s', i) && Guarded(s')
            && forall e, moment :: StepOf(e, i) ==> Step(s', e, moment) == s'
  {
    hide Guarded, Step, ExecutedBy;
    if events != [] {
      var last := |events| - 1;
      RefusedForGood(s, events[..last], i);
      StepKeepsGuarded(Run(s, events[..last]), events[last], last);
      RefusedStays(Run(s, events[..last]), events[last], last, i);
    }
    RefusedIsOver(Run(s, events), i);
  }

  // ---------- accounting ----------

  /** One figure of a report: the total, or one entry of a breakdown. */
  datatype Figure = Total | Entry(col: Column, key: string)

  /** One figure of one user's report over a window. */
  datatype Account = Account(userId: string, from: Instant, to: Instant, figure: Figure)

  predicate RowFits(row: Row, figure: Figure) {
    figure.Entry? ==> Key(row, figure.col) == figure.key
  }

  function FigureOf(rows: seq<Row>, figure: Figure): nat {
    match figure
    case Total => |rows|
    case Entry(col, key) => Tally(rows, col, key)
  }

  /** What the queries find in a table. */
  function InTable(log: seq<Row>, a: Account): nat {
    FigureOf(Select(log, QueryFor(a.userId, a.from, a.to)), a.figure)
  }

  /** The bounds under which text order is time order. */
  predicate Comparable(a: Account) {
    FourDigitYear(a.to) && a.from < YEAR_10000
  }

  ghost predicate OnTime(events: seq<Event>) {
    forall k :: 0 <= k < |events| && events[k].Record? ==> FourDigitYear(events[k].now)
  }

  predicate EntryFits(e: UsageEntry, a: Account) {
    Hits(e, a.userId, a.from, a.to) && RowFits(RowOf(e), a.figure)
  }

  /** A call that left an entry in the table which the figure counts. */
  predicate Billed(c: Call, a: Account) {
    c.phase.Settled? && c.phase.recorded.Some? && EntryFits(c.phase.recorded.value, a)
  }

  function BilledCalls(calls: seq<Call>, a: Account): nat {
    if calls == [] then 0
    else BilledCalls(calls[..|calls| - 1], a) + if Billed(calls[|calls| - 1], a) then 1 else 0
  }

  lemma {:induction false} BilledUpdate(calls: seq<Call>, i: nat, c: Call, a: Account)
    requires i < |calls| && !Billed(calls[i], a)
    ensures BilledCalls(calls[i := c], a) == BilledCalls(calls, a) + if Billed(c, a) then 1 else 0
  {
    hide Billed;
    var last := |calls| - 1;
    if i == last {
      assert calls[i := c][..last] == calls[..last];
    } else {
      assert calls[i := c][..last] == calls[..last][i := c];
      BilledUpdate(calls[..last], i, c, a);
    }
  }

  lemma BilledPush(calls: seq<Call>, c: Call, a: Account)
    requires !Billed(c, a)
    ensures BilledCalls(calls + [c], a) == BilledCalls(calls, a)
  {
    hide Billed;
  }

  /** The table has what it had and what the calls added. */
  ghost predicate Balanced(s: System, log0: seq<Row>, a: Account) {
    InTable(s.log, a) == InTable(log0, a) + BilledCalls(s.calls, a)
  }

  lemma StepKeepsBalanced(s: System, e: Event, moment: nat, log0: seq<Row>, a: Account)
    requires Balanced(s, log0, a) && Comparable(a) && (e.Record? ==> FourDigitYear(e.now))
    ensures Balanced(Step(s, e, moment), log0, a)
  {
    hide Admission, Advance, Params, TextArg, EntryOf, InTable, EntryFits, BilledCalls, RowOf;
    var s' := Step(s, e, moment);
    if e.Arrive? {
      BilledPush(s.calls, Call(e.credentials, e.args, Arrived), a);
    } else if e.Record? && s'.calls != s.calls {
      RecordBalances(s, s', e, log0, a);
    } else if s'.calls != s.calls {
      BilledUpdate(s.calls, e.call, s'.calls[e.call], a);
    }
  }

  lemma RecordBalances(s: System, s': System, e: Event, log0: seq<Row>, a: Account)
    requires Balanced(s, log0, a) && Comparable(a) && e.Record? && FourDigitYear(e.now)
    requires e.call < |s.calls| && s.calls[e.call].phase.Ran? && |s'.calls| == |s.calls|
    requires var c := s'.calls[e.call];
             && s'.calls == s.calls[e.call := c] && c.phase.Settled?
             && (c.phase.recorded == None ==> s'.log == s.log)
             && (c.phase.recorded.Some? ==>
                   && c.phase.recorded.value == EntryOf(s.calls[e.call], e.now)
                   && s'.log == s.log + [RowOf(EntryOf(s.calls[e.call], e.now))])
    ensures Balanced(s', log0, a)
  {
    hide InTable, EntryFits, BilledCalls, RowOf, EntryOf;
    BilledUpdate(s.calls, e.call, s'.calls[e.call], a);
    RowIsBilled(s.log, EntryOf(s.calls[e.call], e.now), a);
  }

  /** A new row is counted exactly when its entry is the user's, in the window, and fits. */
  lemma RowIsBilled(log: seq<Row>, e: UsageEntry, a: Account)
    requires Comparable(a) && FourDigitYear(e.timestamp)
    ensures InTable(log + [RowOf(e)], a) == InTable(log, a) + if EntryFits(e, a) then 1 else 0
  {
    hide Format, TextBetween, Within;
    var q := QueryFor(a.userId, a.from, a.to);
    SelectPush(log, RowOf(e), q);
    WindowIsExact(e.timestamp, a.from, a.to);
    if a.figure.Entry? { TallyAppend(Select(log, q), RowOf(e), a.figure.col, a.figure.key); }
  }

  /** In every run, each figure of the table is what it was before the run plus the calls
      that executed and recorded an entry it counts. */
  lemma {:induction false} RunIsBalanced(s0: System, events: seq<Event>, a: Account)
    requires Started(s0) && OnTime(events) && Comparable(a)
    ensures InTable(Run(s0, events).log, a) == InTable(s0.log, a) + BilledCalls(Run(s0, events).calls, a)
  {
    hide InTable, Step;
    if events != [] {
      var last := |events| - 1;
      RunIsBalanced(s0, events[..last], a);
      StepKeepsBalanced(Run(s0, events[..last]), events[last], last, s0.log, a);
    }
  }

  /** The handler never fills in a byte count, so a run adds no bytes to any report. */
  lemma {:induction false} RunAddsNoBytes(s0: System, events: seq<Event>, q: Metering.Query)
    ensures SumBytes(Select(Run(s0, events).log, q)) == SumBytes(Select(s0.log, q))
  {
    hide Step, Select, SumBytes;
    if events != [] {
      var last := |events| - 1;
      RunAddsNoBytes(s0, events[..last], q);
      StepAddsNoBytes(Run(s0, events[..last]), events[last], last, q);
    }
  }

  lemma StepAddsNoBytes(s: System, e: Event, moment: nat, q: Metering.Query)
    ensures SumBytes(Select(Step(s, e, moment).log, q)) == SumBytes(Select(s.log, q))
  {
    hide Admission, Advance, Params, TextArg, Select, SumBytes, Matches;
    var s' := Step(s, e, moment);
    if s'.log != s.log {
      var row := RowOf(EntryOf(s.calls[e.call], e.now));
      SelectPush(s.log, row, q);
      TallyAppend(Select(s.log, q), row, Resource, "");
    }
  }

  // ---------- reports ----------

  function SelectedIn(u: Usage, log: seq<Row>): seq<Row> {
    Select(log, QueryFor(u.userId, u.from, u.to))
  }

  /** The figures of query j are those of this table. */
  ghost predicate Exact(u: Usage, j: nat, log: seq<Row>) {
    match j
    case 0 => u.stats.totalRequests == |SelectedIn(u, log)| && u.stats.totalBytes == SumBytes(SelectedIn(u, log))
    case 1 => u.stats.byResource == Groups(SelectedIn(u, log), Resource)
    case _ => u.stats.byOperation == Groups(SelectedIn(u, log), Operation)
  }

  /** The table when `moment` events had happened. */
  function LogAt(s0: System, events: seq<Event>, moment: nat): seq<Row>
    requires moment <= |events|
  {
    Run(s0, events[..moment]).log
  }

  ghost predicate InOrder(u: Usage, end: nat) {
    && u.begun < end && |u.moments| <= 3
    && (forall j :: 0 <= j < |u.moments| ==> u.begun < u.moments[j] < end)
    && (forall j, k :: 0 <= j < k < |u.moments| ==> u.moments[j] < u.moments[k])
  }

  /** Every figure of a report was exact at a moment of its own, between the start of the
      call and now, and the moments follow each other in the order of the queries. */
  ghost predicate Faithful(u: Usage, s0: System, events: seq<Event>) {
    && InOrder(u, |events|)
    && forall j :: 0 <= j < |u.moments| ==> Exact(u, j, LogAt(s0, events, u.moments[j]))
  }

  lemma LogAtLater(s0: System, events: seq<Event>, e: Event, moment: nat)
    requires moment <= |events|
    ensures LogAt(s0, events + [e], moment) == LogAt(s0, events, moment)
  {
    assert (events + [e])[..moment] == events[..moment];
  }

  lemma FaithfulLater(u: Usage, s0: System, events: seq<Event>, e: Event)
    requires Faithful(u, s0, events)
    ensures Faithful(u, s0, events + [e])
  {
    hide Exact;
    forall j | 0 <= j < |u.moments| ensures Exact(u, j, LogAt(s0, events + [e], u.moments[j])) {
      LogAtLater(s0, events, e, u.moments[j]);
    }
  }

  lemma AdvanceIsExact(u: Usage, log: seq<Row>, moment: nat, j: nat, earlier: seq<Row>)
    requires |u.moments| < 3
    ensures Exact(Advance(u, log, moment), |u.moments|, log)
    ensures j < |u.moments| && Exact(u, j, earlier) ==> Exact(Advance(u, log, moment), j, earlier)
  {
  }

  lemma FaithfulAdvance(u: Usage, s0: System, events: seq<Event>, e: Event)
    requires Faithful(u, s0, events) && |u.moments| < 3
    ensures Faithful(Advance(u, Run(s0, events).log, |events|), s0, events + [e])
  {
    hide Run, Exact, Advance;
    var log := Run(s0, events).log;
    var u' := Advance(u, log, |events|);
    AdvanceMoments(u, log, |events|);
    assert LogAt(s0, events, |events|) == log by { assert events[..|events|] == events; }
    AdvanceKeepsExact(u, u', s0, events, e);
  }

  lemma AdvanceMoments(u: Usage, log: seq<Row>, moment: nat)
    ensures var u' := Advance(u, log, moment); u'.moments == u.moments + [moment] && u'.begun == u.begun
  {
  }

  lemma AdvanceKeepsExact(u: Usage, u': Usage, s0: System, events: seq<Event>, e: Event)
    requires Faithful(u, s0, events) && |u.moments| < 3
    requires u' == Advance(u, LogAt(s0, events, |events|), |events|) && u'.moments == u.moments + [|events|]
    ensures forall j :: 0 <= j < |u'.moments| ==>
              u'.moments[j] <= |events| && Exact(u', j, LogAt(s0, events + [e], u'.moments[j]))
  {
    hide Exact, Advance, LogAt;
    forall j | 0 <= j < |u'.moments|
      ensures u'.moments[j] <= |events| && Exact(u', j, LogAt(s0, events + [e], u'.moments[j]))
    {
      LogAtLater(s0, events, e, u'.moments[j]);
      AdvanceIsExact(u, LogAt(s0, events, |events|), |events|, j, LogAt(s0, events, u'.moments[j]));
    }
  }

  ghost predicate AllFaithful(s: System, s0: System, events: seq<Event>) {
    forall k :: 0 <= k < |s.usages| ==> Faithful(s.usages[k], s0, events)
  }

  lemma StepKeepsFaithful(s0: System, events: seq<Event>, e: Event)
    requires AllFaithful(Run(s0, events), s0, events)
    ensures AllFaithful(Step(Run(s0, events), e, |events|), s0, events + [e])
  {
    hide Admission, EntryOf, Params, TextArg, Advance, Faithful, Run;
    var s := Run(s0, events);
    var s' := Step(s, e, |events|);
    forall k | 0 <= k < |s'.usages| ensures Faithful(s'.usages[k], s0, events + [e]) {
      if k == |s.usages| {
        NewIsFaithful(s'.usages[k], s0, events, e);
      } else if e.Query? && e.usage == k && |s.usages[k].moments| < 3 {
        FaithfulAdvance(s.usages[k], s0, events, e);
      } else {
        FaithfulLater(s.usages[k], s0, events, e);
      }
    }
  }

  lemma NewIsFaithful(u: Usage, s0: System, events: seq<Event>, e: Event)
    requires u.begun == |events| && u.moments == []
    ensures Faithful(u, s0, events + [e])
  {
  }

  lemma {:induction false} RunIsFaithful(s0: System, events: seq<Event>)
    requires s0.usages == []
    ensures AllFaithful(Run(s0, events), s0, events)
  {
    hide Step, Faithful;
    if events != [] {
      var last := |events| - 1;
      RunIsFaithful(s0, events[..last]);
      StepKeepsFaithful(s0, events[..last], events[last]);
      assert events == events[..last] + [events[last]];
    }
  }

  lemma {:induction false} LogOnlyGrows(s: System, events: seq<Event>, m: nat, n: nat)
    requires m <= n <= |events|
    ensures LogAt(s, events, m) <= LogAt(s, events, n)
    decreases n
  {
    hide Admission, EntryOf, Params, TextArg, Advance;
    if m < n {
      LogOnlyGrows(s, events, m, n - 1);
      assert events[..n][..n - 1] == events[..n - 1];
    }
  }

  function CallsAt(s0: System, events: seq<Event>, moment: nat): seq<Call>
    requires moment <= |events|
  {
    Run(s0, events[..moment]).calls
  }

  function AccountOf(u: Usage, figure: Figure): Account {
    Account(u.userId, u.from, u.to, figure)
  }

  /** A figure of the table before the run, and the calls counted by then. */
  function CountAt(s0: System, events: seq<Event>, moment: nat, a: Account): nat
    requires moment <= |events|
  {
    InTable(s0.log, a) + BilledCalls(CallsAt(s0, events, moment), a)
  }

  /** The main theorem on usage reports. However the calls interleave, each figure of a
      finished report counts the rows from before the run and the user's executed and
      recorded calls in the window as of one moment during the report, the moments coming
      in the order of the queries; so the figures can only grow from the total to the
      resource to the operation breakdown, and all lie between the counts at the start of
      the report and now. */
  lemma ReportsCountCalls(s0: System, events: seq<Event>, k: nat, key: string)
    requires Started(s0) && OnTime(events) && k < |Run(s0, events).usages|
    requires var u := Run(s0, events).usages[k]; |u.moments| == 3 && Comparable(AccountOf(u, Total))
    ensures var u := Run(s0, events).usages[k];
            var m, stats, total := u.moments, u.stats, AccountOf(u, Total);
            && u.begun < m[0] < m[1] < m[2] < |events|
            && stats.totalRequests == CountAt(s0, events, m[0], total)
            && stats.totalBytes == SumBytes(SelectedIn(u, s0.log))
            && Sum(stats.byResource) == CountAt(s0, events, m[1], total)
            && Sum(stats.byOperation) == CountAt(s0, events, m[2], total)
            && CountIn(stats.byResource, key) == CountAt(s0, events, m[1], AccountOf(u, Entry(Resource, key)))
            && CountIn(stats.byOperation, key) == CountAt(s0, events, m[2], AccountOf(u, Entry(Operation, key)))
            && CountAt(s0, events, u.begun, total) <= stats.totalRequests
            && stats.totalRequests <= Sum(stats.byResource) <= Sum(stats.byOperation)
            && Sum(stats.byOperation) <= CountAt(s0, events, |events|, total)
  {
    hide Run, CountAt, InTable, Select, Groups, QueryFor, SumBytes;
    RunIsFaithful(s0, events);
    var u := Run(s0, events).usages[k];
    var m, total := u.moments, AccountOf(u, Total);
    FiguresAreExact(u, s0, events, key);
    TotalAt(s0, events, m[0], total);
    RunAddsNoBytes(s0, events[..m[0]], QueryFor(u.userId, u.from, u.to));
    TotalAt(s0, events, m[1], total);
    TotalAt(s0, events, m[2], total);
    TotalAt(s0, events, m[1], AccountOf(u, Entry(Resource, key)));
    TotalAt(s0, events, m[2], AccountOf(u, Entry(Operation, key)));
    CountGrows(s0, events, total, u.begun, m[0]);
    CountGrows(s0, events, total, m[0], m[1]);
    CountGrows(s0, events, total, m[1], m[2]);
    CountGrows(s0, events, total, m[2], |events|);
  }

  /** The figures are those of the tables at the three moments. */
  lemma FiguresAreExact(u: Usage, s0: System, events: seq<Event>, key: string)
    requires Faithful(u, s0, events) && |u.moments| == 3
    ensures var m, stats := u.moments, u.stats;
            && u.begun < m[0] < m[1] < m[2] < |events|
            && stats.totalRequests == InTable(LogAt(s0, events, m[0]), AccountOf(u, Total))
            && stats.totalBytes == SumBytes(SelectedIn(u, LogAt(s0, events, m[0])))
            && Sum(stats.byResource) == InTable(LogAt(s0, events, m[1]), AccountOf(u, Total))
            && Sum(stats.byOperation) == InTable(LogAt(s0, events, m[2]), AccountOf(u, Total))
            && CountIn(stats.byResource, key) == InTable(LogAt(s0, events, m[1]), AccountOf(u, Entry(Resource, key)))
            && CountIn(stats.byOperation, key) == InTable(LogAt(s0, events, m[2]), AccountOf(u, Entry(Operation, key)))
  {
    hide Run, Select, Groups, QueryFor, Tally, SumBytes, LogAt;
    var m := u.moments;
    var rows1, rows2 := SelectedIn(u, LogAt(s0, events, m[1])), SelectedIn(u, LogAt(s0, events, m[2]));
    assert Exact(u, 0, LogAt(s0, events, m[0])) && Exact(u, 1, LogAt(s0, events, m[1]))
           && Exact(u, 2, LogAt(s0, events, m[2]));
    GroupsConserve(rows1, Resource);
    GroupsConserve(rows2, Operation);
    GroupCounts(rows1, Resource, key);
    GroupCounts(rows2, Operation, key);
  }

  lemma TotalAt(s0: System, events: seq<Event>, moment: nat, a: Account)
    requires Started(s0) && OnTime(events) && moment <= |events| && Comparable(a)
    ensures InTable(LogAt(s0, events, moment), a) == CountAt(s0, events, moment, a)
  {
    hide Run, InTable;
    RunIsBalanced(s0, events[..moment], a);
  }

  lemma CountGrows(s0: System, events: seq<Event>, a: Account, m: nat, n: nat)
    requires Started(s0) && OnTime(events) && m <= n <= |events| && Comparable(a) && a.figure == Total
    ensures CountAt(s0, events, m, a) <= CountAt(s0, events, n, a)
  {
    hide Run, Select, QueryFor, CountAt;
    TotalAt(s0, events, m, a);
    TotalAt(s0, events, n, a);
    LogOnlyGrows(s0, events, m, n);
    var early, late := LogAt(s0, events, m), LogAt(s0, events, n);
    SelectAppend(early, late[|early|..], QueryFor(a.userId, a.from, a.to));
    assert late == early + late[|early|..];
  }

  lemma RunOneMore(s0: System, events: seq<Event>, e: Event)
    ensures Run(s0, events + [e]) == Step(Run(s0, events), e, |events|)
  {
  }

  lemma {:induction false} OthersKeepUsage(s0: System, events: seq<Event>, others: seq<Event>, k: nat)
    requires k < |Run(s0, events).usages| && Event.Query(k) !in others
    ensures var s := Run(s0, events + others);
            k < |s.usages| && s.usages[k] == Run(s0, events).usages[k]
  {
    hide Run;
    if others == [] {
      assert events + others == events;
    } else {
      var front, e := others[..|others| - 1], others[|others| - 1];
      OthersKeepUsage(s0, events, front, k);
      RunOneMore(s0, events + front, e);
      assert events + others == events + front + [e];
      StepKeepsUsage(Run(s0, events + front), e, |events + front|, k);
    }
  }

  lemma StepKeepsUsage(s: System, e: Event, moment: nat, k: nat)
    requires k < |s.usages| && e != Event.Query(k)
    ensures var s' := Step(s, e, moment); k < |s'.usages| && s'.usages[k] == s.usages[k]
  {
    hide Admission, EntryOf, Params, TextArg, Advance;
  }

  /** One query of it, and the events of other calls that follow. */
  lemma QueryThenOthers(s0: System, events: seq<Event>, k: nat, others: seq<Event>)
    requires k < |Run(s0, events).usages| && |Run(s0, events).usages[k].moments| < 3 && Event.Query(k) !in others
    ensures var s, t := Run(s0, events), Run(s0, events + [Event.Query(k)] + others);
            && k < |t.usages| && t.usages[k] == Advance(s.usages[k], s.log, |events|)
            && (others == [] ==> t.log == s.log)
  {
    hide Run, Advance;
    RunOneMore(s0, events, Event.Query(k));
    OthersKeepUsage(s0, events + [Event.Query(k)], others, k);
    if others == [] { assert events + [Event.Query(k)] + others == events + [Event.Query(k)]; }
  }

  lemma AskThen(s0: System, events: seq<Event>, userId: string, from: Instant, to: Instant)
    requires Run(s0, events).metered
    ensures var s, t := Run(s0, events), Run(s0, events + [Ask(userId, from, to)]);
            && t.usages == s.usages + [Usage(userId, from, to, |events|, [], NO_STATS)]
            && t.log == s.log && t.executed == s.executed
  {
  }

  /** A report run with events of other calls after its first two queries is the report on
      the tables its queries saw. */
  lemma UsageIsReport(s0: System, events: seq<Event>, userId: string, from: Instant, to: Instant,
                      mid1: seq<Event>, mid2: seq<Event>)
    requires Run(s0, events).metered
    requires var k := |Run(s0, events).usages|; Event.Query(k) !in mid1 && Event.Query(k) !in mid2
    ensures var k := |Run(s0, events).usages|;
            var seen1 := events + [Ask(userId, from, to)];
            var seen2 := seen1 + [Event.Query(k)] + mid1;
            var seen3 := seen2 + [Event.Query(k)] + mid2;
            var s := Run(s0, seen3 + [Event.Query(k)]);
            && k < |s.usages| && s.usages[k].moments == [|seen1|, |seen2|, |seen3|]
            && s.usages[k].stats == Report(Run(s0, events).log, Run(s0, seen2).log, Run(s0, seen3).log,
                                           QueryFor(userId, from, to))
            && s.log == Run(s0, seen3).log
  {
    hide Run, Advance;
    var k := |Run(s0, events).usages|;
    var seen1 := events + [Ask(userId, from, to)];
    var seen2 := seen1 + [Event.Query(k)] + mid1;
    var seen3 := seen2 + [Event.Query(k)] + mid2;
    var u := Usage(userId, from, to, |events|, [], NO_STATS);
    AskThen(s0, events, userId, from, to);
    ThreeAdvances(u, Run(s0, seen1).log, Run(s0, seen2).log, Run(s0, seen3).log, |seen1|, |seen2|, |seen3|);
    QueryThenOthers(s0, seen1, k, mid1);
    QueryThenOthers(s0, seen2, k, mid2);
    QueryThenOthers(s0, seen3, k, []);
    assert seen3 + [Event.Query(k)] + [] == seen3 + [Event.Query(k)];
  }

  lemma ThreeAdvances(u: Usage, log1: seq<Row>, log2: seq<Row>, log3: seq<Row>, m1: nat, m2: nat, m3: nat)
    requires u.moments == [] && u.stats == NO_STATS
    ensures var u1 := Advance(u, log1, m1);
            var u2 := Advance(u1, log2, m2);
            var u3 := Advance(u2, log3, m3);
            && u1.moments == [m1] && u2.moments == [m1, m2] && u3.moments == [m1, m2, m3]
            && u3.stats == Report(log1, log2, log3, QueryFor(u.userId, u.from, u.to))
  {
  }

  // ---------- nothing is lost ----------

  /** Executed but not (or not yet) in the table. */
  predicate Outstanding(c: Call) {
    c.phase.Ran? || (c.phase.Settled? && c.phase.recorded == None)
  }

  function OutstandingCalls(calls: seq<Call>): nat {
    if calls == [] then 0
    else OutstandingCalls(calls[..|calls| - 1]) + if Outstanding(calls[|calls| - 1]) then 1 else 0
  }

  lemma {:induction false} OutstandingUpdate(calls: seq<Call>, i: nat, c: Call)
    requires i < |calls|
    ensures OutstandingCalls(calls[i := c]) + (if Outstanding(calls[i]) then 1 else 0) ==
            OutstandingCalls(calls) + if Outstanding(c) then 1 else 0
  {
    var last := |calls| - 1;
    if i == last {
      assert calls[i := c][..last] == calls[..last];
    } else {
      assert calls[i := c][..last] == calls[..last][i := c];
      OutstandingUpdate(calls[..last], i, c);
    }
  }

  lemma OutstandingPush(calls: seq<Call>, c: Call)
    ensures OutstandingCalls(calls + [c]) == OutstandingCalls(calls) + if Outstanding(c) then 1 else 0
  {
  }

  /** Every execution has added a row, or its call is still to be recorded or failed to be. */
  lemma {:induction false} ExecutionsAccountedFor(s0: System, events: seq<Event>)
    requires Started(s0)
    ensures var s := Run(s0, events);
            s0.log <= s.log && |s.executed| == |s.log| - |s0.log| + OutstandingCalls(s.calls)
  {
    hide Step;
    if events != [] {
      var last := |events| - 1;
      ExecutionsAccountedFor(s0, events[..last]);
      StepKeepsAccount(Run(s0, events[..last]), events[last], last);
    }
  }

  lemma StepKeepsAccount(s: System, e: Event, moment: nat)
    ensures var s' := Step(s, e, moment);
            && s.log <= s'.log
            && |s'.executed| - |s'.log| - OutstandingCalls(s'.calls) ==
               |s.executed| - |s.log| - OutstandingCalls(s.calls)
  {
    hide Admission, EntryOf, Params, TextArg, Advance, OutstandingCalls;
    var s' := Step(s, e, moment);
    if e.Arrive? {
      OutstandingPush(s.calls, s'.calls[|s.calls|]);
    } else if s'.calls != s.calls {
      OutstandingUpdate(s.calls, e.call, s'.calls[e.call]);
    }
  }

  ghost predicate AllStored(events: seq<Event>) {
    forall k :: 0 <= k < |events| && events[k].Record? ==> events[k].stored
  }

  /** The row tells what the call did, for whom, and how it went. */
  ghost predicate Truthful(c: Call) {
    c.phase.Settled? && c.phase.recorded.Some? ==>
      var entry := c.phase.recorded.value;
      && (c.credentials.Present? ==>
            entry.userId == c.credentials.claims.subject && entry.email == c.credentials.claims.email)
      && entry.resource == TextArg(c.args, "resource") && entry.operation == TextArg(c.args, "operation")
      && (entry.success <==> c.phase.result.Returned?) && entry.timestamp == c.phase.at
      && (c.phase.result.Failed? ==> entry.error == c.phase.result.error)
  }

  /** Every entry is truthful; and with `all`, every finished call has one. */
  ghost predicate Kept(s: System, all: bool) {
    forall i :: 0 <= i < |s.calls| ==>
      Truthful(s.calls[i]) && (all && s.calls[i].phase.Settled? ==> s.calls[i].phase.recorded.Some?)
  }

  lemma StepKeepsKept(s: System, e: Event, moment: nat, all: bool)
    requires Kept(s, all) && (all ==> s.metered && (e.Record? ==> e.stored))
    ensures Kept(Step(s, e, moment), all)
  {
    hide Admission, TextArg, Params, Advance, EntryOf, Truthful;
    var s' := Step(s, e, moment);
    if e.Record? && s'.calls != s.calls {
      RecordIsTruthful(s.calls[e.call], e.now, s'.calls[e.call]);
    } else if s'.calls != s.calls {
      UnfinishedIsTruthful(if e.Arrive? then s'.calls[|s.calls|] else s'.calls[e.call]);
    }
  }

  lemma UnfinishedIsTruthful(c: Call)
    ensures !c.phase.Settled? ==> Truthful(c)
  {
  }

  lemma RecordIsTruthful(c: Call, now: Instant, c': Call)
    requires c.phase.Ran? && c'.phase.Settled? && c' == c.(phase := c'.phase)
    requires c'.phase.at == now && c'.phase.result == c.phase.outcome
    requires c'.phase.recorded.Some? ==> c'.phase.recorded.value == EntryOf(c, now)
    ensures Truthful(c')
  {
    hide TextArg;
  }

  /** With a meter whose inserts all succeed, every call that finished executing is
      recorded, and recorded truthfully. */
  lemma {:induction false} NothingIsLost(s0: System, events: seq<Event>)
    requires Started(s0)
    ensures var s := Run(s0, events);
            && s.metered == s0.metered
            && forall i :: 0 <= i < |s.calls| ==>
                 && Truthful(s.calls[i])
                 && (s0.metered && AllStored(events) && s.calls[i].phase.Settled? ==> s.calls[i].phase.recorded.Some?)
  {
    hide Step, Truthful;
    if events != [] {
      var last := |events| - 1;
      var s := Run(s0, events[..last]);
      NothingIsLost(s0, events[..last]);
      StepKeepsConfig(s, events[last], last);
      StepKeepsKept(s, events[last], last, s0.metered && AllStored(events));
    }
  }

  /** What the row of a call tells: who made it, on what, and how it went. */
  ghost predicate Reports(row: Row, c: Call) {
    && c.phase.Settled? && c.phase.recorded.Some? && c.credentials.Present?
    && row.userId == c.credentials.claims.subject && row.email == c.credentials.claims.email
    && "resource" in c.args && c.args["resource"] == Arg.Text(row.resource)
    && "operation" in c.args && c.args["operation"] == Arg.Text(row.operation)
    && (row.success <==> c.phase.result.Returned?)
    && row.error == (if c.phase.result.Failed? then c.phase.result.error else "")
    && row.bytes == 0 && -1_000_000 < c.phase.took - row.latencyMs * 1_000_000 < 1_000_000
    && row.timestamp == Format(c.phase.at)
  }

  /** owners[k] made the k-th row added since the table was log0; no call made two, and
      every call with an entry made one. */
  ghost predicate Owned(s: System, log0: seq<Row>, owners: seq<nat>) {
    && log0 <= s.log && |s.log| == |log0| + |owners|
    && (forall k :: 0 <= k < |owners| ==>
          owners[k] < |s.calls| && Reports(s.log[|log0| + k], s.calls[owners[k]]))
    && (forall j, k :: 0 <= j < k < |owners| ==> owners[j] != owners[k])
    && (forall i: nat :: i < |s.calls| && s.calls[i].phase.Settled? && s.calls[i].phase.recorded.Some? ==> i in owners)
  }

  lemma EntryReports(s: System, i: nat, now: Instant, c: Call)
    requires AllRuled(s) && i < |s.calls| && s.calls[i].phase.Ran?
    requires c.phase == Settled(s.calls[i].phase.outcome, s.calls[i].phase.latency, now, Some(EntryOf(s.calls[i], now)))
    requires c == s.calls[i].(phase := c.phase)
    ensures Reports(RowOf(EntryOf(s.calls[i], now)), c)
  {
    hide Admission, Format;
    assert Ruled(s, s.calls[i]);
    AdmissionExactly(s.rules, s.managed, s.calls[i].credentials, s.calls[i].args);
  }

  lemma StepKeepsOwned(s: System, e: Event, moment: nat, log0: seq<Row>, owners: seq<nat>) returns (owners': seq<nat>)
    requires AllRuled(s) && Owned(s, log0, owners)
    ensures Owned(Step(s, e, moment), log0, owners')
  {
    hide Admission, EntryOf, Params, TextArg, Advance, Reports, AllRuled, RowOf;
    var s' := Step(s, e, moment);
    forall k | 0 <= k < |owners| ensures s.calls[owners[k]].phase.Settled? {
      ReportsIsSettled(s.log[|log0| + k], s.calls[owners[k]]);
    }
    if s'.log == s.log {
      owners' := owners;
    } else {
      owners' := owners + [e.call];
      EntryReports(s, e.call, e.now, s'.calls[e.call]);
    }
  }

  lemma ReportsIsSettled(row: Row, c: Call)
    requires Reports(row, c)
    ensures c.phase.Settled?
  {
  }

  /** Every row added in a run is the row of one call and tells its story, no call has two,
      and every call with an entry has one. */
  lemma {:induction false} RowsBelongToCalls(s0: System, events: seq<Event>) returns (owners: seq<nat>)
    requires Started(s0)
    ensures Owned(Run(s0, events), s0.log, owners)
  {
    hide Step, Guarded;
    if events == [] {
      owners := [];
    } else {
      var last := |events| - 1;
      owners := RowsBelongToCalls(s0, events[..last]);
      RunIsGuarded(s0, events[..last]);
      GuardedIsRuled(Run(s0, events[..last]));
      owners := StepKeepsOwned(Run(s0, events[..last]), events[last], last, s0.log, owners);
    }
  }

  lemma GuardedIsRuled(s: System)
    requires Guarded(s)
    ensures AllRuled(s)
  {
  }

  // ---------- executions and figures ----------

  predicate Fits(x: Execution, figure: Figure) {
    match figure
    case Total => true
    case Entry(Resource, key) => x.resource == key
    case Entry(Operation, key) => x.operation == key
  }

  /** An execution made for the user, by the verified claims of its call, and finished in
      the window; with `stored`, also one whose row was inserted. */
  predicate Charged(x: Execution, calls: seq<Call>, a: Account, stored: bool) {
    x.call < |calls| && Fits(x, a.figure) && Due(calls[x.call], a) && (stored ==> calls[x.call].phase.recorded.Some?)
  }

  predicate Due(c: Call, a: Account) {
    && c.phase.Settled? && Within(c.phase.at, a.from, a.to)
    && c.credentials.Present? && c.credentials.claims.subject == a.userId
  }

  function Charges(xs: seq<Execution>, calls: seq<Call>, a: Account, stored: bool): nat {
    if xs == [] then 0
    else
      var last := |xs| - 1;
      Charges(xs[..last], calls, a, stored) + if Charged(xs[last], calls, a, stored) then 1 else 0
  }

  lemma {:induction false} ChargesSame(xs: seq<Execution>, calls: seq<Call>, calls': seq<Call>,
                                       a: Account, stored: bool, stored': bool)
    requires forall k :: 0 <= k < |xs| ==> (Charged(xs[k], calls, a, stored) <==> Charged(xs[k], calls', a, stored'))
    ensures Charges(xs, calls, a, stored) == Charges(xs, calls', a, stored')
  {
    hide Charged;
    if xs != [] {
      assert xs[|xs| - 1] == xs[|xs| - 1];
      ChargesSame(xs[..|xs| - 1], calls, calls', a, stored, stored');
    }
  }

  /** When the call of one execution, not charged before, changes. */
  lemma {:induction false} ChargesUpdate(xs: seq<Execution>, k: nat, calls: seq<Call>, c: Call,
                                         a: Account, stored: bool)
    requires k < |xs| && xs[k].call < |calls| && !Charged(xs[k], calls, a, stored)
    requires forall j :: 0 <= j < |xs| && j != k ==> xs[j].call != xs[k].call
    ensures var calls' := calls[xs[k].call := c];
            Charges(xs, calls', a, stored) ==
            Charges(xs, calls, a, stored) + if Charged(xs[k], calls', a, stored) then 1 else 0
  {
    hide Fits, Due;
    var calls', last := calls[xs[k].call := c], |xs| - 1;
    if k == last {
      ChargesSame(xs[..last], calls, calls', a, stored, stored);
    } else {
      ChargesUpdate(xs[..last], k, calls, c, a, stored);
    }
  }

  ghost predicate Agree(s: System, a: Account) {
    Charges(s.executed, s.calls, a, true) == BilledCalls(s.calls, a)
  }

  lemma ArriveAgrees(s: System, c: Call, a: Account)
    requires Guarded(s) && Agree(s, a) && !c.phase.Settled?
    ensures Agree(s.(calls := s.calls + [c]), a)
  {
    hide Fits, Due, MadeBy, AllRuled, NoRepeats, AllExecuted;
    ChargesSame(s.executed, s.calls, s.calls + [c], a, true, true);
    BilledPush(s.calls, c, a);
  }

  /** A call that was not and is not finished. */
  lemma OpenAgrees(s: System, i: nat, c: Call, a: Account)
    requires i < |s.calls| && Agree(s, a) && !s.calls[i].phase.Settled? && !c.phase.Settled?
    ensures Agree(s.(calls := s.calls[i := c]), a)
  {
    hide Fits, BilledCalls;
    ChargesSame(s.executed, s.calls, s.calls[i := c], a, true, true);
    BilledUpdate(s.calls, i, c, a);
  }

  lemma ExecuteAgrees(s: System, x: Execution, a: Account)
    requires Agree(s, a) && x.call < |s.calls| && !s.calls[x.call].phase.Settled?
    ensures Agree(s.(executed := s.executed + [x]), a)
  {
    hide Fits, BilledCalls;
    assert (s.executed + [x])[..|s.executed|] == s.executed;
  }

  lemma RecordAgrees(s: System, i: nat, c: Call, a: Account)
    requires Guarded(s) && Agree(s, a)
    requires i < |s.calls| && s.calls[i].phase.Ran?
    requires c.phase.Settled? && c == s.calls[i].(phase := c.phase)
    requires c.phase.recorded.Some? ==> c.phase.recorded.value == EntryOf(s.calls[i], c.phase.at)
    ensures Agree(s.(calls := s.calls[i := c]), a)
  {
    hide BilledCalls, Charges, AllRuled, NoRepeats, Admission;
    assert ExecutedBy(s, i);
    var k :| 0 <= k < |s.executed| && s.executed[k].call == i;
    OthersDiffer(s, k);
    BilledUpdate(s.calls, i, c, a);
    ChargesUpdate(s.executed, k, s.calls, c, a, true);
    RanIsPresent(s, i);
    RowIsCharged(s.executed[k], s.calls, c, a);
  }

  lemma OthersDiffer(s: System, k: nat)
    requires NoRepeats(s) && k < |s.executed|
    ensures forall j :: 0 <= j < |s.executed| && j != k ==> s.executed[j].call != s.executed[k].call
  {
  }

  lemma RanIsPresent(s: System, i: nat)
    requires AllRuled(s) && i < |s.calls| && Reached(s.calls[i].phase)
    ensures s.calls[i].credentials.Present?
  {
    assert Ruled(s, s.calls[i]);
  }

  lemma RowIsCharged(x: Execution, calls: seq<Call>, c: Call, a: Account)
    requires x.call < |calls| && calls[x.call].phase.Ran? && MadeBy(x, calls[x.call]) && c.phase.Settled?
    requires c == calls[x.call].(phase := c.phase) && c.credentials.Present?
    requires c.phase.recorded.Some? ==> c.phase.recorded.value == EntryOf(calls[x.call], c.phase.at)
    ensures Charged(x, calls[x.call := c], a, true) <==> Billed(c, a)
  {
    hide Format, Milliseconds, TextArg, Params;
  }

  lemma SameAgrees(s: System, s': System, a: Account)
    requires Agree(s, a) && s'.calls == s.calls && s'.executed == s.executed
    ensures Agree(s', a)
  {
  }

  lemma StepAgrees(s: System, e: Event, moment: nat, a: Account)
    requires Guarded(s) && Agree(s, a)
    ensures Agree(Step(s, e, moment), a)
  {
    hide Agree, Guarded, Admission, Params, TextArg, Advance, EntryOf;
    var s' := Step(s, e, moment);
    if s'.calls == s.calls {
      SameAgrees(s, s', a);
    } else {
      var t := s.(calls := s'.calls);
      match e
      case Arrive(_, _) => ArriveAgrees(s, s'.calls[|s.calls|], a);
      case Admit(i) => OpenAgrees(s, i, s'.calls[i], a);
      case Execute(i, _, _) =>
        OpenAgrees(s, i, s'.calls[i], a);
        ExecuteAgrees(t, s'.executed[|s.executed|], a);
      case Record(i, _, _) =>
        RecordAgrees(s, i, s'.calls[i], a);
        SameAgrees(t, s', a);
    }
  }

  /** In every run, whatever inserts fail, the calls counted by the table are exactly the
      user's executions in the window whose rows were inserted. */
  lemma {:induction false} BilledAreExecutions(s0: System, events: seq<Event>, a: Account)
    requires Started(s0)
    ensures var s := Run(s0, events);
            Charges(s.executed, s.calls, a, true) == BilledCalls(s.calls, a)
  {
    hide Guarded, Step;
    if events != [] {
      var last := |events| - 1;
      BilledAreExecutions(s0, events[..last], a);
      RunIsGuarded(s0, events[..last]);
      StepAgrees(Run(s0, events[..last]), events[last], last, a);
    }
  }

  /** No insert failed among the executions the account is charged for. */
  ghost predicate NoneLost(s: System, a: Account) {
    forall k :: 0 <= k < |s.executed| && Charged(s.executed[k], s.calls, a, false) ==>
      s.calls[s.executed[k].call].phase.recorded.Some?
  }

  lemma {:induction false} ChargesGap(xs: seq<Execution>, calls: seq<Call>, a: Account)
    ensures Charges(xs, calls, a, true) <= Charges(xs, calls, a, false)
    ensures Charges(xs, calls, a, true) == Charges(xs, calls, a, false) <==>
            forall k :: 0 <= k < |xs| && Charged(xs[k], calls, a, false) ==> Charged(xs[k], calls, a, true)
  {
    if xs != [] {
      var front, x := xs[..|xs| - 1], xs[|xs| - 1];
      ChargesGap(front, calls, a);
      StoredIsCharged(x, calls, a);
      hide Charged;
      assert forall k :: 0 <= k < |front| ==> xs[k] == front[k];
    }
  }

  lemma StoredIsCharged(x: Execution, calls: seq<Call>, a: Account)
    ensures Charged(x, calls, a, true) <==>
            Charged(x, calls, a, false) && calls[x.call].phase.recorded.Some?
  {
  }

  /** They are all of the user's executions in the window exactly when none of those was
      lost; what happened to anyone else's inserts does not matter. */
  lemma BilledIsAllExactly(s0: System, events: seq<Event>, a: Account)
    requires Started(s0)
    ensures var s := Run(s0, events);
            Charges(s.executed, s.calls, a, false) == BilledCalls(s.calls, a) <==> NoneLost(s, a)
  {
    hide Run, Charges, BilledCalls, Fits;
    var s := Run(s0, events);
    BilledAreExecutions(s0, events, a);
    ChargesGap(s.executed, s.calls, a);
    forall k | 0 <= k < |s.executed|
      ensures Charged(s.executed[k], s.calls, a, true) <==>
              Charged(s.executed[k], s.calls, a, false) && s.calls[s.executed[k].call].phase.recorded.Some?
    {
      StoredIsCharged(s.executed[k], s.calls, a);
    }
  }

  /** So with a meter whose inserts all succeed, they are all of them. */
  lemma AllExecutionsAreBilled(s0: System, events: seq<Event>, a: Account)
    requires Started(s0) && s0.metered && AllStored(events)
    ensures var s := Run(s0, events);
            Charges(s.executed, s.calls, a, false) == BilledCalls(s.calls, a)
  {
    hide Run, Fits, BilledCalls, Truthful, Charges;
    NothingIsLost(s0, events);
    BilledIsAllExactly(s0, events, a);
  }

  /** A number that counts the account's rows from before the run and its executions whose
      rows were inserted; and all of its executions exactly when none was lost. */
  ghost predicate Measures(n: nat, s0: System, events: seq<Event>, a: Account) {
    var s := Run(s0, events);
    && n == InTable(s0.log, a) + Charges(s.executed, s.calls, a, true)
    && (n == InTable(s0.log, a) + Charges(s.executed, s.calls, a, false) <==> NoneLost(s, a))
  }

  /** The headline of metering: each figure of a finished report is the number of the
      executions made with the user's verified claims that were finished in its window and
      inserted, as of the moment of its query, on top of the rows from before the run. */
  lemma ReportsCountExecutions(s0: System, events: seq<Event>, k: nat, key: string)
    requires Started(s0) && OnTime(events) && k < |Run(s0, events).usages|
    requires var u := Run(s0, events).usages[k]; |u.moments| == 3 && Comparable(AccountOf(u, Total))
    ensures var u := Run(s0, events).usages[k];
            var m, stats := u.moments, u.stats;
            && u.begun < m[0] < m[1] < m[2] < |events|
            && Measures(stats.totalRequests, s0, events[..m[0]], AccountOf(u, Total))
            && Measures(Sum(stats.byResource), s0, events[..m[1]], AccountOf(u, Total))
            && Measures(Sum(stats.byOperation), s0, events[..m[2]], AccountOf(u, Total))
            && Measures(CountIn(stats.byResource, key), s0, events[..m[1]], AccountOf(u, Entry(Resource, key)))
            && Measures(CountIn(stats.byOperation, key), s0, events[..m[2]], AccountOf(u, Entry(Operation, key)))
  {
    hide Run, Measures, InTable, BilledCalls;
    var u := Run(s0, events).usages[k];
    ReportsCountCalls(s0, events, k, key);
    CountMeasures(s0, events, u.moments[0], AccountOf(u, Total));
    CountMeasures(s0, events, u.moments[1], AccountOf(u, Total));
    CountMeasures(s0, events, u.moments[2], AccountOf(u, Total));
    CountMeasures(s0, events, u.moments[1], AccountOf(u, Entry(Resource, key)));
    CountMeasures(s0, events, u.moments[2], AccountOf(u, Entry(Operation, key)));
  }

  lemma CountMeasures(s0: System, events: seq<Event>, moment: nat, a: Account)
    requires Started(s0) && moment <= |events|
    ensures Measures(CountAt(s0, events, moment, a), s0, events[..moment], a)
  {
    hide Run, Charges, BilledCalls, NoneLost;
    BilledAreExecutions(s0, events[..moment], a);
    BilledIsAllExactly(s0, events[..moment], a);
  }

  // ---------- restarts ----------

  /** One life of the process: its configuration, and what happened until it ended, be it
      in the middle of any number of calls. */
  datatype Life = Life(rules: seq<RBACRule>, managed: set<string>, metered: bool, events: seq<Event>)

  /** A process opens the table as the last one left it. */
  function Booted(life: Life, log: seq<Row>): System {
    System(life.rules, life.managed, life.metered, log, [], [], [])
  }

  function EndOf(life: Life, log: seq<Row>): System {
    Run(Booted(life, log), life.events)
  }

  function TableAfter(log: seq<Row>, lives: seq<Life>): seq<Row> {
    if lives == [] then log
    else EndOf(lives[|lives| - 1], TableAfter(log, lives[..|lives| - 1])).log
  }

  /** The account's executions whose rows were inserted, in all lives. */
  function ChargesOver(log: seq<Row>, lives: seq<Life>, a: Account): nat {
    if lives == [] then 0
    else
      var front, life := lives[..|lives| - 1], lives[|lives| - 1];
      var s := EndOf(life, TableAfter(log, front));
      ChargesOver(log, front, a) + Charges(s.executed, s.calls, a, true)
  }

  lemma EmptyTable(a: Account)
    ensures InTable([], a) == 0 && SumBytes(Select([], QueryFor(a.userId, a.from, a.to))) == 0
  {
  }

  /** Over any number of restarts, each with a configuration of its own, the table counts
      the inserted executions of all of them, and no bytes. */
  lemma {:induction false} RestartsAddUp(log: seq<Row>, lives: seq<Life>, a: Account)
    requires Comparable(a) && forall i :: 0 <= i < |lives| ==> OnTime(lives[i].events)
    ensures InTable(TableAfter(log, lives), a) == InTable(log, a) + ChargesOver(log, lives, a)
    ensures var q := QueryFor(a.userId, a.from, a.to);
            && SumBytes(Select(TableAfter(log, lives), q)) == SumBytes(Select(log, q))
            && (log == [] ==> SumBytes(Select(log, q)) == 0 && InTable(log, a) == 0)
  {
    EmptyTable(a);
    hide InTable, Run, Charges, BilledCalls, Select, SumBytes;
    if lives != [] {
      var front, life := lives[..|lives| - 1], lives[|lives| - 1];
      var s0 := Booted(life, TableAfter(log, front));
      RestartsAddUp(log, front, a);
      RunIsBalanced(s0, life.events, a);
      BilledAreExecutions(s0, life.events, a);
      RunAddsNoBytes(s0, life.events, QueryFor(a.userId, a.from, a.to));
    }
  }
}
