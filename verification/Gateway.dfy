/** The tool handlers, working on the real meter, manager and backends. Each handler call
    is a piece of a run of the Pipeline machine, so what is proved there of every run holds
    of the objects after any sequence of calls. */
module Gateway {
  import opened Wrappers
  import opened Config
  import opened Rbac
  import opened Resources
  import opened Timestamp
  import opened Metering
  import ByteOrder = Text
  import opened Pipeline

  datatype Response =
    | Rejected(why: Refusal)
    | ExecutionError(error: string)
    | EncodingError
    | Data(data: string)

  datatype UsageResponse =
    | NotAuthenticated
    | NotEnabled
    | NilDereference
    | QueryFailed(stage: Stage)
    | Stats(stats: UsageStats)

  /** What the world decides during one query call. */
  datatype Environment = Environment(outcome: Outcome, latency: int, now: Instant, stored: bool)

  function Respond(outcome: Outcome): Response {
    match outcome
    case Failed(error) => ExecutionError(error)
    case Returned(data, encodable) => if encodable then Data(data) else EncodingError
  }

  /** The backend systems, and what has been executed on them. */
  class Backends {
    ghost var executed: seq<Execution>

    constructor ()
      ensures executed == []
    {
      executed := [];
    }

    method Execute(ghost call: nat, resource: Resource, operation: string, params: Args, outcome: Outcome)
      returns (result: Outcome)
      modifies this
      ensures executed == old(executed) + [Execution(call, resource.name, operation, params, outcome)]
      ensures result == outcome
    {
      executed := executed + [Execution(call, resource.name, operation, params, outcome)];
      return outcome;
    }
  }

  predicate AsksForDays(args: Args) {
    "days" in args && args["days"].Number? && args["days"].number > 0.0
  }

  /** int(days) for a positive number, 30 for anything else. */
  function Days(args: Args): nat {
    if AsksForDays(args) then args["days"].number.Floor else 30
  }

  /** Where a usage report starts. */
  function LookbackStart(args: Args, to: Instant): Instant {
    AddDays(to, 0 - Days(args))
  }

  /** A usage report in a run: the events before it, its start, and the events of other
      calls after its first and its second query. */
  datatype UsageRun = UsageRun(begun: seq<Event>, ask: Event, k: nat, mid1: seq<Event>, mid2: seq<Event>) {
    ghost function First(): seq<Event> {
      begun + [ask]
    }

    ghost function Second(): seq<Event> {
      First() + [Event.Query(k)] + mid1
    }

    ghost function Third(): seq<Event> {
      Second() + [Event.Query(k)] + mid2
    }

    /** All that has happened when it ends. */
    ghost function At(failure: Option<Stage>): seq<Event> {
      match failure
      case Some(Totals) => First()
      case Some(ByResource) => Second()
      case Some(ByOperation) => Third()
      case None => Third() + [Event.Query(k)]
    }
  }

  lemma UsageRunReports(s0: System, usage: UsageRun)
    requires Run(s0, usage.begun).metered && usage.ask.Ask? && usage.k == |Run(s0, usage.begun).usages|
    requires Event.Query(usage.k) !in usage.mid1 && Event.Query(usage.k) !in usage.mid2
    ensures Run(s0, usage.First()).log == Run(s0, usage.begun).log
    ensures var s := Run(s0, usage.At(None));
            && usage.k < |s.usages| && |s.usages[usage.k].moments| == 3
            && s.usages[usage.k].stats ==
               Report(Run(s0, usage.begun).log, Run(s0, usage.Second()).log, Run(s0, usage.Third()).log,
                      QueryFor(usage.ask.userId, usage.ask.from, usage.ask.to))
            && s.log == Run(s0, usage.Third()).log
  {
    hide Run;
    AskThen(s0, usage.begun, usage.ask.userId, usage.ask.from, usage.ask.to);
    UsageIsReport(s0, usage.begun, usage.ask.userId, usage.ask.from, usage.ask.to, usage.mid1, usage.mid2);
  }

  lemma QuietUsageChangesNothing(s0: System, usage: UsageRun, failure: Option<Stage>)
    requires Run(s0, usage.begun).metered && usage.ask.Ask? && usage.k == |Run(s0, usage.begun).usages|
    requires usage.mid1 == [] && usage.mid2 == []
    ensures var s, t := Run(s0, usage.begun), Run(s0, usage.At(failure)); t.log == s.log && t.executed == s.executed
  {
    hide Run;
    AskThen(s0, usage.begun, usage.ask.userId, usage.ask.from, usage.ask.to);
    assert usage.Second() == usage.First() + [Event.Query(usage.k)];
    assert usage.Third() == usage.Second() + [Event.Query(usage.k)];
    QueryChangesNothing(s0, usage.First(), usage.k);
    QueryChangesNothing(s0, usage.Second(), usage.k);
    QueryChangesNothing(s0, usage.Third(), usage.k);
  }

  lemma QueryChangesNothing(s0: System, events: seq<Event>, k: nat)
    ensures var s, t := Run(s0, events), Run(s0, events + [Event.Query(k)]); t.log == s.log && t.executed == s.executed
  {
  }

  /** What the handler takes from the arguments. */
  lemma ArgumentsAre(args: Args)
    ensures Params(args) == args - {"resource", "operation"}
    ensures TextArg(args, "resource") ==
            if "resource" in args && args["resource"].Text? then args["resource"].text else ""
    ensures TextArg(args, "operation") ==
            if "operation" in args && args["operation"].Text? then args["operation"].text else ""
  {
  }

  class Server {
    const manager: Manager
    const authz: RBACAuthorizer
    const meter: SQLiteMeter?
    const backends: Backends
    ghost const table0: seq<Row>
    ghost var history: seq<Event>

    constructor (manager: Manager, authz: RBACAuthorizer, meter: SQLiteMeter?, backends: Backends)
      requires manager.Valid() && backends.executed == []
      ensures this.manager == manager && this.authz == authz && this.meter == meter && this.backends == backends
      ensures history == [] && table0 == (if meter == null then [] else meter.rows) && Valid()
    {
      this.manager, this.authz, this.meter, this.backends := manager, authz, meter, backends;
      table0 := if meter == null then [] else meter.rows;
      history := [];
    }

    /** The process at its start, with whatever rows the meter's file already held. */
    ghost function Initial(): (s: System)
      ensures Started(s)
    {
      System(authz.rules, manager.resources.Keys, meter != null, table0, [], [], [])
    }

    ghost function Machine(): System
      reads this
    {
      Run(Initial(), history)
    }

    /** The meter and the backends hold what the run so far says they hold. */
    ghost predicate Valid()
      reads this, meter, backends
    {
      && manager.Valid()
      && Machine().log == (if meter == null then [] else meter.rows)
      && Machine().executed == backends.executed
      && Configured(Machine())
    }

    ghost predicate Configured(s: System) {
      s.rules == authz.rules && s.managed == manager.resources.Keys && s.metered == (meter != null)
    }

    ghost method Note(e: Event)
      modifies this`history
      ensures history == old(history) + [e]
      ensures Machine() == Step(old(Machine()), e, |old(history)|)
    {
      history := history + [e];
      assert history[..|old(history)|] == old(history);
    }

    /** The steps before anything happens: authenticate, read the two arguments,
        authorize, look the resource up. */
    method Admitting(credentials: Credentials, args: Args) returns (r: Result<Resource, Refusal>)
      requires manager.Valid()
      ensures match Admission(authz.rules, manager.resources.Keys, credentials, args)
              case Some(why) => r == Err(why)
              case None => credentials.Present? && r.Ok? && r.value.name == TextArg(args, "resource")
      ensures && credentials.Present?
              && "resource" in args && args["resource"].Text? && args["resource"].text != ""
              && "operation" in args && args["operation"].Text? && args["operation"].text != ""
              && args["resource"].text in manager.resources
              && (exists i | 0 <= i < |authz.rules| ::
                    && authz.rules[i].group in credentials.claims.groups
                    && ("*" in authz.rules[i].resources || args["resource"].text in authz.rules[i].resources)
                    && "read" in authz.rules[i].permissions)
              ==> r.Ok?
    {
      hide Granted;
      AdmissionExactly(authz.rules, manager.resources.Keys, credentials, args);
      if credentials.Missing? { return Err(Unauthorized); }
      var resourceName := TextArg(args, "resource");
      if resourceName == "" { return Err(ResourceRequired); }
      var operation := TextArg(args, "operation");
      if operation == "" { return Err(OperationRequired); }
      var granted := authz.Check(ClaimsOf(credentials), resourceName, "read");
      if !granted { return Err(Forbidden); }
      var found := manager.Get(resourceName);
      if found == None { return Err(NotFound); }
      return Ok(found.value);
    }

    /** A call arrives and is decided on, and nothing else happens yet. */
    ghost method Enter(credentials: Credentials, args: Args) returns (n: nat)
      requires Valid()
      modifies this`history
      ensures n == |old(Machine()).calls| && history == old(history) + [Arrive(credentials, args), Admit(n)]
      ensures Valid() && n < |Machine().calls|
      ensures Machine().calls[n] == Call(credentials, args,
                match Admission(authz.rules, manager.resources.Keys, credentials, args)
                case Some(why) => Refused(why)
                case None => Admitted)
    {
      hide Run, Admission;
      n := |Machine().calls|;
      Note(Arrive(credentials, args));
      Note(Admit(n));
    }

    /** The steps that happen: execute on the backend, and record how it went. */
    method Perform(ghost n: nat, claims: Claims, resource: Resource, operation: string, args: Args, env: Environment)
      returns (result: Outcome)
      requires Valid() && n < |Machine().calls| && Machine().calls[n] == Call(Present(claims), args, Admitted)
      requires resource.name == TextArg(args, "resource") && operation == TextArg(args, "operation")
      modifies this`history, meter, backends
      ensures Valid() && result == env.outcome
      ensures history == old(history) + [Execute(n, env.outcome, env.latency), Record(n, env.now, env.stored)]
      ensures backends.executed == old(backends.executed) +
              [Execution(n, resource.name, operation, args - {"resource", "operation"}, env.outcome)]
      ensures meter != null && !env.stored ==> meter.rows == old(meter.rows)
      ensures meter != null && env.stored ==>
                && |meter.rows| == |old(meter.rows)| + 1 && old(meter.rows) <= meter.rows
                && Tells(meter.rows[|old(meter.rows)|],
                         UsageEntry(claims.subject, claims.email, resource.name, operation, 0, env.latency, env.now,
                                    env.outcome.Returned?, if env.outcome.Failed? then env.outcome.error else ""))
    {
      hide Run, Format, Admission, Params, TextArg, Advance, Tells;
      var params := WithoutMeta(args);
      result := backends.Execute(n, resource, operation, params, env.outcome);
      Note(Execute(n, env.outcome, env.latency));

      ghost var call := Machine().calls[n];
      if meter != null {
        var entry := UsageEntry(claims.subject, claims.email, resource.name, operation, 0, env.latency, env.now,
                                result.Returned?, if result.Failed? then result.error else "");
        assert entry == EntryOf(call, env.now);
        var _ := meter.Record(entry, env.stored);
      }
      Note(Record(n, env.now, env.stored));
    }

    /** redis_query, mongo_query, mysql_query and es_search. */
    method Query(credentials: Credentials, args: Args, env: Environment) returns (response: Response)
      requires Valid()
      modifies this`history, meter, backends
      ensures Valid()
      ensures var n := |old(Machine()).calls|;
              match Admission(authz.rules, manager.resources.Keys, credentials, args)
              case Some(why) =>
                && response == Rejected(why)
                && history == old(history) + [Arrive(credentials, args), Admit(n)]
                && backends.executed == old(backends.executed)
                && (meter != null ==> meter.rows == old(meter.rows))
              case None =>
                && response == Respond(env.outcome)
                && history == old(history) +
                   [Arrive(credentials, args), Admit(n), Execute(n, env.outcome, env.latency),
                    Record(n, env.now, env.stored)]
      ensures var n := |old(Machine()).calls|;
              && credentials.Present?
              && "resource" in args && args["resource"].Text? && args["resource"].text != ""
              && "operation" in args && args["operation"].Text? && args["operation"].text != ""
              && args["resource"].text in manager.resources
              && (exists i | 0 <= i < |authz.rules| ::
                    && authz.rules[i].group in credentials.claims.groups
                    && ("*" in authz.rules[i].resources || args["resource"].text in authz.rules[i].resources)
                    && "read" in authz.rules[i].permissions)
              ==>
                && backends.executed == old(backends.executed) +
                   [Execution(n, args["resource"].text, args["operation"].text, args - {"resource", "operation"},
                              env.outcome)]
                && response == (match env.outcome
                                case Failed(error) => ExecutionError(error)
                                case Returned(data, encodable) => if encodable then Data(data) else EncodingError)
                && (meter != null && !env.stored ==> meter.rows == old(meter.rows))
                && (meter != null && env.stored ==>
                      && |meter.rows| == |old(meter.rows)| + 1 && old(meter.rows) <= meter.rows
                      && Tells(meter.rows[|old(meter.rows)|],
                               UsageEntry(credentials.claims.subject, credentials.claims.email, args["resource"].text,
                                          args["operation"].text, 0, env.latency, env.now, env.outcome.Returned?,
                                          if env.outcome.Failed? then env.outcome.error else "")))
    {
      hide Run, Admission, Params, TextArg, Tells;
      ArgumentsAre(args);
      ghost var n := Enter(credentials, args);
      var admitted := Admitting(credentials, args);
      if admitted.Err? { return Rejected(admitted.error); }
      var operation := TextArg(args, "operation");
      var result := Perform(n, credentials.claims, admitted.value, operation, args, env);
      if result.Failed? { return ExecutionError(result.error); }
      if !result.encodable { return EncodingError; }
      return Data(result.data);
    }

    /** What other calls do between the queries of a usage report is what the database says
        they insert. */
    ghost predicate Interference(usage: UsageRun, db: Database)
      requires meter != null
      reads this, meter
    {
      && usage.begun == history && usage.k == |Machine().usages|
      && Event.Query(usage.k) !in usage.mid1 && Event.Query(usage.k) !in usage.mid2
      && Run(Initial(), usage.Second()).log == meter.rows + db.between1
      && Run(Initial(), usage.Third()).log == meter.rows + db.between1 + db.between2
    }

    /** Nothing at all in between is one possibility. */
    lemma QuietUsageIsAllowed(ask: Event, db: Database)
      requires Valid() && meter != null && ask.Ask? && db.between1 == [] && db.between2 == []
      ensures Interference(UsageRun(history, ask, |Machine().usages|, [], []), db)
    {
      hide Run;
      var usage := UsageRun(history, ask, |Machine().usages|, [], []);
      QuietUsageChangesNothing(Initial(), usage, Some(ByResource));
      QuietUsageChangesNothing(Initial(), usage, Some(ByOperation));
    }

    /** get_usage, with any steps of other calls between its queries. */
    method GetUsage(credentials: Credentials, args: Args, now: Instant, db: Database, ghost usage: UsageRun)
      returns (response: UsageResponse)
      requires Valid()
      requires credentials.Present? && meter != null ==>
                 var q := QueryFor(credentials.claims.subject, LookbackStart(args, now), now);
                 && usage.ask == Ask(credentials.claims.subject, LookbackStart(args, now), now)
                 && Interference(usage, db)
                 && IsGroupBy(db.resourceRows, Select(meter.rows + db.between1, q), Resource)
                 && IsGroupBy(db.operationRows, Select(meter.rows + db.between1 + db.between2, q), Operation)
      modifies this`history, meter, backends
      ensures Valid()
      ensures !(credentials.Present? && meter != null) ==>
                && response == (if credentials.Missing? then NotAuthenticated
                                else if meter == null then NotEnabled else NilDereference)
                && history == old(history) && backends.executed == old(backends.executed)
                && (meter != null ==> meter.rows == old(meter.rows))
      ensures credentials.Present? && meter != null && usage.mid1 == [] && usage.mid2 == [] ==>
                backends.executed == old(backends.executed)
      ensures credentials.Present? && meter != null ==>
                match db.failure
                case Some(stage) =>
                  && response == QueryFailed(stage)
                  && history == (match stage
                                 case Totals => usage.First()
                                 case ByResource => usage.Second()
                                 case ByOperation => usage.Third())
                  && meter.rows == old(meter.rows) + (match stage
                                                      case Totals => []
                                                      case ByResource => db.between1
                                                      case ByOperation => db.between1 + db.between2)
                case None =>
                  var q := QueryFor(credentials.claims.subject, LookbackStart(args, now), now);
                  && history == usage.Third() + [Event.Query(usage.k)]
                  && meter.rows == old(meter.rows) + db.between1 + db.between2
                  && response == Stats(Report(old(meter.rows), old(meter.rows) + db.between1, meter.rows, q))
                  && usage.k < |Machine().usages| && |Machine().usages[usage.k].moments| == 3
                  && response == Stats(Machine().usages[usage.k].stats)
    {
      hide Run, Format, AddDays, Select, Groups, SumBytes, Tally, IsGroupBy;
      hide UsageRun.First, UsageRun.Second, UsageRun.Third;
      if credentials.Missing? { return NotAuthenticated; }
      if meter == null { return NotEnabled; }
      var days := 30.0;
      if AsksForDays(args) { days := args["days"].number; }
      var to := now;
      var from := AddDays(to, 0 - days.Floor);
      if credentials.Nil? { return NilDereference; }
      var subject := credentials.claims.subject;
      var stats := meter.GetUsage(subject, from, to, db);
      UsageRunReports(Initial(), usage);
      if usage.mid1 == [] && usage.mid2 == [] { QuietUsageChangesNothing(Initial(), usage, db.failure); }
      history := usage.At(db.failure);
      RunIsGuarded(Initial(), history);
      backends.executed := Machine().executed;
      if stats.Err? { return QueryFailed(stats.error); }
      return Stats(stats.value);
    }

    /** list_resources: each managed name the caller's groups are told of, once. */
    method ListResources(credentials: Credentials) returns (response: Option<seq<ResourceInfo>>)
      requires manager.Valid()
      ensures response == None <==> credentials.Missing?
      ensures response.Some? ==>
                && (forall i, j :: 0 <= i < j < |response.value| ==> response.value[i].name != response.value[j].name)
                && forall info :: info in response.value <==>
                     && info.name in manager.resources && credentials.Present?
                     && (exists i | 0 <= i < |authz.rules| ::
                           && authz.rules[i].group in credentials.claims.groups
                           && ("*" in authz.rules[i].resources || info.name in authz.rules[i].resources))
                     && Details(info, info.name, manager.configs[info.name])
      ensures response.Some? && ReadCovered(authz.rules, manager.resources.Keys) ==>
                forall info :: info in response.value ==>
                  Granted(authz.rules, ClaimsOf(credentials), info.name, "read")
    {
      if credentials.Missing? { return None; }
      hide Listed, FirstOccurrences, Named, ReadCovered, Granted, AllowedNames;
      var allowed := authz.AllowedResources(ClaimsOf(credentials));
      AllowedNamesAre(authz.rules, ClaimsOf(credentials));
      var allowedSet := SetOf(allowed);
      var all := manager.List();
      var filtered := Filtered(all, allowedSet);
      ListingIsExact(authz.rules, ClaimsOf(credentials), all, allowedSet, filtered);
      ListedInFull(authz.rules, credentials, manager.configs, all, filtered);
      return Some(filtered);
    }
  }

  method SetOf(names: seq<string>) returns (result: set<string>)
    ensures forall n :: n in result <==> n in names
  {
    result := {};
    for i := 0 to |names|
      invariant forall n :: n in result <==> n in names[..i]
    {
      result := result + {names[i]};
    }
    assert names[..|names|] == names;
  }

  method Filtered(all: map<string, ResourceInfo>, allowedSet: set<string>) returns (filtered: seq<ResourceInfo>)
    requires forall name :: name in all ==> all[name].name == name
    ensures forall i, j :: 0 <= i < j < |filtered| ==> filtered[i].name != filtered[j].name
    ensures forall info :: info in filtered <==>
              info.name in all && info == all[info.name] && (info.name in allowedSet || "*" in allowedSet)
  {
    filtered := [];
    var todo := all.Keys;
    while todo != {}
      invariant todo <= all.Keys
      invariant forall i, j :: 0 <= i < j < |filtered| ==> filtered[i].name != filtered[j].name
      invariant forall info :: info in filtered <==>
                  && info.name in all && info.name !in todo && info == all[info.name]
                  && (info.name in allowedSet || "*" in allowedSet)
      decreases todo
    {
      var name :| name in todo;
      todo := todo - {name};
      assert forall i :: 0 <= i < |filtered| ==> filtered[i] in filtered;
      if name in allowedSet {
        filtered := filtered + [all[name]];
      } else if "*" in allowedSet {
        filtered := filtered + [all[name]];
      }
    }
  }

  /** The copy of the arguments handed to the backend. */
  method WithoutMeta(args: Args) returns (params: Args)
    ensures params == Params(args) == args - {"resource", "operation"}
  {
    params := map[];
    var todo := args.Keys;
    while todo != {}
      invariant todo <= args.Keys
      invariant params.Keys == args.Keys - todo - {"resource", "operation"}
      invariant forall k :: k in params ==> params[k] == args[k]
      decreases todo
    {
      var k :| k in todo;
      todo := todo - {k};
      if k == "resource" || k == "operation" { continue; }
      params := params[k := args[k]];
    }
  }

  function AllowedNames(rules: seq<RBACRule>, claims: Option<Claims>): seq<string> {
    if claims == None then [] else FirstOccurrences(Named(rules, claims.value.groups))
  }

  lemma AllowedIsListed(rules: seq<RBACRule>, claims: Option<Claims>)
    ensures forall name :: Listed(rules, claims, name) <==>
              name in AllowedNames(rules, claims) || "*" in AllowedNames(rules, claims)
  {
    if claims.Some? {
      var groups := claims.value.groups;
      forall name ensures Listed(rules, claims, name) <==>
                name in AllowedNames(rules, claims) || "*" in AllowedNames(rules, claims)
      {
        NamedBySomeRule(rules, groups, name);
        NamedBySomeRule(rules, groups, "*");
        if n :| n in [name, "*"] && n in Named(rules, groups) {
          var i :| 0 <= i < |rules| && rules[i].group in groups && n in rules[i].resources;
          assert RuleNames(rules[i], groups, name);
        }
      }
    }
  }

  lemma AllowedNamesAre(rules: seq<RBACRule>, claims: Option<Claims>)
    ensures AllowedNames(rules, claims) ==
            if claims == None then [] else FirstOccurrences(Named(rules, claims.value.groups))
  {
  }

  /** What the filter keeps is what is listed, and readable on the exact condition. */
  lemma ListingIsExact(rules: seq<RBACRule>, claims: Option<Claims>, all: map<string, ResourceInfo>,
                       allowedSet: set<string>, filtered: seq<ResourceInfo>)
    requires forall n :: n in allowedSet <==> n in AllowedNames(rules, claims)
    requires forall info :: info in filtered <==>
               info.name in all && info == all[info.name] && (info.name in allowedSet || "*" in allowedSet)
    ensures forall info :: info in filtered <==>
              info.name in all && Listed(rules, claims, info.name) && info == all[info.name]
    ensures ReadCovered(rules, all.Keys) ==>
              forall info :: info in filtered ==> Granted(rules, claims, info.name, "read")
  {
    hide Listed, AllowedNames, ReadCovered, Granted;
    AllowedIsListed(rules, claims);
    ListedIsReadableExactly(rules, all.Keys);
  }

  lemma ListedInFull(rules: seq<RBACRule>, credentials: Credentials, configs: map<string, ResourceConfig>,
                     all: map<string, ResourceInfo>, filtered: seq<ResourceInfo>)
    requires all.Keys == configs.Keys && forall name :: name in all ==> all[name] == InfoOf(name, configs[name])
    requires forall info :: info in filtered <==>
               info.name in all && Listed(rules, ClaimsOf(credentials), info.name) && info == all[info.name]
    ensures forall info :: info in filtered <==>
              && info.name in all && credentials.Present?
              && (exists i | 0 <= i < |rules| ::
                    && rules[i].group in credentials.claims.groups
                    && ("*" in rules[i].resources || info.name in rules[i].resources))
              && Details(info, info.name, configs[info.name])
  {
    hide Listed, InfoOf, Details;
    forall info: ResourceInfo | info.name in all
      ensures Listed(rules, ClaimsOf(credentials), info.name) <==>
              credentials.Present? && exists i | 0 <= i < |rules| ::
                && rules[i].group in credentials.claims.groups
                && ("*" in rules[i].resources || info.name in rules[i].resources)
      ensures info == all[info.name] <==> Details(info, info.name, configs[info.name])
    {
      ListedExactly(rules, ClaimsOf(credentials), info.name);
      InfoExactly(info, info.name, configs[info.name]);
    }
  }

  /** The window starts as many days back as a positive argument asks for, and otherwise 30,
      while that is in range. */
  lemma LookbackExactly(args: Args, now: Instant)
    requires FourDigitYear(now)
    ensures var asks := "days" in args && args["days"].Number? && args["days"].number > 0.0;
            && (asks && args["days"].number.Floor < FirstTooMany(now) ==>
                  LookbackStart(args, now) == now - args["days"].number.Floor * 86_400_000_000_000)
            && (!asks ==> LookbackStart(args, now) == now - 30 * 86_400_000_000_000)
  {
    hide AddDays;
    ThirtyDaysInRange(now);
    if Days(args) < FirstTooMany(now) { BackInRange(now, Days(args)); }
  }

  lemma ThirtyDaysInRange(now: Instant)
    requires FourDigitYear(now)
    ensures 30 < FirstTooMany(now)
  {
    assert FIRST <= Seconds(now) - 30 * DAY;
  }

  /** So a quiet report for some number of days counts the user's entries of just those days. */
  lemma UsageCountsDays(entries: seq<UsageEntry>, userId: string, args: Args, now: Instant, key: string)
    requires AllFourDigit(entries) && FourDigitYear(now)
    requires "days" in args && args["days"].Number? && args["days"].number > 0.0 ==>
               args["days"].number.Floor < FirstTooMany(now)
    ensures var days := if "days" in args && args["days"].Number? && args["days"].number > 0.0
                        then args["days"].number.Floor else 30;
            var r := UsageOf(entries, userId, LookbackStart(args, now), now);
            var w := set i: nat | i < |entries| && entries[i].userId == userId
                                  && (now - days * 86_400_000_000_000) / 1_000_000_000 <=
                                     entries[i].timestamp / 1_000_000_000 <= now / 1_000_000_000;
            && r.totalRequests == |w|
            && CountIn(r.byResource, key) == |set i | i in w && entries[i].resource == key|
            && CountIn(r.byOperation, key) == |set i | i in w && entries[i].operation == key|
  {
    hide UsageOf, LookbackStart, CountIn;
    var days := if "days" in args && args["days"].Number? && args["days"].number > 0.0
                then args["days"].number.Floor else 30;
    LookbackExactly(args, now);
    var from := now - days * 86_400_000_000_000;
    ReportCountsEntries(entries, userId, from, now, key);
    var w := set i: nat | i < |entries| && entries[i].userId == userId
                          && from / 1_000_000_000 <= entries[i].timestamp / 1_000_000_000 <= now / 1_000_000_000;
    assert w == Window(entries, userId, from, now);
    assert (set i | i in w && entries[i].resource == key) == Keyed(entries, w, Resource, key);
    assert (set i | i in w && entries[i].operation == key) == Keyed(entries, w, Operation, key);
  }

  /** Asking for more days never lowers any figure of the report, as long as the start of
      the window stays in the range of times. */
  lemma MoreDaysNeverLower(entries: seq<UsageEntry>, userId: string, args: Args, args': Args, now: Instant, key: string)
    requires AllFourDigit(entries) && FourDigitYear(now) && Days(args) <= Days(args') < FirstTooMany(now)
    ensures NoLower(UsageOf(entries, userId, LookbackStart(args, now), now),
                    UsageOf(entries, userId, LookbackStart(args', now), now), key)
  {
    BackInRange(now, Days(args));
    BackInRange(now, Days(args'));
    EarlierStartNeverLowers(entries, userId, LookbackStart(args, now), LookbackStart(args', now), now, key);
  }

  /** For any other number of days it holds, for all users and tables, exactly when the
      start that comes out is written no later than the other start. */
  lemma OtherDaysNeverLowerExactly(args: Args, args': Args, now: Instant)
    requires FourDigitYear(now) && Days(args) < FirstTooMany(now)
    ensures (forall entries, userId, key :: AllFourDigit(entries) ==>
               NoLower(UsageOf(entries, userId, LookbackStart(args, now), now),
                       UsageOf(entries, userId, LookbackStart(args', now), now), key))
            <==> ByteOrder.AtMost(Format(LookbackStart(args', now)), Format(LaterOf(LookbackStart(args, now), 0)))
  {
    hide Format, UsageOf, NoLower;
    BackInRange(now, Days(args));
    NeverLowersExactly(LookbackStart(args, now), LookbackStart(args', now), now);
  }

  /** With one day too many it fails: the start wraps around to a year so late that its
      text follows all of this century, and the report is empty whatever the table holds. */
  lemma TooManyDaysReportNothing(entries: seq<UsageEntry>, userId: string, args: Args, now: Instant)
    requires 2000 <= Year(now) < 2100 && FourDigitYear(now)
    requires FirstTooMany(now) <= Days(args) < FirstTooMany(now) + 800_000_000_000
    ensures UsageOf(entries, userId, LookbackStart(args, now), now) == UsageStats(0, 0, map[], map[])
  {
    hide Format, AddDays;
    BackTooFar(now, Days(args));
    NothingBetween(RowsOf(entries), userId, LookbackStart(args, now), now);
  }

  /** A positive number asks for its whole part, in order; anything else for 30 days. */
  lemma DaysAscend(args: Args, args': Args)
    ensures AsksForDays(args) ==> Days(args) as real <= args["days"].number < Days(args) as real + 1.0
    ensures !AsksForDays(args) ==> Days(args) == Days(map[]) == 30
    ensures AsksForDays(args) && AsksForDays(args') && args["days"].number <= args'["days"].number ==>
              Days(args) <= Days(args')
  {
  }

  /** A report made while nothing else runs counts the rows found at the start and exactly
      the calls made through this server that recorded an entry for the user in the window:
      the executions its backends performed for the user, less those whose insert failed. */
  lemma ServerReportIsExact(server: Server, userId: string, from: Instant, to: Instant, key: string)
    requires server.Valid() && server.meter != null
    requires OnTime(server.history) && FourDigitYear(to) && from < YEAR_10000
    ensures var log, q := server.meter.rows, QueryFor(userId, from, to);
            var r := Report(log, log, log, q);
            && r.totalBytes == SumBytes(Select(server.table0, q))
            && ServerCounts(server, r.totalRequests, Account(userId, from, to, Total))
            && ServerCounts(server, CountIn(r.byResource, key), Account(userId, from, to, Entry(Resource, key)))
            && ServerCounts(server, CountIn(r.byOperation, key), Account(userId, from, to, Entry(Operation, key)))
  {
    hide Run, Charges, BilledCalls, NoneLost, Select, Groups, QueryFor, SumBytes;
    var q := QueryFor(userId, from, to);
    RunAddsNoBytes(server.Initial(), server.history, q);
    GroupCounts(Select(server.meter.rows, q), Resource, key);
    GroupCounts(Select(server.meter.rows, q), Operation, key);
    RowsAreCounted(server, Account(userId, from, to, Total));
    RowsAreCounted(server, Account(userId, from, to, Entry(Resource, key)));
    RowsAreCounted(server, Account(userId, from, to, Entry(Operation, key)));
  }

  ghost predicate ServerCounts(server: Server, n: nat, a: Account)
    reads server, server.backends
  {
    var s, xs := server.Machine(), server.backends.executed;
    && n == InTable(server.table0, a) + BilledCalls(s.calls, a)
    && n == InTable(server.table0, a) + Charges(xs, s.calls, a, true)
    && (n == InTable(server.table0, a) + Charges(xs, s.calls, a, false) <==> NoneLost(s, a))
  }

  lemma RowsAreCounted(server: Server, a: Account)
    requires server.Valid() && server.meter != null && OnTime(server.history) && Comparable(a)
    ensures ServerCounts(server, InTable(server.meter.rows, a), a)
  {
    hide Run, Charges, BilledCalls, NoneLost, InTable;
    RunIsBalanced(server.Initial(), server.history, a);
    BilledAreExecutions(server.Initial(), server.history, a);
    BilledIsAllExactly(server.Initial(), server.history, a);
  }
}
