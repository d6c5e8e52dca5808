/** The manager of backend resources: built from a configuration map in whatever order
    the map is walked, with clean-up on the first failure, and closed in any order. */
module Resources {
  import opened Wrappers
  import opened Config

  datatype ResourceInfo = ResourceInfo(
    name: string, kind: string, description: string, allowedOps: seq<string>, readOnly: bool)

  /** A connected backend. What it reports about itself is fixed when it is built. */
  class Resource {
    const name: string
    const kind: string
    const description: string
    const allowedOps: seq<string>
    const closeError: Option<string>
    var closes: nat

    constructor (name: string, config: ResourceConfig, closeError: Option<string>)
      ensures this.name == name && this.closeError == closeError && closes == 0
      ensures Describes(config)
    {
      this.name, this.kind := name, ToLower(config.kind);
      description, allowedOps, this.closeError, closes := config.description, config.allowedOps, closeError, 0;
    }

    predicate Describes(config: ResourceConfig) {
      kind == ToLower(config.kind) && description == config.description && allowedOps == config.allowedOps
    }

    method Close() returns (err: Option<string>)
      modifies this
      ensures closes == old(closes) + 1 && err == closeError
    {
      closes := closes + 1;
      return closeError;
    }
  }

  function LowerChar(c: char): char {
    if 'A' <= c <= 'Z' then c + 32 as char else c
  }

  function ToLower(s: string): (r: string)
    ensures |r| == |s| && forall i :: 0 <= i < |s| ==> r[i] == LowerChar(s[i])
  {
    seq(|s|, i requires 0 <= i < |s| => LowerChar(s[i]))
  }

  /** Letters lose their upper case, everything else stays. */
  predicate LowerCased(text: string, s: string) {
    |text| == |s| && forall i :: 0 <= i < |s| ==>
      text[i] as int == if 65 <= s[i] as int <= 90 then s[i] as int + 32 else s[i] as int
  }

  lemma ToLowerExactly(s: string, text: string)
    ensures ToLower(s) == text <==> LowerCased(text, s)
  {
  }

  predicate Supported(kind: string) {
    ToLower(kind) in ["redis", "mongodb", "mysql", "elasticsearch"]
  }

  /** The field each kind cannot do without. */
  function Address(config: ResourceConfig): string {
    var kind := ToLower(config.kind);
    if kind == "redis" then config.host
    else if kind == "mongodb" then config.uri
    else if kind == "mysql" then config.dsn
    else config.url
  }

  /** A kind is known, in any case of letters, by one of four names, and each needs its own
      field. */
  lemma KindsExactly(config: ResourceConfig)
    ensures Supported(config.kind) && Address(config) != "" <==>
            || (LowerCased("redis", config.kind) && config.host != "")
            || (LowerCased("mongodb", config.kind) && config.uri != "")
            || (LowerCased("mysql", config.kind) && config.dsn != "")
            || (LowerCased("elasticsearch", config.kind) && config.url != "")
  {
    hide LowerCased, ToLower;
    ToLowerExactly(config.kind, "redis");
    ToLowerExactly(config.kind, "mongodb");
    ToLowerExactly(config.kind, "mysql");
    ToLowerExactly(config.kind, "elasticsearch");
    assert "redis" != "mongodb" && "redis" != "mysql" && "redis" != "elasticsearch";
    assert "mongodb" != "mysql" && "mongodb" != "elasticsearch" && |"mysql"| != |"elasticsearch"|;
  }

  /** The client libraries behind the four kinds: which configured names they accept, how
      each built resource answers Close, and everything built so far. */
  class Drivers {
    const accepts: set<string>
    const closeErrors: map<string, string>
    var built: seq<Resource>

    constructor (accepts: set<string>, closeErrors: map<string, string>)
      ensures this.accepts == accepts && this.closeErrors == closeErrors && built == []
    {
      this.accepts, this.closeErrors, built := accepts, closeErrors, [];
    }

    predicate Constructible(name: string, config: ResourceConfig) {
      Supported(config.kind) && Address(config) != "" && name in accepts
    }

    method New(name: string, config: ResourceConfig) returns (r: Result<Resource, string>)
      modifies this
      ensures r.Ok? <==> Constructible(name, config)
      ensures r.Err? ==> built == old(built)
      ensures r.Ok? ==>
                && fresh(r.value) && built == old(built) + [r.value]
                && r.value.name == name && r.value.Describes(config) && r.value.closes == 0
    {
      if !Supported(config.kind) { return Err("unsupported resource type"); }
      if Address(config) == "" { return Err("address is required"); }
      if name !in accepts { return Err("cannot connect"); }
      var res := new Resource(name, config, if name in closeErrors then Some(closeErrors[name]) else None);
      built := built + [res];
      return Ok(res);
    }
  }

  class Manager {
    const resources: map<string, Resource>
    const configs: map<string, ResourceConfig>

    constructor (resources: map<string, Resource>, configs: map<string, ResourceConfig>)
      ensures this.resources == resources && this.configs == configs
    {
      this.resources, this.configs := resources, configs;
    }

    /** Each name has a resource of its own, built from the name's configuration. */
    ghost predicate Valid() {
      && resources.Keys == configs.Keys
      && forall name :: name in resources ==>
           resources[name].name == name && resources[name].Describes(configs[name])
    }

    method Get(name: string) returns (r: Option<Resource>)
      ensures r == if name in resources then Some(resources[name]) else None
    {
      return if name in resources then Some(resources[name]) else None;
    }

    method List() returns (infos: map<string, ResourceInfo>)
      requires Valid()
      ensures infos.Keys == resources.Keys
      ensures forall name :: name in infos ==> infos[name] == InfoOf(name, configs[name])
      ensures forall name :: name in infos ==> Details(infos[name], name, configs[name])
    {
      infos := map[];
      var todo := resources.Keys;
      while todo != {}
        invariant todo <= resources.Keys && infos.Keys == resources.Keys - todo
        invariant forall name :: name in infos ==> infos[name] == InfoOf(name, configs[name])
        decreases todo
      {
        var name :| name in todo;
        todo := todo - {name};
        var r := resources[name];
        infos := infos[name := ResourceInfo(name, r.kind, r.description, r.allowedOps, configs[name].readOnly)];
      }
    }

    /** Closes every resource once, in some order and whatever fails on the way, and
        reports the first failure of that order. */
    method Close() returns (firstErr: Option<string>, ghost order: seq<string>)
      requires Valid()
      modifies resources.Values
      ensures forall name :: name in resources ==> resources[name].closes == old(resources[name].closes) + 1
      ensures (forall name :: name in order <==> name in resources) && |order| == |resources|
      ensures firstErr == FirstError(resources, order)
      ensures firstErr == None <==> forall name :: name in resources ==> resources[name].closeError == None
    {
      hide FirstError, ToLower, Resource.Describes;
      FirstErrorNone(resources, []);
      firstErr := None;
      order := [];
      var todo := resources.Keys;
      while todo != {}
        invariant todo <= resources.Keys && |order| + |todo| == |resources|
        invariant forall name :: name in order <==> name in resources && name !in todo
        invariant forall name :: name in resources ==>
                    resources[name].closes == old(resources[name].closes) + if name in todo then 0 else 1
        invariant firstErr == FirstError(resources, order)
        decreases todo
      {
        var name :| name in todo;
        todo := todo - {name};
        assert resources[name] in resources.Values;
        var err := resources[name].Close();
        if err.Some? && firstErr == None { firstErr := err; }
        FirstErrorNext(resources, order, name);
        order := order + [name];
      }
      FirstErrorNone(resources, order);
    }
  }

  /** The error of the first resource in the order that failed to close. */
  ghost function FirstError(resources: map<string, Resource>, order: seq<string>): Option<string>
    requires forall name :: name in order ==> name in resources
  {
    if order == [] then None
    else if resources[order[0]].closeError.Some? then resources[order[0]].closeError
    else FirstError(resources, order[1..])
  }

  lemma {:induction false} FirstErrorNext(resources: map<string, Resource>, order: seq<string>, name: string)
    requires name in resources && forall n :: n in order ==> n in resources
    ensures var first := FirstError(resources, order);
            FirstError(resources, order + [name]) == if first.Some? then first else resources[name].closeError
  {
    if order == [] {
      assert (order + [name])[1..] == [];
    } else {
      assert (order + [name])[1..] == order[1..] + [name];
      FirstErrorNext(resources, order[1..], name);
    }
  }

  lemma {:induction false} FirstErrorNone(resources: map<string, Resource>, order: seq<string>)
    requires forall n :: n in order ==> n in resources
    ensures FirstError(resources, order) == None <==> forall n :: n in order ==> resources[n].closeError == None
  {
    if order != [] {
      assert forall n :: n in order <==> n == order[0] || n in order[1..];
      FirstErrorNone(resources, order[1..]);
    }
  }

  function InfoOf(name: string, config: ResourceConfig): ResourceInfo {
    ResourceInfo(name, ToLower(config.kind), config.description, config.allowedOps, config.readOnly)
  }

  /** What is told of a resource, field by field. */
  predicate Details(info: ResourceInfo, name: string, config: ResourceConfig) {
    && info.name == name && LowerCased(info.kind, config.kind) && info.description == config.description
    && info.allowedOps == config.allowedOps && info.readOnly == config.readOnly
  }

  lemma InfoExactly(info: ResourceInfo, name: string, config: ResourceConfig)
    ensures info == InfoOf(name, config) <==> Details(info, name, config)
  {
    hide LowerCased, ToLower;
    ToLowerExactly(config.kind, info.kind);
  }

  /** The first failure of an order is that of a resource with none before it. */
  lemma {:induction false} FirstErrorExactly(resources: map<string, Resource>, order: seq<string>, error: string)
    requires forall n :: n in order ==> n in resources
    ensures FirstError(resources, order) == Some(error) <==>
            exists k ::
              0 <= k < |order| && FailsFirst(resources, order, k) && resources[order[k]].closeError == Some(error)
  {
    if order != [] {
      var rest := order[1..];
      FirstErrorExactly(resources, rest, error);
      if resources[order[0]].closeError.Some? {
        assert FailsFirst(resources, order, 0);
        assert forall k :: 0 < k < |order| ==> !FailsFirst(resources, order, k);
      } else {
        forall k | 0 < k < |order| ensures FailsFirst(resources, order, k) <==> FailsFirst(resources, rest, k - 1) {
          FailsNext(resources, order, k);
        }
        if k :| 0 <= k < |order| && FailsFirst(resources, order, k) && resources[order[k]].closeError == Some(error) {
          assert FailsFirst(resources, rest, k - 1);
        }
        if k :| 0 <= k < |rest| && FailsFirst(resources, rest, k) && resources[rest[k]].closeError == Some(error) {
          assert FailsFirst(resources, order, k + 1);
        }
      }
    }
  }

  predicate FailsFirst(resources: map<string, Resource>, order: seq<string>, k: nat)
    requires k < |order| && forall n :: n in order ==> n in resources
  {
    resources[order[k]].closeError.Some? && forall j :: 0 <= j < k ==> resources[order[j]].closeError == None
  }

  lemma FailsNext(resources: map<string, Resource>, order: seq<string>, k: nat)
    requires 0 < k < |order| && forall n :: n in order ==> n in resources
    requires resources[order[0]].closeError == None
    ensures FailsFirst(resources, order, k) <==> FailsFirst(resources, order[1..], k - 1)
  {
    var rest := order[1..];
    assert forall j :: 0 <= j < |rest| ==> rest[j] == order[j + 1];
    if FailsFirst(resources, rest, k - 1) {
      forall j | 0 <= j < k ensures resources[order[j]].closeError == None {
        if j > 0 { assert order[j] == rest[j - 1]; }
      }
    }
  }

  /** Walks the configuration map in any order. Succeeds exactly when every entry can be
      built; on failure every resource built on the way has been closed exactly once. */
  method NewManager(configs: map<string, ResourceConfig>, drivers: Drivers) returns (r: Result<Manager, string>)
    modifies drivers
    ensures r.Ok? <==> forall name :: name in configs ==> drivers.Constructible(name, configs[name])
    ensures old(drivers.built) <= drivers.built
    ensures forall i :: |old(drivers.built)| <= i < |drivers.built| ==>
              && fresh(drivers.built[i])
              && drivers.built[i].closes == if r.Ok? then 0 else 1
    ensures r.Ok? ==>
              && fresh(r.value) && r.value.Valid() && r.value.configs == configs
              && forall name :: name in configs ==> r.value.resources[name] in drivers.built[|old(drivers.built)|..]
    ensures r.Err? ==> r.error in configs && !drivers.Constructible(r.error, configs[r.error])
  {
    hide ToLower, Resource.Describes, Supported, Address;
    var resources: map<string, Resource> := map[];
    ghost var before := |drivers.built|;
    var todo := configs.Keys;
    while todo != {}
      invariant todo <= configs.Keys && resources.Keys == configs.Keys - todo
      invariant old(drivers.built) <= drivers.built
      invariant Tracks(resources, configs, drivers.built[before..])
      invariant forall i :: before <= i < |drivers.built| ==> fresh(drivers.built[i]) && drivers.built[i].closes == 0
      invariant forall name :: name in resources ==> drivers.Constructible(name, configs[name])
      decreases todo
    {
      var name :| name in todo;
      todo := todo - {name};
      ghost var soFar := drivers.built[before..];
      var built := drivers.New(name, configs[name]);
      if built.Err? {
        CloseAll(resources, drivers.built[before..]);
        return Err(name);
      }
      assert drivers.built[before..] == soFar + [built.value];
      resources := resources[name := built.value];
    }
    var m := new Manager(resources, configs);
    return Ok(m);
  }

  /** The stored resources are exactly those built, one for each stored name. */
  ghost predicate Tracks(resources: map<string, Resource>, configs: map<string, ResourceConfig>, built: seq<Resource>) {
    && resources.Keys <= configs.Keys
    && (forall name :: name in resources ==>
          && resources[name] in built
          && resources[name].name == name && resources[name].Describes(configs[name]))
    && (forall r :: r in built ==> r.name in resources && resources[r.name] == r)
  }

  /** The clean-up loop: close errors are logged and dropped. */
  method CloseAll(resources: map<string, Resource>, ghost built: seq<Resource>)
    requires forall name :: name in resources ==> resources[name].name == name && resources[name].closes == 0
    requires forall r :: r in built ==> r.name in resources && resources[r.name] == r
    modifies resources.Values
    ensures forall r :: r in built ==> r.closes == 1
  {
    var todo := resources.Keys;
    while todo != {}
      invariant todo <= resources.Keys
      invariant forall name :: name in resources ==> resources[name].closes == if name in todo then 0 else 1
      decreases todo
    {
      var name :| name in todo;
      todo := todo - {name};
      assert resources[name] in resources.Values;
      var _ := resources[name].Close();
    }
  }
}
