/** expandEnvVars: the walk over a configuration that expands its strings in place. The
    walk itself is stated on trees of the shapes reflection meets in a Config; the class
    below runs it on the record's own fields. */
module ConfigTree {
  import opened Wrappers
  import opened Config
  import opened Expand

  datatype Value =
    | Str(s: string)
    | Scalar(n: int)
    | Struct(fields: seq<Value>)
    | Slice(items: seq<Value>)
    | NilMap
    | Map(entries: map<string, Value>)

  /** expandEnvVars on an addressable value. */
  function Walk(v: Value, env: Env): Value {
    match v
    case Str(s) => Str(ExpandString(s, env))
    case Scalar(_) => v
    case Struct(fields) => Struct(seq(|fields|, i requires 0 <= i < |fields| => Walk(fields[i], env)))
    case Slice(items) => Slice(seq(|items|, i requires 0 <= i < |items| => Walk(items[i], env)))
    case NilMap => v
    case Map(entries) => Map(map k | k in entries ::
        match entries[k]
        case Str(s) => Str(ExpandString(s, env))
        case Struct(_) => Walk(entries[k], env)
        case _ => entries[k])
  }

  /** The same tree with every string leaf expanded once. */
  function Leaves(v: Value, env: Env): Value {
    match v
    case Str(s) => Str(ExpandString(s, env))
    case Scalar(_) => v
    case Struct(fields) => Struct(seq(|fields|, i requires 0 <= i < |fields| => Leaves(fields[i], env)))
    case Slice(items) => Slice(seq(|items|, i requires 0 <= i < |items| => Leaves(items[i], env)))
    case NilMap => v
    case Map(entries) => Map(map k | k in entries :: Leaves(entries[k], env))
  }

  datatype Place = Index(i: nat) | Entry(key: string)

  /** What is found in a tree by going from place to place. */
  function At(v: Value, path: seq<Place>): Option<Value> {
    if path == [] then Some(v)
    else
      match (v, path[0])
      case (Struct(fields), Index(i)) => if i < |fields| then At(fields[i], path[1..]) else None
      case (Slice(items), Index(i)) => if i < |items| then At(items[i], path[1..]) else None
      case (Map(entries), Entry(key)) => if key in entries then At(entries[key], path[1..]) else None
      case _ => None
  }

  /** Wherever the tree has a string, Leaves has its expansion; it has nothing new, and other
      leaves are the same. */
  lemma {:induction false} LeavesAt(v: Value, env: Env, path: seq<Place>)
    ensures var a, b := At(v, path), At(Leaves(v, env), path);
            && (a == None <==> b == None)
            && (forall s :: a == Some(Str(s)) ==> b == Some(Str(ExpandString(s, env))))
            && (forall n :: a == Some(Scalar(n)) ==> b == Some(Scalar(n)))
            && (a == Some(NilMap) ==> b == Some(NilMap))
            && (a.Some? && a.value.Struct? ==> b.value.Struct? && |b.value.fields| == |a.value.fields|)
            && (a.Some? && a.value.Slice? ==> b.value.Slice? && |b.value.items| == |a.value.items|)
            && (a.Some? && a.value.Map? ==> b.value.Map? && b.value.entries.Keys == a.value.entries.Keys)
    decreases |path|
  {
    hide ExpandString;
    if path != [] {
      match (v, path[0])
      case (Struct(fields), Index(i)) => if i < |fields| { LeavesAt(fields[i], env, path[1..]); }
      case (Slice(items), Index(i)) => if i < |items| { LeavesAt(items[i], env, path[1..]); }
      case (Map(entries), Entry(key)) => if key in entries { LeavesAt(entries[key], env, path[1..]); }
      case _ =>
    }
  }

  /** No leaf refers to a variable. */
  ghost predicate AllStable(v: Value) {
    match v
    case Str(s) => Stable(s)
    case Scalar(_) => true
    case Struct(fields) => forall i :: 0 <= i < |fields| ==> AllStable(fields[i])
    case Slice(items) => forall i :: 0 <= i < |items| ==> AllStable(items[i])
    case NilMap => true
    case Map(entries) => forall k :: k in entries ==> AllStable(entries[k])
  }

  /** No reference sits where the walk does not go: in a slice or a map that is itself a
      map value, which expandMapValue hands back as it is. */
  ghost predicate InReach(v: Value) {
    match v
    case Str(_) => true
    case Scalar(_) => true
    case Struct(fields) => forall i :: 0 <= i < |fields| ==> InReach(fields[i])
    case Slice(items) => forall i :: 0 <= i < |items| ==> InReach(items[i])
    case NilMap => true
    case Map(entries) => forall k :: k in entries ==>
        match entries[k]
        case Str(_) => true
        case Struct(_) => InReach(entries[k])
        case _ => AllStable(entries[k])
  }

  lemma {:induction false} StableLeavesFixed(v: Value, env: Env)
    requires AllStable(v)
    ensures Leaves(v, env) == v
  {
    match v
    case Str(s) => StableIsFixed(s, env);
    case Struct(fields) =>
      forall i | 0 <= i < |fields| ensures Leaves(fields[i], env) == fields[i] {
        StableLeavesFixed(fields[i], env);
      }
    case Slice(items) =>
      forall i | 0 <= i < |items| ensures Leaves(items[i], env) == items[i] {
        StableLeavesFixed(items[i], env);
      }
    case Map(entries) =>
      forall k | k in entries ensures Leaves(entries[k], env) == entries[k] {
        StableLeavesFixed(entries[k], env);
      }
    case _ =>
  }

  lemma {:induction false} ReachedIsExpanded(v: Value, env: Env)
    requires InReach(v)
    ensures Walk(v, env) == Leaves(v, env)
  {
    match v
    case Struct(fields) =>
      forall i | 0 <= i < |fields| ensures Walk(fields[i], env) == Leaves(fields[i], env) {
        ReachedIsExpanded(fields[i], env);
      }
    case Slice(items) =>
      forall i | 0 <= i < |items| ensures Walk(items[i], env) == Leaves(items[i], env) {
        ReachedIsExpanded(items[i], env);
      }
    case Map(entries) =>
      forall k | k in entries ensures Walk(v, env).entries[k] == Leaves(entries[k], env) {
        if entries[k].Struct? {
          ReachedIsExpanded(entries[k], env);
        } else if !entries[k].Str? {
          StableLeavesFixed(entries[k], env);
        }
      }
    case _ =>
  }

  /** The environment in which nothing is set. */
  function Unset(name: string): string {
    ""
  }

  lemma {:induction false} ScanShrinks(s: string, i: nat)
    requires i <= |s|
    ensures |Scan(s, i, Unset)| <= |s| - i
    ensures |Scan(s, i, Unset)| == |s| - i ==> NoMatchIn(s, i, |s|)
    decreases |s| - i
  {
    if i < |s| {
      var j := MatchEnd(s, i);
      ScanShrinks(s, if j != 0 then j else i + 1);
    }
  }

  lemma UnsetFixesOnlyStable(s: string)
    requires ExpandString(s, Unset) == s
    ensures Stable(s)
  {
    if HasOpening(s) { ScanShrinks(s, 0); }
    forall i: nat, j: nat ensures !IsMatch(s, i, j) {
      if i < |s| && !HasOpening(s) { assert !(i + 1 < |s| && s[i] == '$' && s[i + 1] == '{'); }
    }
  }

  lemma {:induction false} FixedLeavesStable(v: Value)
    requires Leaves(v, Unset) == v
    ensures AllStable(v)
  {
    match v
    case Str(s) => UnsetFixesOnlyStable(s);
    case Struct(fields) =>
      forall i | 0 <= i < |fields| ensures AllStable(fields[i]) {
        assert Leaves(v, Unset).fields[i] == fields[i];
        FixedLeavesStable(fields[i]);
      }
    case Slice(items) =>
      forall i | 0 <= i < |items| ensures AllStable(items[i]) {
        assert Leaves(v, Unset).items[i] == items[i];
        FixedLeavesStable(items[i]);
      }
    case Map(entries) =>
      forall k | k in entries ensures AllStable(entries[k]) {
        assert Leaves(v, Unset).entries[k] == entries[k];
        FixedLeavesStable(entries[k]);
      }
    case _ =>
  }

  lemma {:induction false} ExpandedIsReached(v: Value)
    requires Walk(v, Unset) == Leaves(v, Unset)
    ensures InReach(v)
  {
    match v
    case Struct(fields) => forall i | 0 <= i < |fields| ensures InReach(fields[i]) {
        assert Walk(v, Unset).fields[i] == Leaves(v, Unset).fields[i];
        ExpandedIsReached(fields[i]);
      }
    case Slice(items) => forall i | 0 <= i < |items| ensures InReach(items[i]) {
        assert Walk(v, Unset).items[i] == Leaves(v, Unset).items[i];
        ExpandedIsReached(items[i]);
      }
    case Map(entries) =>
      forall k | k in entries ensures match entries[k]
                                      case Str(_) => true
                                      case Struct(_) => InReach(entries[k])
                                      case _ => AllStable(entries[k])
      {
        assert Walk(v, Unset).entries[k] == Leaves(v, Unset).entries[k];
        if entries[k].Struct? {
          ExpandedIsReached(entries[k]);
        } else if !entries[k].Str? {
          FixedLeavesStable(entries[k]);
        }
      }
    case _ =>
  }

  /** The walk expands every string leaf exactly once, in every environment, exactly on
      the trees with no reference out of its reach: on any other tree it goes wrong already
      where no variable is set. */
  lemma WalkIsCompleteExactly(v: Value)
    ensures InReach(v) ==> forall env :: Walk(v, env) == Leaves(v, env)
    ensures !InReach(v) ==> Walk(v, Unset) != Leaves(v, Unset)
  {
    if InReach(v) {
      forall env ensures Walk(v, env) == Leaves(v, env) { ReachedIsExpanded(v, env); }
    } else if Walk(v, Unset) == Leaves(v, Unset) {
      ExpandedIsReached(v);
    }
  }

  // ---------- a Config as a tree ----------

  function Strings(ss: seq<string>): Value {
    Slice(seq(|ss|, i requires 0 <= i < |ss| => Str(ss[i])))
  }

  function Flag(b: bool): Value {
    Scalar(if b then 1 else 0)
  }

  function RuleTree(r: RBACRule): Value {
    Struct([Str(r.group), Strings(r.resources), Strings(r.permissions)])
  }

  function ResourceTree(r: ResourceConfig): (v: Value)
    ensures v.Struct?
  {
    Struct([Str(r.kind), Str(r.host), Str(r.uri), Str(r.dsn), Str(r.url), Str(r.password),
            Str(r.description), Flag(r.readOnly), Strings(r.allowedOps)])
  }

  function ServerTree(s: ServerConfig): Value {
    Struct([Str(s.listen), Str(s.domain), Str(s.tls)])
  }

  function AuthTree(a: AuthConfig): Value {
    Struct([Str(a.provider),
            OktaTree(a.okta),
            Slice(seq(|a.rbac|, i requires 0 <= i < |a.rbac| => RuleTree(a.rbac[i])))])
  }

  function OktaTree(o: OktaConfig): Value {
    Struct([Str(o.issuer), Str(o.clientId), Strings(o.scopes)])
  }

  function WireGuardTree(w: WireGuardConfig): Value {
    Struct([Str(w.privateKey), Str(w.address), Str(w.dns), PeerTree(w.peer)])
  }

  function PeerTree(p: WireGuardPeer): Value {
    Struct([Str(p.publicKey), Str(p.endpoint), Str(p.allowedIPs), Scalar(p.keepalive)])
  }

  function ResourcesTree(rs: Option<map<string, ResourceConfig>>): Value {
    match rs
    case None => NilMap
    case Some(m) => Map(map k | k in m :: ResourceTree(m[k]))
  }

  function ClientsTree(c: ClientsConfig): Value {
    Struct([VersionTree(c.version), ClientWGTree(c.wireGuard)])
  }

  function VersionTree(v: VersionConfig): Value {
    Struct([Str(v.latest), Str(v.minimum), Str(v.downloadUrl)])
  }

  function ClientWGTree(w: ClientWGConfig): Value {
    Struct([Str(w.pool), Flag(w.autoProvision)])
  }

  function LoggingTree(l: LoggingConfig): Value {
    Struct([Str(l.level), Str(l.file), Str(l.format)])
  }

  function MeteringTree(m: MeteringConfig): Value {
    Struct([Flag(m.enabled), Str(m.storage), Str(m.dbPath)])
  }

  function ConfigTree(server: ServerConfig, auth: AuthConfig, wireGuard: WireGuardConfig,
                      resources: Option<map<string, ResourceConfig>>, clients: ClientsConfig,
                      logging: LoggingConfig, metering: MeteringConfig): Value
  {
    Struct([ServerTree(server), AuthTree(auth), WireGuardTree(wireGuard), ResourcesTree(resources),
            ClientsTree(clients), LoggingTree(logging), MeteringTree(metering)])
  }

  // ---------- and field by field ----------

  /** Every element expanded, none added or dropped. */
  predicate EachExpanded(r: seq<string>, ss: seq<string>, env: Env) {
    |r| == |ss| && forall i :: 0 <= i < |ss| ==> r[i] == ExpandString(ss[i], env)
  }

  predicate RuleExpanded(r: RBACRule, o: RBACRule, env: Env) {
    && r.group == ExpandString(o.group, env)
    && EachExpanded(r.resources, o.resources, env) && EachExpanded(r.permissions, o.permissions, env)
  }

  predicate AuthExpanded(r: AuthConfig, o: AuthConfig, env: Env) {
    && r.provider == ExpandString(o.provider, env)
    && r.okta.issuer == ExpandString(o.okta.issuer, env) && r.okta.clientId == ExpandString(o.okta.clientId, env)
    && EachExpanded(r.okta.scopes, o.okta.scopes, env)
    && |r.rbac| == |o.rbac| && forall i :: 0 <= i < |o.rbac| ==> RuleExpanded(r.rbac[i], o.rbac[i], env)
  }

  predicate WireGuardExpanded(r: WireGuardConfig, o: WireGuardConfig, env: Env) {
    && r.privateKey == ExpandString(o.privateKey, env)
    && r.address == ExpandString(o.address, env) && r.dns == ExpandString(o.dns, env)
    && r.peer == WireGuardPeer(ExpandString(o.peer.publicKey, env), ExpandString(o.peer.endpoint, env),
                               ExpandString(o.peer.allowedIPs, env), o.peer.keepalive)
  }

  predicate ResourceExpanded(r: ResourceConfig, o: ResourceConfig, env: Env) {
    && r == ResourceConfig(ExpandString(o.kind, env), ExpandString(o.host, env), ExpandString(o.uri, env),
                           ExpandString(o.dsn, env), ExpandString(o.url, env), ExpandString(o.password, env),
                           ExpandString(o.description, env), o.readOnly, r.allowedOps)
    && EachExpanded(r.allowedOps, o.allowedOps, env)
  }

  predicate ResourcesExpanded(r: Option<map<string, ResourceConfig>>, o: Option<map<string, ResourceConfig>>, env: Env)
  {
    && (r.None? <==> o.None?)
    && (o.Some? ==> r.value.Keys == o.value.Keys &&
                    forall k :: k in o.value ==> ResourceExpanded(r.value[k], o.value[k], env))
  }

  predicate ClientsExpanded(r: ClientsConfig, o: ClientsConfig, env: Env) {
    && r.version == VersionConfig(ExpandString(o.version.latest, env), ExpandString(o.version.minimum, env),
                                  ExpandString(o.version.downloadUrl, env))
    && r.wireGuard == ClientWGConfig(ExpandString(o.wireGuard.pool, env), o.wireGuard.autoProvision)
  }

  class GatewayConfig {
    var server: ServerConfig
    var auth: AuthConfig
    var wireGuard: WireGuardConfig
    var resources: Option<map<string, ResourceConfig>>
    var clients: ClientsConfig
    var logging: LoggingConfig
    var metering: MeteringConfig

    constructor (server: ServerConfig, auth: AuthConfig, wireGuard: WireGuardConfig,
                 resources: Option<map<string, ResourceConfig>>, clients: ClientsConfig,
                 logging: LoggingConfig, metering: MeteringConfig)
      ensures this.server == server && this.auth == auth && this.wireGuard == wireGuard && this.resources == resources
      ensures this.clients == clients && this.logging == logging && this.metering == metering
    {
      this.server, this.auth, this.wireGuard, this.resources := server, auth, wireGuard, resources;
      this.clients, this.logging, this.metering := clients, logging, metering;
    }

    function Tree(): Value
      reads this
    {
      ConfigTree(server, auth, wireGuard, resources, clients, logging, metering)
    }

    /** Expands the configuration in place: every string leaf exactly once, and nothing
        else, whatever the strings, the slices and the map hold. */
    method ExpandEnvVars(env: Env)
      modifies this
      ensures Tree() == Walk(old(Tree()), env) == Leaves(old(Tree()), env)
      ensures server == ServerConfig(ExpandString(old(server.listen), env), ExpandString(old(server.domain), env),
                                     ExpandString(old(server.tls), env))
      ensures AuthExpanded(auth, old(auth), env) && WireGuardExpanded(wireGuard, old(wireGuard), env)
      ensures ResourcesExpanded(resources, old(resources), env) && ClientsExpanded(clients, old(clients), env)
      ensures logging == LoggingConfig(ExpandString(old(logging.level), env), ExpandString(old(logging.file), env),
                                       ExpandString(old(logging.format), env))
      ensures metering == MeteringConfig(old(metering.enabled), ExpandString(old(metering.storage), env),
                                         ExpandString(old(metering.dbPath), env))
    {
      hide ExpandString, AuthExpanded, WireGuardExpanded, ResourcesExpanded, ClientsExpanded;
      hide ServerTree, AuthTree, WireGuardTree, ResourcesTree, ClientsTree, LoggingTree, MeteringTree;
      ghost var before := Tree();
      server := ExpandServer(server, env);
      ExpandAuth(env);
      wireGuard := ExpandWireGuard(wireGuard, env);
      ExpandResources(env);
      clients := ExpandClients(clients, env);
      logging := ExpandLogging(logging, env);
      metering := ExpandMetering(metering, env);
      WalkStruct(before.fields, Tree().fields, env);
      ConfigInReach(old(server), old(auth), old(wireGuard), old(resources), old(clients), old(logging), old(metering));
      ReachedIsExpanded(before, env);
    }

    method ExpandAuth(env: Env)
      modifies this`auth
      ensures AuthTree(auth) == Walk(old(AuthTree(auth)), env)
      ensures AuthExpanded(auth, old(auth), env)
    {
      hide ExpandString, EachExpanded, Strings;
      ghost var before := AuthTree(auth);
      var okta := ExpandOkta(auth.okta, env);
      auth := auth.(provider := ExpandString(auth.provider, env), okta := okta);
      var i := 0;
      while i < |auth.rbac|
        invariant 0 <= i <= |auth.rbac| == |old(auth.rbac)|
        invariant auth == old(auth).(provider := auth.provider, okta := auth.okta, rbac := auth.rbac)
        invariant auth.provider == ExpandString(old(auth.provider), env)
        invariant auth.okta == okta
        invariant forall k :: 0 <= k < i ==> RuleTree(auth.rbac[k]) == Walk(RuleTree(old(auth.rbac[k])), env)
        invariant forall k :: 0 <= k < i ==> RuleExpanded(auth.rbac[k], old(auth.rbac[k]), env)
        invariant forall k :: i <= k < |auth.rbac| ==> auth.rbac[k] == old(auth.rbac[k])
      {
        var rule := auth.rbac[i];
        var expanded := ExpandRule(rule, env);
        auth := auth.(rbac := auth.rbac[i := expanded]);
        i := i + 1;
      }
      assert AuthTree(auth).fields[2] == Walk(before.fields[2], env);
      WalkStruct(before.fields, AuthTree(auth).fields, env);
    }

    /** Map values are copied, expanded and put back under the same key. */
    method ExpandResources(env: Env)
      modifies this`resources
      ensures ResourcesTree(resources) == Walk(old(ResourcesTree(resources)), env)
      ensures ResourcesExpanded(resources, old(resources), env)
    {
      hide ResourceTree, Walk, ResourceExpanded;
      if resources == None {
        NilMapStays(env);
        return;
      }
      var before := resources.value;
      var todo := before.Keys;
      while todo != {}
        invariant todo <= before.Keys
        invariant resources.Some? && resources.value.Keys == before.Keys
        invariant forall k :: k in todo ==> resources.value[k] == before[k]
        invariant forall k :: k in before && k !in todo ==>
                    ResourceTree(resources.value[k]) == Walk(ResourceTree(before[k]), env)
        invariant forall k :: k in before && k !in todo ==> ResourceExpanded(resources.value[k], before[k], env)
        decreases todo
      {
        var key :| key in todo;
        todo := todo - {key};
        var expanded := ExpandResource(resources.value[key], env);
        resources := Some(resources.value[key := expanded]);
      }
      WalkResources(before, resources.value, env);
    }
  }

  lemma NilMapStays(env: Env)
    ensures Walk(ResourcesTree(None), env) == ResourcesTree(None)
  {
  }

  lemma WalkResources(m: map<string, ResourceConfig>, m': map<string, ResourceConfig>, env: Env)
    requires m'.Keys == m.Keys && forall k :: k in m ==> ResourceTree(m'[k]) == Walk(ResourceTree(m[k]), env)
    ensures Walk(ResourcesTree(Some(m)), env) == ResourcesTree(Some(m'))
  {
    hide ResourceTree, ExpandString;
    var walked, wanted := Walk(ResourcesTree(Some(m)), env).entries, ResourcesTree(Some(m')).entries;
    assert walked.Keys == wanted.Keys;
    assert forall k :: k in walked ==> walked[k] == wanted[k];
  }

  method ExpandStrings(ss: seq<string>, env: Env) returns (r: seq<string>)
    ensures Strings(r) == Walk(Strings(ss), env) && EachExpanded(r, ss, env)
  {
    hide ExpandString;
    r := ss;
    var i := 0;
    while i < |r|
      invariant 0 <= i <= |r| == |ss|
      invariant forall k :: 0 <= k < i ==> r[k] == ExpandString(ss[k], env)
      invariant forall k :: i <= k < |r| ==> r[k] == ss[k]
    {
      r := r[i := ExpandString(r[i], env)];
      i := i + 1;
    }
  }

  lemma WalkStruct(fields: seq<Value>, walked: seq<Value>, env: Env)
    requires |fields| == |walked| && forall i :: 0 <= i < |fields| ==> walked[i] == Walk(fields[i], env)
    ensures Walk(Struct(fields), env) == Struct(walked)
  {
  }

  lemma WalkStr(s: string, env: Env)
    ensures Walk(Str(s), env) == Str(ExpandString(s, env))
  {
    hide ExpandString;
  }

  lemma WalkScalar(n: int, env: Env)
    ensures Walk(Scalar(n), env) == Scalar(n)
  {
  }

  method ExpandRule(rule: RBACRule, env: Env) returns (r: RBACRule)
    ensures RuleTree(r) == Walk(RuleTree(rule), env) && RuleExpanded(r, rule, env)
  {
    hide Walk, ExpandString, Strings, EachExpanded;
    WalkStr(rule.group, env);
    var resources := ExpandStrings(rule.resources, env);
    var permissions := ExpandStrings(rule.permissions, env);
    r := RBACRule(ExpandString(rule.group, env), resources, permissions);
    WalkStruct(RuleTree(rule).fields, RuleTree(r).fields, env);
  }

  method ExpandServer(s: ServerConfig, env: Env) returns (r: ServerConfig)
    ensures ServerTree(r) == Walk(ServerTree(s), env)
    ensures r == ServerConfig(ExpandString(s.listen, env), ExpandString(s.domain, env), ExpandString(s.tls, env))
  {
    hide Walk, ExpandString;
    WalkStr(s.listen, env);
    WalkStr(s.domain, env);
    WalkStr(s.tls, env);
    r := s.(listen := ExpandString(s.listen, env), domain := ExpandString(s.domain, env),
            tls := ExpandString(s.tls, env));
    WalkStruct(ServerTree(s).fields, ServerTree(r).fields, env);
  }

  method ExpandOkta(o: OktaConfig, env: Env) returns (r: OktaConfig)
    ensures OktaTree(r) == Walk(OktaTree(o), env)
    ensures r == OktaConfig(ExpandString(o.issuer, env), ExpandString(o.clientId, env), r.scopes)
    ensures EachExpanded(r.scopes, o.scopes, env)
  {
    hide Walk, ExpandString, Strings, EachExpanded;
    WalkStr(o.issuer, env);
    WalkStr(o.clientId, env);
    var scopes := ExpandStrings(o.scopes, env);
    r := o.(issuer := ExpandString(o.issuer, env), clientId := ExpandString(o.clientId, env), scopes := scopes);
    WalkStruct(OktaTree(o).fields, OktaTree(r).fields, env);
  }

  method ExpandWireGuard(w: WireGuardConfig, env: Env) returns (r: WireGuardConfig)
    ensures WireGuardTree(r) == Walk(WireGuardTree(w), env) && WireGuardExpanded(r, w, env)
  {
    hide Walk, ExpandString;
    WalkStr(w.peer.publicKey, env);
    WalkStr(w.peer.endpoint, env);
    WalkStr(w.peer.allowedIPs, env);
    WalkStr(w.privateKey, env);
    WalkStr(w.address, env);
    WalkStr(w.dns, env);
    WalkScalar(w.peer.keepalive, env);
    var peer := w.peer.(publicKey := ExpandString(w.peer.publicKey, env),
                        endpoint := ExpandString(w.peer.endpoint, env),
                        allowedIPs := ExpandString(w.peer.allowedIPs, env));
    WalkStruct(PeerTree(w.peer).fields, PeerTree(peer).fields, env);
    r := w.(privateKey := ExpandString(w.privateKey, env), address := ExpandString(w.address, env),
            dns := ExpandString(w.dns, env), peer := peer);
    WalkStruct(WireGuardTree(w).fields, WireGuardTree(r).fields, env);
  }

  method ExpandClients(c: ClientsConfig, env: Env) returns (r: ClientsConfig)
    ensures ClientsTree(r) == Walk(ClientsTree(c), env) && ClientsExpanded(r, c, env)
  {
    hide Walk, ExpandString;
    WalkStr(c.version.latest, env);
    WalkStr(c.version.minimum, env);
    WalkStr(c.version.downloadUrl, env);
    WalkStr(c.wireGuard.pool, env);
    WalkScalar(if c.wireGuard.autoProvision then 1 else 0, env);
    var version := c.version.(latest := ExpandString(c.version.latest, env),
                              minimum := ExpandString(c.version.minimum, env),
                              downloadUrl := ExpandString(c.version.downloadUrl, env));
    WalkStruct(VersionTree(c.version).fields, VersionTree(version).fields, env);
    var wireGuard := c.wireGuard.(pool := ExpandString(c.wireGuard.pool, env));
    WalkStruct(ClientWGTree(c.wireGuard).fields, ClientWGTree(wireGuard).fields, env);
    r := ClientsConfig(version, wireGuard);
    WalkStruct(ClientsTree(c).fields, ClientsTree(r).fields, env);
  }

  method ExpandLogging(l: LoggingConfig, env: Env) returns (r: LoggingConfig)
    ensures LoggingTree(r) == Walk(LoggingTree(l), env)
    ensures r == LoggingConfig(ExpandString(l.level, env), ExpandString(l.file, env), ExpandString(l.format, env))
  {
    hide Walk, ExpandString;
    WalkStr(l.level, env);
    WalkStr(l.file, env);
    WalkStr(l.format, env);
    r := l.(level := ExpandString(l.level, env), file := ExpandString(l.file, env),
            format := ExpandString(l.format, env));
    WalkStruct(LoggingTree(l).fields, LoggingTree(r).fields, env);
  }

  method ExpandMetering(m: MeteringConfig, env: Env) returns (r: MeteringConfig)
    ensures MeteringTree(r) == Walk(MeteringTree(m), env)
    ensures r == MeteringConfig(m.enabled, ExpandString(m.storage, env), ExpandString(m.dbPath, env))
  {
    hide Walk, ExpandString;
    WalkStr(m.storage, env);
    WalkStr(m.dbPath, env);
    WalkScalar(if m.enabled then 1 else 0, env);
    r := m.(storage := ExpandString(m.storage, env), dbPath := ExpandString(m.dbPath, env));
    WalkStruct(MeteringTree(m).fields, MeteringTree(r).fields, env);
  }

  method ExpandResource(r: ResourceConfig, env: Env) returns (copy: ResourceConfig)
    ensures ResourceTree(copy) == Walk(ResourceTree(r), env) && ResourceExpanded(copy, r, env)
  {
    hide Walk, ExpandString, ResourceTree, EachExpanded;
    copy := r;
    copy := copy.(kind := ExpandString(copy.kind, env), host := ExpandString(copy.host, env),
                  uri := ExpandString(copy.uri, env), dsn := ExpandString(copy.dsn, env),
                  url := ExpandString(copy.url, env), password := ExpandString(copy.password, env),
                  description := ExpandString(copy.description, env));
    var ops := ExpandStrings(copy.allowedOps, env);
    copy := copy.(allowedOps := ops);
    WalkResource(r, copy, env);
  }

  lemma WalkResource(r: ResourceConfig, copy: ResourceConfig, env: Env)
    requires copy.kind == ExpandString(r.kind, env) && copy.host == ExpandString(r.host, env)
    requires copy.uri == ExpandString(r.uri, env) && copy.dsn == ExpandString(r.dsn, env)
    requires copy.url == ExpandString(r.url, env) && copy.password == ExpandString(r.password, env)
    requires copy.description == ExpandString(r.description, env) && copy.readOnly == r.readOnly
    requires Strings(copy.allowedOps) == Walk(Strings(r.allowedOps), env)
    ensures ResourceTree(copy) == Walk(ResourceTree(r), env)
  {
    hide Walk, ExpandString, Strings;
    WalkStr(r.kind, env);
    WalkStr(r.host, env);
    WalkStr(r.uri, env);
    WalkStr(r.dsn, env);
    WalkStr(r.url, env);
    WalkStr(r.password, env);
    WalkStr(r.description, env);
    WalkScalar(if r.readOnly then 1 else 0, env);
    WalkStruct(ResourceTree(r).fields, ResourceTree(copy).fields, env);
  }

  /** In a Config the only map holds structs, so nothing is out of reach. */
  lemma ConfigInReach(server: ServerConfig, auth: AuthConfig, wireGuard: WireGuardConfig,
                      resources: Option<map<string, ResourceConfig>>, clients: ClientsConfig,
                      logging: LoggingConfig, metering: MeteringConfig)
    ensures InReach(ConfigTree(server, auth, wireGuard, resources, clients, logging, metering))
  {
    NoMapsInReach(ServerTree(server));
    AuthInReach(auth);
    NoMapsInReach(WireGuardTree(wireGuard));
    ResourcesInReach(resources);
    NoMapsInReach(ClientsTree(clients));
    NoMapsInReach(LoggingTree(logging));
    NoMapsInReach(MeteringTree(metering));
  }

  lemma AuthInReach(a: AuthConfig)
    ensures InReach(AuthTree(a))
  {
    NoMapsInReach(OktaTree(a.okta));
    forall i | 0 <= i < |a.rbac| ensures InReach(RuleTree(a.rbac[i])) {
      NoMapsInReach(RuleTree(a.rbac[i]));
    }
    assert InReach(AuthTree(a).fields[2]);
  }

  lemma ResourcesInReach(resources: Option<map<string, ResourceConfig>>)
    ensures InReach(ResourcesTree(resources))
  {
    if resources.Some? {
      forall k | k in resources.value ensures InReach(ResourceTree(resources.value[k])) {
        NoMapsInReach(ResourceTree(resources.value[k]));
      }
    }
  }

  predicate NoMaps(v: Value) {
    match v
    case Struct(fields) => forall i :: 0 <= i < |fields| ==> NoMaps(fields[i])
    case Slice(items) => forall i :: 0 <= i < |items| ==> NoMaps(items[i])
    case Map(_) => false
    case _ => true
  }

  lemma {:induction false} NoMapsInReach(v: Value)
    requires NoMaps(v)
    ensures InReach(v)
  {
    match v
    case Struct(fields) => forall i | 0 <= i < |fields| ensures InReach(fields[i]) { NoMapsInReach(fields[i]); }
    case Slice(items) => forall i | 0 <= i < |items| ensures InReach(items[i]) { NoMapsInReach(items[i]); }
    case _ =>
  }
}
