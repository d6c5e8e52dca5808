/** The configuration records, field for field as the YAML file fills them. */
module Config {
  import opened Wrappers

  datatype ServerConfig = ServerConfig(listen: string, domain: string, tls: string)

  datatype OktaConfig = OktaConfig(issuer: string, clientId: string, scopes: seq<string>)

  datatype RBACRule = RBACRule(group: string, resources: seq<string>, permissions: seq<string>)

  datatype AuthConfig = AuthConfig(provider: string, okta: OktaConfig, rbac: seq<RBACRule>)

  datatype WireGuardPeer = WireGuardPeer(publicKey: string, endpoint: string, allowedIPs: string, keepalive: int)

  datatype WireGuardConfig = WireGuardConfig(privateKey: string, address: string, dns: string, peer: WireGuardPeer)

  datatype ResourceConfig = ResourceConfig(
    kind: string, host: string, uri: string, dsn: string, url: string, password: string,
    description: string, readOnly: bool, allowedOps: seq<string>)

  datatype VersionConfig = VersionConfig(latest: string, minimum: string, downloadUrl: string)

  datatype ClientWGConfig = ClientWGConfig(pool: string, autoProvision: bool)

  datatype ClientsConfig = ClientsConfig(version: VersionConfig, wireGuard: ClientWGConfig)

  datatype LoggingConfig = LoggingConfig(level: string, file: string, format: string)

  datatype MeteringConfig = MeteringConfig(enabled: bool, storage: string, dbPath: string)
}
