/** The configuration record, its legacy fields, and their migration on load.
    Loading and saving are modelled at record level: the TOML text is taken to carry
    exactly the serialized fields. */
module Config {
  import opened Prelude

  datatype TokenEntry = TokenEntry(token: string, scope: string)

  datatype NodeConfig = NodeConfig(nodeId: string, name: string, token: string, tags: seq<string>)

  datatype ApiTokens = ApiTokens(telemetry: Option<TokenEntry>, command: Option<TokenEntry>)

  datatype ApiConfig = ApiConfig(
    baseUrl: string,
    databaseUrl: Option<string>,
    tokens: ApiTokens,
    pushIntervalSecs: Option<nat>)

  datatype AgentConfig = AgentConfig(pushSec: nat, pollSec: nat)

  datatype ServiceConfig = ServiceConfig(listenAddr: string, port: nat)

  datatype ComposeConfig = ComposeConfig(
    dir: string,
    extraExtensions: seq<string>,
    cmdToken: Option<string>,
    signingPublicKey: Option<string>,
    requireSignatures: bool)

  datatype Record = Record(
    node: NodeConfig,
    api: ApiConfig,
    agent: AgentConfig,
    service: ServiceConfig,
    compose: ComposeConfig)

  const DEFAULT_PUSH_SEC: nat := 6
  const DEFAULT_POLL_SEC: nat := 2
  const DEFAULT_SERVICE := ServiceConfig("127.0.0.1", 8443)
  const DEFAULT_COMPOSE_DIR := "/opt/dgx-llm"
  const DEFAULT_EXTENSIONS := [".env", ".conf", ".toml"]

  // ----- accessors -----

  function NodeToken(r: Record): string {
    match r.api.tokens.telemetry
    case Some(t) => t.token
    case None => r.node.token
  }

  function CmdToken(r: Record): Option<string> {
    match r.api.tokens.command
    case Some(t) => Some(t.token)
    case None => r.compose.cmdToken
  }

  // ----- migration -----

  function MigratedAgent(r: Record): AgentConfig {
    if r.api.pushIntervalSecs.Some? && r.agent.pushSec == DEFAULT_PUSH_SEC
    then r.agent.(pushSec := r.api.pushIntervalSecs.value)
    else r.agent
  }

  function MigratedTokens(r: Record): ApiTokens {
    ApiTokens(
      if r.api.tokens.telemetry.None? && r.node.token != ""
      then Some(TokenEntry(r.node.token, "read")) else r.api.tokens.telemetry,
      if r.api.tokens.command.None? && r.compose.cmdToken.Some?
      then Some(TokenEntry(r.compose.cmdToken.value, "read_write")) else r.api.tokens.command)
  }

  function Migrated(r: Record): Record {
    r.(agent := MigratedAgent(r), api := r.api.(tokens := MigratedTokens(r), pushIntervalSecs := None))
  }

  /** What serialization keeps: the legacy interval is skipped. */
  function Serialized(r: Record): Record {
    r.(api := r.api.(pushIntervalSecs := None))
  }

  class Config {
    var node: NodeConfig
    var api: ApiConfig
    var agent: AgentConfig
    var service: ServiceConfig
    var compose: ComposeConfig

    ghost function Value(): Record
      reads this
    {
      Record(node, api, agent, service, compose)
    }

    constructor (r: Record)
      ensures Value() == r
    {
      node, api, agent, service, compose := r.node, r.api, r.agent, r.service, r.compose;
    }

    method MigrateLegacyFields()
      modifies this
      ensures Value() == Migrated(old(Value()))
    {
      var taken := api.pushIntervalSecs;
      api := api.(pushIntervalSecs := None);
      if taken.Some? && agent.pushSec == DEFAULT_PUSH_SEC {
        agent := agent.(pushSec := taken.value);
      }
      if api.tokens.telemetry.None? && node.token != "" {
        api := api.(tokens := api.tokens.(telemetry := Some(TokenEntry(node.token, "read"))));
      }
      if api.tokens.command.None? && compose.cmdToken.Some? {
        api := api.(tokens := api.tokens.(command := Some(TokenEntry(compose.cmdToken.value, "read_write"))));
      }
    }

    method ToRecord() returns (r: Record)
      ensures r == Value()
    {
      r := Record(node, api, agent, service, compose);
    }
  }

  // ----- laws of migration -----

  /** What migration leaves: no legacy interval, and no credential that is only in
      its legacy place. */
  predicate Settled(r: Record) {
    && r.api.pushIntervalSecs == None
    && (r.api.tokens.telemetry == None ==> r.node.token == "")
    && (r.api.tokens.command == None ==> r.compose.cmdToken == None)
  }

  /** Migration changes exactly the unsettled records, and what it yields is settled;
      so it is idempotent, and saving then loading a migrated record is the identity. */
  lemma MigrationSettles(r: Record)
    ensures Migrated(r) == r <==> Settled(r)
    ensures Settled(Migrated(r))
    ensures Migrated(Serialized(Migrated(r))) == Migrated(r)
  {}

  /** Both accessors answer the same before and after, and nothing outside the moved
      fields changes. */
  lemma MigrationPreserves(r: Record)
    ensures var m := Migrated(r);
            && NodeToken(m) == NodeToken(r) && CmdToken(m) == CmdToken(r)
            && m.node == r.node && m.service == r.service && m.compose == r.compose
            && m.agent.pollSec == r.agent.pollSec
            && m.api.baseUrl == r.api.baseUrl && m.api.databaseUrl == r.api.databaseUrl
  {}

  /** What migration fills in: a credential without an entry gets one, with its scope; an
      entry that is there stays as it is; a legacy interval replaces the default. */
  lemma MigrationFills(r: Record)
    ensures var tokens, m := r.api.tokens, Migrated(r);
            && m.api.tokens.telemetry ==
               (if tokens.telemetry.Some? then tokens.telemetry
                else if r.node.token != "" then Some(TokenEntry(r.node.token, "read")) else None)
            && (tokens.command.Some? ==> m.api.tokens.command == tokens.command)
            && (tokens.command.None? && r.compose.cmdToken.Some? ==>
                  m.api.tokens.command == Some(TokenEntry(r.compose.cmdToken.value, "read_write")))
            && (tokens.command.None? && r.compose.cmdToken.None? ==> m.api.tokens.command.None?)
            && (r.api.pushIntervalSecs.Some? && r.agent.pushSec == 6 ==>
                  m.agent.pushSec == r.api.pushIntervalSecs.value)
            && (r.api.pushIntervalSecs.None? || r.agent.pushSec != 6 ==> m.agent.pushSec == r.agent.pushSec)
  {}

  /** The entry decides, and the legacy place where there is none. */
  lemma AccessorsPreferEntries(r: Record)
    ensures forall t | r.api.tokens.telemetry == Some(t) :: NodeToken(r) == t.token
    ensures r.api.tokens.telemetry == None ==> NodeToken(r) == r.node.token
    ensures forall t | r.api.tokens.command == Some(t) :: CmdToken(r) == Some(t.token)
    ensures r.api.tokens.command == None ==> CmdToken(r) == r.compose.cmdToken
  {}
}
