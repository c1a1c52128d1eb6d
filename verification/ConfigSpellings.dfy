/** The configuration commands by what the user types: which field each spelling sets and
    shows, what a registration leaves behind, and which arguments are refused. */
module ConfigSpellings {
  import opened Prelude
  import opened Text
  import opened Token
  import opened Config
  import opened ConfigCommands

  /** The file after a `set` that can be written. */
  function AfterSet(disk: Disk, key: string, value: string): Disk {
    Apply(disk, Set(key, value, true))
  }

  // ----- the key behind each spelling -----

  lemma BaseUrlSpelling(key: string)
    requires key in ["api.base_url", "api_url"]
    ensures KeyOf(key) == Some(BaseUrl)
  {}

  lemma PushSecSpelling(key: string)
    requires key in ["agent.push_sec", "api.push_interval_secs", "push_interval", "interval"]
    ensures KeyOf(key) == Some(PushSec)
  {}

  lemma PollSecSpelling(key: string)
    requires key in ["agent.poll_sec", "poll_sec"]
    ensures KeyOf(key) == Some(PollSec)
  {}

  lemma TelemetrySpelling(key: string)
    requires key in ["api.tokens.telemetry", "telemetry_token"]
    ensures KeyOf(key) == Some(Telemetry)
  {}

  lemma CommandSpelling(key: string)
    requires key in ["api.tokens.command", "command_token"]
    ensures KeyOf(key) == Some(Command)
  {}

  lemma ListenAddrSpelling(key: string)
    requires key in ["service.listen_addr", "listen_addr"]
    ensures KeyOf(key) == Some(ListenAddr)
  {}

  lemma PortSpelling(key: string)
    requires key in ["service.port", "port"]
    ensures KeyOf(key) == Some(Port)
  {}

  lemma NameSpelling(key: string)
    requires key in ["node.name", "name"]
    ensures KeyOf(key) == Some(Name)
  {}

  lemma TagsSpelling(key: string)
    requires key in ["node.tags", "tags"]
    ensures KeyOf(key) == Some(Tags)
  {}

  lemma DirSpelling(key: string)
    requires key in ["compose.dir", "compose_dir"]
    ensures KeyOf(key) == Some(Dir)
  {}

  lemma CmdTokenSpelling(key: string)
    requires key in ["compose.cmd_token", "cmd_token"]
    ensures KeyOf(key) == Some(CmdTokenKey)
  {}

  lemma RequireSignaturesSpelling(key: string)
    requires key in ["compose.require_signatures", "require_signatures"]
    ensures KeyOf(key) == Some(RequireSignatures)
  {}

  lemma SigningSpelling(key: string)
    requires key in ["compose.signing_public_key", "signing_public_key"]
    ensures KeyOf(key) == Some(SigningKey)
  {}

  lemma NodeIdSpelling(key: string)
    requires key in ["node.node_id", "node_id"]
    ensures KeyOf(key) == Some(NodeId)
  {}

  lemma NodeTokenSpelling(key: string)
    requires key in ["node.token", "token"]
    ensures KeyOf(key) == Some(NodeTokenKey)
  {}

  lemma SetByKey(r: Record, key: string, k: Key, value: string)
    requires KeyOf(key) == Some(k)
    ensures AfterSet(Some(r), key, value) ==
              var after := SetField(Migrated(r), k, value); if after.Some? then after else Some(r)
  {}

  // ----- set -----

  lemma SetBaseUrl(r: Record, key: string, value: string)
    requires key in ["api.base_url", "api_url"]
    ensures var m := Migrated(r);
            AfterSet(Some(r), key, value) == Some(m.(api := m.api.(baseUrl := value)))
  {
    BaseUrlSpelling(key);
    SetByKey(r, key, BaseUrl, value);
  }

  /** A number that is refused leaves the file as it was; zero seconds are refused. */
  lemma SetPushSec(r: Record, key: string, value: string)
    requires key in ["agent.push_sec", "api.push_interval_secs", "push_interval", "interval"]
    ensures var m := Migrated(r);
            var secs := ParseUnsigned(value, 18446744073709551616);
            AfterSet(Some(r), key, value) ==
              if secs.Some? && secs.value > 0 then Some(m.(agent := m.agent.(pushSec := secs.value))) else Some(r)
  {
    PushSecSpelling(key);
    SetByKey(r, key, PushSec, value);
  }

  lemma SetPollSec(r: Record, key: string, value: string)
    requires key in ["agent.poll_sec", "poll_sec"]
    ensures var m := Migrated(r);
            var secs := ParseUnsigned(value, 18446744073709551616);
            AfterSet(Some(r), key, value) ==
              if secs.Some? && secs.value > 0 then Some(m.(agent := m.agent.(pollSec := secs.value))) else Some(r)
  {
    PollSecSpelling(key);
    SetByKey(r, key, PollSec, value);
  }

  /** An empty credential clears; a telemetry token is also the node's. */
  lemma SetTelemetry(r: Record, key: string, value: string)
    requires key in ["api.tokens.telemetry", "telemetry_token"]
    ensures var m := Migrated(r);
            AfterSet(Some(r), key, value) ==
              if value == "" then Some(m.(api := m.api.(tokens := m.api.tokens.(telemetry := None))))
              else Some(m.(node := m.node.(token := value), api := m.api.(tokens :=
                m.api.tokens.(telemetry := Some(TokenEntry(value, "read"))))))
  {
    TelemetrySpelling(key);
    SetByKey(r, key, Telemetry, value);
  }

  /** A command token is also the legacy one. */
  lemma SetCommand(r: Record, key: string, value: string)
    requires key in ["api.tokens.command", "command_token"]
    ensures var m := Migrated(r);
            AfterSet(Some(r), key, value) ==
              if value == "" then Some(m.(compose := m.compose.(cmdToken := None), api := m.api.(tokens :=
                m.api.tokens.(command := None))))
              else Some(m.(compose := m.compose.(cmdToken := Some(value)), api := m.api.(tokens :=
                m.api.tokens.(command := Some(TokenEntry(value, "read_write"))))))
  {
    CommandSpelling(key);
    SetByKey(r, key, Command, value);
  }

  lemma SetListenAddr(r: Record, key: string, value: string)
    requires key in ["service.listen_addr", "listen_addr"]
    ensures var m := Migrated(r);
            AfterSet(Some(r), key, value) == Some(m.(service := m.service.(listenAddr := value)))
  {
    ListenAddrSpelling(key);
    SetByKey(r, key, ListenAddr, value);
  }

  lemma SetPort(r: Record, key: string, value: string)
    requires key in ["service.port", "port"]
    ensures var m := Migrated(r);
            var port := ParseUnsigned(value, 65536);
            AfterSet(Some(r), key, value) ==
              if port.Some? then Some(m.(service := m.service.(port := port.value))) else Some(r)
  {
    PortSpelling(key);
    SetByKey(r, key, Port, value);
  }

  lemma SetName(r: Record, key: string, value: string)
    requires key in ["node.name", "name"]
    ensures var m := Migrated(r);
            AfterSet(Some(r), key, value) == Some(m.(node := m.node.(name := value)))
  {
    NameSpelling(key);
    SetByKey(r, key, Name, value);
  }

  lemma SetTagsField(m: Record, value: string)
    ensures SetField(m, Tags, value) == Some(m.(node := m.node.(tags := SplitTags(value))))
  {}

  lemma SetTags(r: Record, key: string, value: string)
    requires key in ["node.tags", "tags"]
    ensures var m := Migrated(r);
            AfterSet(Some(r), key, value) == Some(m.(node := m.node.(tags := SplitTags(value))))
  {
    TagsSpelling(key);
    SetByKey(r, key, Tags, value);
    SetTagsField(Migrated(r), value);
  }

  lemma SetDir(r: Record, key: string, value: string)
    requires key in ["compose.dir", "compose_dir"]
    ensures var m := Migrated(r);
            AfterSet(Some(r), key, value) == Some(m.(compose := m.compose.(dir := value)))
  {
    DirSpelling(key);
    SetByKey(r, key, Dir, value);
  }

  lemma SetCmdToken(r: Record, key: string, value: string)
    requires key in ["compose.cmd_token", "cmd_token"]
    ensures var m := Migrated(r);
            AfterSet(Some(r), key, value) ==
              if value == "" then Some(m.(compose := m.compose.(cmdToken := None)))
              else if "nxs_cmd_" < value && Sliceable(value, 20)
              then Some(m.(compose := m.compose.(cmdToken := Some(value)))) else Some(r)
  {
    CmdTokenSpelling(key);
    SetByKey(r, key, CmdTokenKey, value);
  }

  lemma SetRequireSignatures(r: Record, key: string, value: string)
    requires key in ["compose.require_signatures", "require_signatures"]
    ensures var m := Migrated(r);
            AfterSet(Some(r), key, value) ==
              if value == "true" then Some(m.(compose := m.compose.(requireSignatures := true)))
              else if value == "false" then Some(m.(compose := m.compose.(requireSignatures := false)))
              else Some(r)
  {
    RequireSignaturesSpelling(key);
    SetByKey(r, key, RequireSignatures, value);
  }

  lemma SetSigningPublicKey(r: Record, key: string, value: string)
    requires key in ["compose.signing_public_key", "signing_public_key"]
    ensures var m := Migrated(r);
            AfterSet(Some(r), key, value) ==
              if value == "" then Some(m.(compose := m.compose.(signingPublicKey := None)))
              else if Sliceable(value, 20)
              then Some(m.(compose := m.compose.(signingPublicKey := Some(value)))) else Some(r)
  {
    SigningSpelling(key);
    SetByKey(r, key, SigningKey, value);
  }

  const SETTABLE := [
    "api.base_url", "api_url", "agent.push_sec", "api.push_interval_secs", "push_interval", "interval",
    "agent.poll_sec", "poll_sec", "api.tokens.telemetry", "telemetry_token", "api.tokens.command", "command_token",
    "service.listen_addr", "listen_addr", "service.port", "port", "node.name", "name", "node.tags", "tags",
    "compose.dir", "compose_dir", "compose.cmd_token", "cmd_token", "compose.require_signatures",
    "require_signatures", "compose.signing_public_key", "signing_public_key"]

  /** Every other spelling is refused, also the two that can be read. */
  lemma SetRefused(disk: Disk, key: string, value: string, saved: bool)
    requires disk == None || key !in SETTABLE || !saved
    ensures Apply(disk, Set(key, value, saved)) == disk
  {}

  // ----- get -----

  lemma GetByKey(r: Record, key: string, k: Key)
    requires KeyOf(key) == Some(k)
    ensures Get(Some(r), key) == Some(GetField(Migrated(r), k))
  {}

  lemma GetBaseUrl(r: Record, key: string)
    requires key in ["api.base_url", "api_url"]
    ensures var m := Migrated(r);
            Get(Some(r), key) == Some(m.api.baseUrl)
  {
    BaseUrlSpelling(key);
    GetByKey(r, key, BaseUrl);
  }

  lemma GetPushSec(r: Record, key: string)
    requires key in ["agent.push_sec", "api.push_interval_secs", "push_interval", "interval"]
    ensures var m := Migrated(r);
            Get(Some(r), key) == Some(Print(m.agent.pushSec))
  {
    PushSecSpelling(key);
    GetByKey(r, key, PushSec);
  }

  lemma GetPollSec(r: Record, key: string)
    requires key in ["agent.poll_sec", "poll_sec"]
    ensures var m := Migrated(r);
            Get(Some(r), key) == Some(Print(m.agent.pollSec))
  {
    PollSecSpelling(key);
    GetByKey(r, key, PollSec);
  }

  lemma GetTelemetry(r: Record, key: string)
    requires key in ["api.tokens.telemetry", "telemetry_token"]
    ensures var m := Migrated(r);
            Get(Some(r), key) ==
              Some(if m.api.tokens.telemetry.Some? then m.api.tokens.telemetry.value.token else "(not configured)")
  {
    TelemetrySpelling(key);
    GetByKey(r, key, Telemetry);
  }

  lemma GetCommand(r: Record, key: string)
    requires key in ["api.tokens.command", "command_token"]
    ensures var m := Migrated(r);
            Get(Some(r), key) ==
              Some(if m.api.tokens.command.Some? then m.api.tokens.command.value.token else "(not configured)")
  {
    CommandSpelling(key);
    GetByKey(r, key, Command);
  }

  lemma GetListenAddr(r: Record, key: string)
    requires key in ["service.listen_addr", "listen_addr"]
    ensures var m := Migrated(r);
            Get(Some(r), key) == Some(m.service.listenAddr)
  {
    ListenAddrSpelling(key);
    GetByKey(r, key, ListenAddr);
  }

  lemma GetPort(r: Record, key: string)
    requires key in ["service.port", "port"]
    ensures var m := Migrated(r);
            Get(Some(r), key) == Some(Print(m.service.port))
  {
    PortSpelling(key);
    GetByKey(r, key, Port);
  }

  lemma GetName(r: Record, key: string)
    requires key in ["node.name", "name"]
    ensures var m := Migrated(r);
            Get(Some(r), key) == Some(m.node.name)
  {
    NameSpelling(key);
    GetByKey(r, key, Name);
  }

  lemma GetTags(r: Record, key: string)
    requires key in ["node.tags", "tags"]
    ensures var m := Migrated(r);
            Get(Some(r), key) == Some(Join(m.node.tags, ','))
  {
    TagsSpelling(key);
    GetByKey(r, key, Tags);
  }

  lemma GetDir(r: Record, key: string)
    requires key in ["compose.dir", "compose_dir"]
    ensures var m := Migrated(r);
            Get(Some(r), key) == Some(m.compose.dir)
  {
    DirSpelling(key);
    GetByKey(r, key, Dir);
  }

  lemma GetCmdToken(r: Record, key: string)
    requires key in ["compose.cmd_token", "cmd_token"]
    ensures var m := Migrated(r);
            Get(Some(r), key) == Some(if m.compose.cmdToken.Some? then m.compose.cmdToken.value else "(not configured)")
  {
    CmdTokenSpelling(key);
    GetByKey(r, key, CmdTokenKey);
  }

  lemma GetRequireSignatures(r: Record, key: string)
    requires key in ["compose.require_signatures", "require_signatures"]
    ensures var m := Migrated(r);
            Get(Some(r), key) == Some(if m.compose.requireSignatures then "true" else "false")
  {
    RequireSignaturesSpelling(key);
    GetByKey(r, key, RequireSignatures);
  }

  lemma GetSigningPublicKey(r: Record, key: string)
    requires key in ["compose.signing_public_key", "signing_public_key"]
    ensures var m := Migrated(r);
            Get(Some(r), key) ==
              Some(if m.compose.signingPublicKey.Some? then m.compose.signingPublicKey.value else "(not configured)")
  {
    SigningSpelling(key);
    GetByKey(r, key, SigningKey);
  }

  lemma GetNodeId(r: Record, key: string)
    requires key in ["node.node_id", "node_id"]
    ensures var m := Migrated(r);
            Get(Some(r), key) == Some(m.node.nodeId)
  {
    NodeIdSpelling(key);
    GetByKey(r, key, NodeId);
  }

  lemma GetNodeToken(r: Record, key: string)
    requires key in ["node.token", "token"]
    ensures var m := Migrated(r);
            Get(Some(r), key) == Some(m.node.token)
  {
    NodeTokenSpelling(key);
    GetByKey(r, key, NodeTokenKey);
  }

  /** `get` knows what `set` knows, the node id and the node's own token. */
  lemma GetRefused(disk: Disk, key: string)
    ensures Get(disk, key) == None <==>
            disk == None || key !in SETTABLE + ["node.node_id", "node_id", "node.token", "token"]
  {}

  // ----- register, refresh, refresh-cmd -----

  predicate GoodArguments(token: string, cmdToken: Option<string>) {
    "nxs_node_" < token && (cmdToken.Some? ==> "nxs_cmd_" < cmdToken.value)
  }

  /** The whole file after a registration; the response's command token goes first. */
  lemma RegisterStores(disk: Disk, apiUrl: string, token: string, cmdToken: Option<string>, name: string,
      tags: seq<string>, resp: RegisterResponse)
    requires GoodArguments(token, cmdToken)
    ensures var after := Apply(disk, Register(apiUrl, token, cmdToken, name, tags, Some(resp), true));
            && after.Some?
            && Holds(after.value, apiUrl, name, tags, resp,
                     if resp.cmdToken.Some? then resp.cmdToken else cmdToken)
  {}

  predicate Holds(r: Record, apiUrl: string, name: string, tags: seq<string>, resp: RegisterResponse,
      command: Option<string>)
  {
    && r.node.nodeId == resp.nodeId && r.node.name == name && r.node.token == resp.token && r.node.tags == tags
    && r.api.baseUrl == apiUrl && r.api.databaseUrl == resp.databaseUrl && r.api.pushIntervalSecs == None
    && r.api.tokens.telemetry == Some(TokenEntry(resp.token, "read"))
    && (match command
        case Some(c) => r.api.tokens.command == Some(TokenEntry(c, "read_write"))
        case None => r.api.tokens.command == None)
    && r.agent.pushSec == 6 && r.agent.pollSec == 2
    && r.service.listenAddr == "127.0.0.1" && r.service.port == 8443
    && r.compose.dir == "/opt/dgx-llm" && r.compose.extraExtensions == [".env", ".conf", ".toml"]
    && r.compose.cmdToken == command && r.compose.signingPublicKey == resp.signingPublicKey
    && !r.compose.requireSignatures
  }

  lemma HoldsSettled(r: Record, apiUrl: string, name: string, tags: seq<string>, resp: RegisterResponse,
      command: Option<string>)
    requires Holds(r, apiUrl, name, tags, resp, command)
    ensures Migrated(r) == r && NodeToken(r) == resp.token && CmdToken(r) == command
  {
    assert Settled(r);
    MigrationSettles(r);
  }

  lemma PrintDefaults()
    ensures Print(6) == "6" && Print(2) == "2" && Print(8443) == "8443"
  {
    assert Print(8443) == Print(844) + "3" == Print(84) + "4" + "3" == Print(8) + "4" + "4" + "3";
  }

  /** What `get` answers for every key after a registration. */
  lemma GetAfterRegister(disk: Disk, apiUrl: string, token: string, cmdToken: Option<string>, name: string,
      tags: seq<string>, resp: RegisterResponse)
    requires GoodArguments(token, cmdToken)
    ensures var after := Apply(disk, Register(apiUrl, token, cmdToken, name, tags, Some(resp), true));
            && Get(after, "api_url") == Some(apiUrl) && Get(after, "name") == Some(name)
            && Get(after, "tags") == Some(Join(tags, ',')) && Get(after, "node_id") == Some(resp.nodeId)
            && Get(after, "push_interval") == Some("6") && Get(after, "poll_sec") == Some("2")
            && Get(after, "listen_addr") == Some("127.0.0.1") && Get(after, "port") == Some("8443")
            && Get(after, "compose_dir") == Some("/opt/dgx-llm") && Get(after, "require_signatures") == Some("false")
  {
    var after := Apply(disk, Register(apiUrl, token, cmdToken, name, tags, Some(resp), true));
    var command := if resp.cmdToken.Some? then resp.cmdToken else cmdToken;
    RegisterStores(disk, apiUrl, token, cmdToken, name, tags, resp);
    ReadPlain(after.value, apiUrl, name, tags, resp, command);
    ReadDefaults(after.value, apiUrl, name, tags, resp, command);
  }

  lemma ReadPlain(r: Record, apiUrl: string, name: string, tags: seq<string>, resp: RegisterResponse,
      command: Option<string>)
    requires Holds(r, apiUrl, name, tags, resp, command)
    ensures Get(Some(r), "api_url") == Some(apiUrl) && Get(Some(r), "name") == Some(name)
    ensures Get(Some(r), "tags") == Some(Join(tags, ',')) && Get(Some(r), "node_id") == Some(resp.nodeId)
  {
    HoldsSettled(r, apiUrl, name, tags, resp, command);
    GetBaseUrl(r, "api_url");
    GetName(r, "name");
    GetTags(r, "tags");
    GetNodeId(r, "node_id");
  }

  lemma ReadDefaults(r: Record, apiUrl: string, name: string, tags: seq<string>, resp: RegisterResponse,
      command: Option<string>)
    requires Holds(r, apiUrl, name, tags, resp, command)
    ensures Get(Some(r), "push_interval") == Some("6") && Get(Some(r), "poll_sec") == Some("2")
    ensures Get(Some(r), "listen_addr") == Some("127.0.0.1") && Get(Some(r), "port") == Some("8443")
    ensures Get(Some(r), "compose_dir") == Some("/opt/dgx-llm") && Get(Some(r), "require_signatures") == Some("false")
  {
    HoldsSettled(r, apiUrl, name, tags, resp, command);
    PrintDefaults();
    GetPushSec(r, "push_interval");
    GetPollSec(r, "poll_sec");
    GetListenAddr(r, "listen_addr");
    GetPort(r, "port");
    GetDir(r, "compose_dir");
    GetRequireSignatures(r, "require_signatures");
  }

  /** Both places of each credential answer the registered token, so the service and the
      poller use the same one. */
  lemma TokensAfterRegister(disk: Disk, apiUrl: string, token: string, cmdToken: Option<string>, name: string,
      tags: seq<string>, resp: RegisterResponse)
    requires GoodArguments(token, cmdToken)
    ensures var after := Apply(disk, Register(apiUrl, token, cmdToken, name, tags, Some(resp), true));
            var command := if resp.cmdToken.Some? then resp.cmdToken else cmdToken;
            && after.Some? && NodeToken(Migrated(after.value)) == resp.token
            && CmdToken(Migrated(after.value)) == Migrated(after.value).compose.cmdToken == command
            && Get(after, "token") == Get(after, "telemetry_token") == Some(resp.token)
            && Get(after, "cmd_token") == Get(after, "command_token") == Some(Shown(command))
            && Get(after, "signing_public_key") == Some(Shown(resp.signingPublicKey))
  {
    var after := Apply(disk, Register(apiUrl, token, cmdToken, name, tags, Some(resp), true));
    var command := if resp.cmdToken.Some? then resp.cmdToken else cmdToken;
    RegisterStores(disk, apiUrl, token, cmdToken, name, tags, resp);
    ReadSecrets(after.value, apiUrl, name, tags, resp, command);
  }

  lemma ReadSecrets(r: Record, apiUrl: string, name: string, tags: seq<string>, resp: RegisterResponse,
      command: Option<string>)
    requires Holds(r, apiUrl, name, tags, resp, command)
    ensures NodeToken(Migrated(r)) == resp.token && CmdToken(Migrated(r)) == Migrated(r).compose.cmdToken == command
    ensures Get(Some(r), "token") == Get(Some(r), "telemetry_token") == Some(resp.token)
    ensures Get(Some(r), "cmd_token") == Get(Some(r), "command_token") == Some(Shown(command))
    ensures Get(Some(r), "signing_public_key") == Some(Shown(resp.signingPublicKey))
  {
    HoldsSettled(r, apiUrl, name, tags, resp, command);
    GetNodeToken(r, "token");
    GetTelemetry(r, "telemetry_token");
    GetCmdToken(r, "cmd_token");
    GetCommand(r, "command_token");
    GetSigningPublicKey(r, "signing_public_key");
  }

  /** A malformed argument, a backend that refuses, or a file that cannot be written
      leaves the file as it was; and so does loading it. */
  lemma RegisterRefused(disk: Disk, apiUrl: string, token: string, cmdToken: Option<string>, name: string,
      tags: seq<string>, resp: Option<RegisterResponse>, saved: bool)
    requires !GoodArguments(token, cmdToken) || resp == None || !saved
    ensures Apply(disk, Register(apiUrl, token, cmdToken, name, tags, resp, saved)) == disk
    ensures Apply(disk, Load) == disk
  {}

  /** A refresh writes the node's token and its entry, keeping the entry's scope, if the
      token is well formed and new and the backend accepts it. */
  lemma RefreshStores(r: Record, token: string, accepted: bool, saved: bool)
    ensures var m := Migrated(r);
            var scope := if m.api.tokens.telemetry.Some? then m.api.tokens.telemetry.value.scope else "read";
            Apply(Some(r), Refresh(token, accepted, saved)) ==
              if "nxs_node_" < token && accepted && saved && token != m.node.token
              then Some(m.(node := m.node.(token := token), api := m.api.(tokens :=
                m.api.tokens.(telemetry := Some(TokenEntry(token, scope))))))
              else Some(r)
    ensures Apply(None, Refresh(token, accepted, saved)) == None
  {}

  lemma RefreshCmdStores(r: Record, token: string, saved: bool)
    ensures var m := Migrated(r);
            Apply(Some(r), RefreshCmd(token, saved)) ==
              if "nxs_cmd_" < token && saved && Some(token) != m.compose.cmdToken && Sliceable(token, 16)
              then Some(m.(compose := m.compose.(cmdToken := Some(token))))
              else Some(r)
    ensures Apply(None, RefreshCmd(token, saved)) == None
  {}

  // ----- scopes -----

  predicate UsualScopes(r: Record) {
    && (r.api.tokens.telemetry.Some? ==> r.api.tokens.telemetry.value.scope == "read")
    && (r.api.tokens.command.Some? ==> r.api.tokens.command.value.scope == "read_write")
  }

  lemma ScopesStep(disk: Disk, c: Cmd)
    requires disk.Some? ==> UsualScopes(disk.value)
    ensures Apply(disk, c).Some? ==> UsualScopes(Apply(disk, c).value)
  {}

  /** Whatever is done to a file that starts with the usual scopes or with none, a
      telemetry token is for reading and a command token for reading and writing. */
  lemma {:induction false} ScopesLaw(disk: Disk, cmds: seq<Cmd>)
    requires disk.Some? ==> UsualScopes(disk.value)
    ensures Loaded(History(disk, cmds)).Some? ==> UsualScopes(Loaded(History(disk, cmds)).value)
    decreases |cmds|
  {
    if cmds != [] {
      ScopesStep(disk, cmds[0]);
      ScopesLaw(Apply(disk, cmds[0]), cmds[1..]);
    } else if disk.Some? {
      MigrationFills(disk.value);
    }
  }
}
