/** The commands that change the stored configuration.  Each loads the file (with
    migration), changes fields, and saves.  A command's `saved` says whether the
    final write of the file succeeded. */
module ConfigCommands {
  import opened Prelude
  import opened Text
  import opened Token
  import opened Config

  type Disk = Option<Record>

  const NOT_CONFIGURED := "(not configured)"
  // How many bytes of a credential `refresh-cmd` and `set` slice off for display before
  // they save; inside a multi-byte character that panics.
  const PREFIX_BYTES: nat := 16
  const SHOWN_BYTES: nat := 20

  const U64_BOUND: nat := 0x1_0000_0000_0000_0000
  const U16_BOUND: nat := 0x1_0000

  function Loaded(disk: Disk): Option<Record> {
    match disk
    case None => None
    case Some(r) => Some(Migrated(r))
  }

  // ----- keys -----

  datatype Key =
    | BaseUrl | PushSec | PollSec | Telemetry | Command | ListenAddr | Port | Name | Tags | Dir
    | CmdTokenKey | RequireSignatures | SigningKey
    | NodeId | NodeTokenKey

  /** Every accepted spelling; the last two can only be read. */
  function KeyOf(s: string): Option<Key> {
    if s in ["api.base_url", "api_url"] then Some(BaseUrl)
    else if s in ["agent.push_sec", "api.push_interval_secs", "push_interval", "interval"] then Some(PushSec)
    else if s in ["agent.poll_sec", "poll_sec"] then Some(PollSec)
    else if s in ["api.tokens.telemetry", "telemetry_token"] then Some(Telemetry)
    else if s in ["api.tokens.command", "command_token"] then Some(Command)
    else if s in ["service.listen_addr", "listen_addr"] then Some(ListenAddr)
    else if s in ["service.port", "port"] then Some(Port)
    else if s in ["node.name", "name"] then Some(Name)
    else if s in ["node.tags", "tags"] then Some(Tags)
    else if s in ["compose.dir", "compose_dir"] then Some(Dir)
    else if s in ["compose.cmd_token", "cmd_token"] then Some(CmdTokenKey)
    else if s in ["compose.require_signatures", "require_signatures"] then Some(RequireSignatures)
    else if s in ["compose.signing_public_key", "signing_public_key"] then Some(SigningKey)
    else if s in ["node.node_id", "node_id"] then Some(NodeId)
    else if s in ["node.token", "token"] then Some(NodeTokenKey)
    else None
  }

  // ----- set and get on a loaded record -----

  function NonEmpty(value: string): Option<string> {
    if value == "" then None else Some(value)
  }

  function EntryFor(value: string, scope: string): Option<TokenEntry> {
    if value == "" then None else Some(TokenEntry(value, scope))
  }

  function Seconds(value: string): Option<nat> {
    match ParseUnsigned(value, U64_BOUND)
    case Some(n) => if n < 1 then None else Some(n)
    case None => None
  }

  function SplitTags(value: string): seq<string> {
    TrimAll(Split(value, ','))
  }

  /** The record after `set`, or None if the value is refused or the command panics. */
  function SetField(r: Record, k: Key, value: string): Option<Record> {
    match k
    case BaseUrl => Some(r.(api := r.api.(baseUrl := value)))
    case PushSec =>
      (match Seconds(value)
       case Some(n) => Some(r.(agent := r.agent.(pushSec := n)))
       case None => None)
    case PollSec =>
      (match Seconds(value)
       case Some(n) => Some(r.(agent := r.agent.(pollSec := n)))
       case None => None)
    case Telemetry =>
      Some(r.(api := r.api.(tokens := r.api.tokens.(telemetry := EntryFor(value, "read"))),
              node := if value == "" then r.node else r.node.(token := value)))
    case Command =>
      Some(r.(api := r.api.(tokens := r.api.tokens.(command := EntryFor(value, "read_write"))),
              compose := r.compose.(cmdToken := NonEmpty(value))))
    case ListenAddr => Some(r.(service := r.service.(listenAddr := value)))
    case Port =>
      (match ParseUnsigned(value, U16_BOUND)
       case Some(n) => Some(r.(service := r.service.(port := n)))
       case None => None)
    case Name => Some(r.(node := r.node.(name := value)))
    case Tags => Some(r.(node := r.node.(tags := SplitTags(value))))
    case Dir => Some(r.(compose := r.compose.(dir := value)))
    case CmdTokenKey =>
      if (value != "" && !ValidateCmdTokenFormat(value)) || !Sliceable(value, SHOWN_BYTES) then None
      else Some(r.(compose := r.compose.(cmdToken := NonEmpty(value))))
    case RequireSignatures =>
      if value == "true" then Some(r.(compose := r.compose.(requireSignatures := true)))
      else if value == "false" then Some(r.(compose := r.compose.(requireSignatures := false)))
      else None
    case SigningKey =>
      if !Sliceable(value, SHOWN_BYTES) then None
      else Some(r.(compose := r.compose.(signingPublicKey := NonEmpty(value))))
    case NodeId => None
    case NodeTokenKey => None
  }

  function Shown(value: Option<string>): string {
    match value
    case Some(v) => v
    case None => NOT_CONFIGURED
  }

  function EntryToken(entry: Option<TokenEntry>): Option<string> {
    match entry
    case Some(t) => Some(t.token)
    case None => None
  }

  function GetField(r: Record, k: Key): string {
    match k
    case BaseUrl => r.api.baseUrl
    case PushSec => Print(r.agent.pushSec)
    case PollSec => Print(r.agent.pollSec)
    case Telemetry => Shown(EntryToken(r.api.tokens.telemetry))
    case Command => Shown(EntryToken(r.api.tokens.command))
    case ListenAddr => r.service.listenAddr
    case Port => Print(r.service.port)
    case Name => r.node.name
    case Tags => Join(r.node.tags, ',')
    case Dir => r.compose.dir
    case CmdTokenKey => Shown(r.compose.cmdToken)
    case RequireSignatures => if r.compose.requireSignatures then "true" else "false"
    case SigningKey => Shown(r.compose.signingPublicKey)
    case NodeId => r.node.nodeId
    case NodeTokenKey => r.node.token
  }

  /** What `get` prints for a spelling, if it is known and there is a configuration. */
  function Get(disk: Disk, key: string): Option<string> {
    match (Loaded(disk), KeyOf(key))
    case (Some(r), Some(k)) => Some(GetField(r, k))
    case _ => None
  }

  // ----- the commands -----

  datatype RegisterResponse = RegisterResponse(
    nodeId: string,
    token: string,
    cmdToken: Option<string>,
    signingPublicKey: Option<string>,
    databaseUrl: Option<string>)

  datatype Cmd =
    | Register(
        apiUrl: string, token: string, cmdToken: Option<string>, name: string, tags: seq<string>,
        response: Option<RegisterResponse>, saved: bool)
    | Refresh(token: string, accepted: bool, saved: bool)
    | RefreshCmd(newCmdToken: string, saved: bool)
    | Set(key: string, value: string, saved: bool)
    | Load

  function ResolvedCmdToken(response: RegisterResponse, argument: Option<string>): Option<string> {
    if response.cmdToken.Some? then response.cmdToken else argument
  }

  function Registered(apiUrl: string, name: string, tags: seq<string>, resp: RegisterResponse, cmd: Option<string>): Record {
    Record(
      NodeConfig(resp.nodeId, name, resp.token, tags),
      ApiConfig(apiUrl, resp.databaseUrl,
                ApiTokens(Some(TokenEntry(resp.token, "read")),
                          if cmd.Some? then Some(TokenEntry(cmd.value, "read_write")) else None),
                None),
      AgentConfig(DEFAULT_PUSH_SEC, DEFAULT_POLL_SEC),
      DEFAULT_SERVICE,
      ComposeConfig(DEFAULT_COMPOSE_DIR, DEFAULT_EXTENSIONS, cmd, resp.signingPublicKey, false))
  }

  /** The record a command saves, if it gets that far. */
  function ToSave(disk: Disk, c: Cmd): Option<Record> {
    match c
    case Register(apiUrl, token, cmdToken, name, tags, response, _) =>
      if !ValidateTokenFormat(token) then None
      else if cmdToken.Some? && !ValidateCmdTokenFormat(cmdToken.value) then None
      else if response.None? then None
      else Some(Registered(apiUrl, name, tags, response.value, ResolvedCmdToken(response.value, cmdToken)))
    case Refresh(token, accepted, _) =>
      if !ValidateTokenFormat(token) || disk.None? then None
      else
        var r := Migrated(disk.value);
        if r.node.token == token || !accepted then None
        else
          var scope := if r.api.tokens.telemetry.Some? then r.api.tokens.telemetry.value.scope else "read";
          Some(r.(node := r.node.(token := token),
                  api := r.api.(tokens := r.api.tokens.(telemetry := Some(TokenEntry(token, scope))))))
    case RefreshCmd(token, _) =>
      if !ValidateCmdTokenFormat(token) || disk.None? then None
      else
        var r := Migrated(disk.value);
        if r.compose.cmdToken == Some(token) || !Sliceable(token, PREFIX_BYTES) then None
        else Some(r.(compose := r.compose.(cmdToken := Some(token))))
    case Set(key, value, _) =>
      if disk.None? || KeyOf(key).None? then None else SetField(Migrated(disk.value), KeyOf(key).value, value)
    case Load => None
  }

  predicate Saves(c: Cmd) {
    !c.Load? && c.saved
  }

  function Apply(disk: Disk, c: Cmd): Disk {
    var r := ToSave(disk, c);
    if r.Some? && Saves(c) then Some(Serialized(r.value)) else disk
  }

  function History(disk: Disk, cmds: seq<Cmd>): Disk
    decreases |cmds|
  {
    if cmds == [] then disk else History(Apply(disk, cmds[0]), cmds[1..])
  }

  // ----- the commands as the code they are -----

  class Store {
    var disk: Disk

    constructor (disk: Disk)
      ensures this.disk == disk
    {
      this.disk := disk;
    }

    method LoadConfig() returns (config: Config?)
      ensures config == null <==> disk.None?
      ensures config != null ==> fresh(config) && config.Value() == Migrated(disk.value)
    {
      if disk.None? {
        return null;
      }
      config := new Config(disk.value);
      config.MigrateLegacyFields();
    }

    method SaveConfig(config: Config, saved: bool)
      modifies this
      ensures disk == if saved then Some(Serialized(config.Value())) else old(disk)
    {
      if saved {
        var r := config.ToRecord();
        disk := Some(r.(api := r.api.(pushIntervalSecs := None)));
      }
    }

    method ExecuteRefresh(token: string, accepted: bool, saved: bool)
      modifies this
      ensures disk == Apply(old(disk), Refresh(token, accepted, saved))
      ensures !accepted ==> disk == old(disk)
    {
      if !ValidateTokenFormat(token) {
        return;
      }
      var config := LoadConfig();
      if config == null || config.node.token == token {
        return;
      }
      config.node := config.node.(token := token);
      var scope := if config.api.tokens.telemetry.Some? then config.api.tokens.telemetry.value.scope else "read";
      config.api := config.api.(tokens := config.api.tokens.(telemetry := Some(TokenEntry(token, scope))));
      if accepted {
        SaveConfig(config, saved);
      }
    }

    method ExecuteRefreshCmd(token: string, saved: bool)
      modifies this
      ensures disk == Apply(old(disk), RefreshCmd(token, saved))
    {
      if !ValidateCmdTokenFormat(token) {
        return;
      }
      var config := LoadConfig();
      if config == null || config.compose.cmdToken == Some(token) {
        return;
      }
      // the prefix for display
      if !Sliceable(token, PREFIX_BYTES) {
        return;
      }
      config.compose := config.compose.(cmdToken := Some(token));
      SaveConfig(config, saved);
    }

    method ExecuteSet(key: string, value: string, saved: bool)
      modifies this
      ensures disk == Apply(old(disk), Set(key, value, saved))
    {
      var config := LoadConfig();
      var k := KeyOf(key);
      if config == null || k.None? {
        return;
      }
      match k.value {
        case BaseUrl => config.api := config.api.(baseUrl := value);
        case PushSec =>
          var secs := ParseUnsigned(value, U64_BOUND);
          if secs.None? || secs.value < 1 {
            return;
          }
          config.agent := config.agent.(pushSec := secs.value);
        case PollSec =>
          var secs := ParseUnsigned(value, U64_BOUND);
          if secs.None? || secs.value < 1 {
            return;
          }
          config.agent := config.agent.(pollSec := secs.value);
        case Telemetry =>
          var entry := if value == "" then None else Some(TokenEntry(value, "read"));
          config.api := config.api.(tokens := config.api.tokens.(telemetry := entry));
          if entry.Some? {
            config.node := config.node.(token := entry.value.token);
          }
        case Command =>
          var entry := if value == "" then None else Some(TokenEntry(value, "read_write"));
          config.api := config.api.(tokens := config.api.tokens.(command := entry));
          config.compose := config.compose.(cmdToken := if entry.Some? then Some(entry.value.token) else None);
        case ListenAddr => config.service := config.service.(listenAddr := value);
        case Port =>
          var port := ParseUnsigned(value, U16_BOUND);
          if port.None? {
            return;
          }
          config.service := config.service.(port := port.value);
        case Name => config.node := config.node.(name := value);
        case Tags => config.node := config.node.(tags := TrimAll(Split(value, ',')));
        case Dir => config.compose := config.compose.(dir := value);
        case CmdTokenKey =>
          if value != "" && !ValidateCmdTokenFormat(value) {
            return;
          }
          config.compose := config.compose.(cmdToken := if value == "" then None else Some(value));
          if !Sliceable(value, SHOWN_BYTES) {
            return;
          }
        case RequireSignatures =>
          if value != "true" && value != "false" {
            return;
          }
          config.compose := config.compose.(requireSignatures := value == "true");
        case SigningKey =>
          config.compose := config.compose.(signingPublicKey := if value == "" then None else Some(value));
          if !Sliceable(value, SHOWN_BYTES) {
            return;
          }
        case NodeId => return;
        case NodeTokenKey => return;
      }
      SaveConfig(config, saved);
    }

    method ExecuteRegister(apiUrl: string, token: string, cmdToken: Option<string>, name: string, tags: seq<string>,
        response: Option<RegisterResponse>, saved: bool)
      modifies this
      ensures disk == Apply(old(disk), Register(apiUrl, token, cmdToken, name, tags, response, saved))
    {
      if !ValidateTokenFormat(token) {
        return;
      }
      if cmdToken.Some? && !ValidateCmdTokenFormat(cmdToken.value) {
        return;
      }
      if response.None? {
        return;
      }
      var resp := response.value;
      var resolved := if resp.cmdToken.Some? then resp.cmdToken else cmdToken;
      var config := new Config(Registered(apiUrl, name, tags, resp, resolved));
      SaveConfig(config, saved);
    }
  }
}
