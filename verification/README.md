# nexus-link: a verified model

nexus-link runs on GPU nodes. It accepts signed commands over HTTP, polls a backend
for queued commands, stores a compose file, and keeps its configuration and two
credentials in one TOML file. This project models the parts of it that keep state
over unbounded runs, and two of its text parsers, and proves what they guarantee.

`dafny verify dfyconfig.toml` checks everything.

## How it is organised

Protocols are deterministic machines driven by labels. `Step` takes one label; a label
that is not enabled changes nothing; `Run` takes any sequence of labels. A theorem over
all label sequences is therefore a theorem over every interleaving. Code that updates
things in place is a class or a loop whose contract names a specification function or a
machine run, so the theorems apply to it.

- `NonceCache.dfy`, `CmdAuth.dfy`, `ReplayBounds.dfy`, `Lifetimes.dfy`: the signed-command
  gate, first of one process, then over any history of restarts. Requests are checked,
  read the clock, take the lock, verify and forward in separate steps. The clock reading stored in the replay cache is taken before the lock, so lock order and
  clock order can differ; `RefusedIff` says exactly what the lazily cleaned map does then.
- `PollLoop.dfy`, `PgListener.dfy`, `CommandQueue.dfy`: the poll loop with its one-slot
  wake signal and adaptive interval, the reconnect backoff, and the command queue.
- `ComposeStore.dfy`, `SharedInodes.dfy`, `Overlays.dfy`, `Mixtures.dfy`,
  `WriteRefinement.dfy`, `ExtraFiles.dfy`: the compose file (temporary file, then rename) with
  failing steps, crashes and several writers, first with temporary writes that do not overlap,
  then with open files and partial writes at an offset, for any overlap; the proof that the
  first is the second without overlap; and the directory walk.
  The HTTP handler and the poller carry the same walk branch for branch; one model serves both.
- `Config.dfy`, `ConfigCommands.dfy`, `ConfigLaws.dfy`, `ConfigSpellings.dfy`,
  `ServiceTokens.dfy`, `Setup.dfy`: the configuration record, its migration, the commands that
  change it and what they do by what the user types, the running service that was started
  on it, and its relocation.
- `Version.dfy`, `GpuCsv.dfy`, `Text.dfy`, `Token.dfy`: parsers and the string and
  hexadecimal operations under them.

SHA-256, Ed25519 verification, timestamp parsing, the YAML parser and the parser of decimal
fractions are function-valued parameters: every theorem holds for any of them, and the
fractions for values of any type. Results of
the network, the file system and the backend are labels or arguments.

## Assumptions

- The wall clock never goes backwards. HTTP parsing delivers no line break inside a method,
  path or header value (section 5.5 of RFC 9110).
- `Notify::notify_one` stores at most one permit, and only the wake branch of the select
  consumes it. A select fires as soon as a branch is ready; a sleep ends exactly on time.
- The backend never reuses a command id and drops a command once a report on it is applied.
  It may apply a report after the client has given up waiting for the answer.
- A restart of the service comes up if there is a configuration to load.
- `rename` is atomic. A crash is one of the process: what it wrote reaches the disk. After a
  power loss nothing is promised, since the code does not sync before the rename, and the live
  file may be empty. A character of a content stands for one byte.
- A directory's entries have distinct names without a slash.
- Saving and loading a configuration carry exactly its serialized fields; no
  `NEXUS_LINK_CONFIG` override is in effect while commands run. A command whose file cannot
  be written leaves the stored configuration as it was.

## Where the code falls short of its description

- The README of the program says the timestamp window prevents replays. It does not, in two
  ways. The window reaches five minutes ahead but a stored nonce lives six minutes; and the
  cache is lost when the service restarts. `ForwardableAgainIff` is the exact condition for a
  valid signed write to reach the handlers again: a timestamp at least 60 s minus the delay
  ahead and a process that outlives the nonce, or a restart no later than five minutes after
  the timestamp. `TotalBound` says how often, `EachStartForwards` shows that each restart
  in the window does add one, and `ForwardableTwiceIff` is the condition within one process.
- The comments in `refresh_cmd.rs` say the service reads the token on every request. The
  service loads the configuration once, at start; it checks requests against the command
  entry if there is one, while the poller sends the legacy field. `LegacyWriteTakesEffectIff`
  says exactly when a written token is sent and when it is accepted; `InboundLaw` and
  `OutboundLaw` say what is in use after any history.
- `put_compose_file` calls its write atomic. All writers share one temporary path and nothing
  keeps their writes apart, so a put that reports success may have published another's content,
  a mixture of several (`OverlapMixes`, `MixtureGoesLive`), or be overwritten afterwards by a
  put that fails (`LateWriterOverwrites`). For any overlap, `Overlays.OwnContentIff` and
  `Overlays.AcceptedIff` say exactly when a put published its own, or some accepted, content;
  `LiveIff` and `LiveStaysIff` what is live later and when it can no longer change; and
  `Mixtures.SharedPathSafeIff` for which content formats the path is safe. The results in
  `ComposeStore` hold for runs in which writes do not overlap (`ApartRunsAreCoarse`);
  `PrefixClosedNotEnough` is a format that is safe there and not in general.
- `version_newer` is described as comparing semantic versions. It drops what does not parse,
  so 1.0.0-rc.1 counts as newer than 1.0.0 and 1.0.1 does not count as newer than 1.0.0-rc.9.
  `AgreesIff` is the exact condition for any two releases or pre-releases.
- A relocation whose copy is cut short makes the fragment the effective configuration, and a
  rerun does not repair it (`RelocationKeepsIff`, `RelocateTwice`).

## Model

| member | source | states |
|---|---|---|
| NonceCache.Cache.CheckAndStore | crates/nexus-link-service/src/middleware/cmd_auth.rs:159-174 | the critical section: admission as the log decides it, and the whole new map |
| NonceCache.PrefixStable | crates/nexus-link-service/src/middleware/cmd_auth.rs:162-173 | later attempts never change earlier decisions |
| NonceCache.LiveHasEntry | crates/nexus-link-service/src/middleware/cmd_auth.rs:164-173 | an admission no later reading has expired is in the map, with its own expiry |
| NonceCache.EntryIsLive | crates/nexus-link-service/src/middleware/cmd_auth.rs:164-173 | every entry of the map is such an admission |
| NonceCache.RefusedIff | crates/nexus-link-service/src/middleware/cmd_auth.rs:160-173 | for clock readings in any order, a nonce is refused iff an admission of it is unexpired at this and every reading in between |
| NonceCache.AdmissionsApart | crates/nexus-link-service/src/middleware/cmd_auth.rs:160-173 | between two admissions of a nonce some reading is at least 6 minutes after the first |
| NonceCache.RefinesLog | crates/nexus-link-service/src/middleware/cmd_auth.rs:160-173 | in clock order the lazy map decides as the unbounded log does: refused iff admitted less than 6 minutes ago |
| NonceCache.KeysAreRecent | crates/nexus-link-service/src/middleware/cmd_auth.rs:160-173 | and its keys are exactly the nonces admitted in that window |
| CmdAuth.CanonicalInjective | crates/nexus-link-service/src/middleware/cmd_auth.rs:191-200 | the five-line message fixes method, path, timestamp, nonce and body digest |
| CmdAuth.StepKeepsInv | crates/nexus-link-service/src/middleware/cmd_auth.rs:39-248 | every step of every request keeps the gate's invariant: map against log, section order, one section per request, what each phase has passed |
| CmdAuth.RunKeepsInv | crates/nexus-link-service/src/middleware/cmd_auth.rs:39-248 | so does every run |
| ReplayBounds.NonceGap | crates/nexus-link-service/src/middleware/cmd_auth.rs:160-173 | in any interleaving of one process, a second admission of a nonce takes the lock at least 6 minutes after the first one's reading |
| ReplayBounds.ReplayBound | crates/nexus-link-service/src/middleware/cmd_auth.rs:126-174 | a pair comes back only with a timestamp at least 60 s minus the second delay ahead of the first reading |
| ReplayBounds.AtMostTwice | crates/nexus-link-service/src/middleware/cmd_auth.rs:126-174 | three admissions of one pair need a delay of 60 s or more |
| ReplayBounds.ReplayableIff | crates/nexus-link-service/src/middleware/cmd_auth.rs:126-174 | within one process and whatever its signature, a request admitted to the cache at a reading can be admitted again within a delay D iff its timestamp is at least 60 s minus D ahead of it |
| ReplayBounds.ForwardSound | crates/nexus-link-service/src/middleware/cmd_auth.rs:93-231 | every forwarded signed write was authenticated, timely, admitted in its own section, and verified on its own message |
| ReplayBounds.ForwardedSections | crates/nexus-link-service/src/middleware/cmd_auth.rs:157-231 | two forwards of one message stem from two admissions of one pair |
| ReplayBounds.MessageForwardedAtMostTwice | crates/nexus-link-service/src/middleware/cmd_auth.rs:126-231 | one process forwards a signed message at most twice unless some request waits 60 s for the lock |
| ReplayBounds.MessageForwardedAgain | crates/nexus-link-service/src/middleware/cmd_auth.rs:126-231 | any two forwards of one message by one process: the later admission needs a timestamp that far ahead of the earlier one |
| ReplayBounds.ForwardableTwiceIff | crates/nexus-link-service/src/middleware/cmd_auth.rs:126-231 | within one process, a valid signed write can reach the handlers twice, the second time after a delay of at most D, iff its timestamp is at least 60 s minus D ahead of the first admission |
| Lifetimes.ForwardInWindow | crates/nexus-link-service/src/middleware/cmd_auth.rs:129-144 | in any history of restarts, every forward was checked within five minutes of the message's timestamp, by a process that had started by then |
| Lifetimes.TotalBound | crates/nexus-link-service/src/middleware/cmd_auth.rs:18-231 | over any history without a 60 s wait, a message is forwarded at most once per process that ran within five minutes of its timestamp, plus once more if one of them ran before and after it |
| Lifetimes.BoundAttained | crates/nexus-link-service/src/middleware/cmd_auth.rs:18-231 | for any number of processes there is a history that attains the bound |
| Lifetimes.EachStartForwards | crates/nexus-link-service/src/middleware/cmd_auth.rs:18-231 | for any starts in the window there is a history in which each process forwards the message once |
| Lifetimes.ForwardableAgainIff | crates/nexus-link-service/src/middleware/cmd_auth.rs:18-231 | over any history, a valid signed write admitted at a reading can reach the handlers again iff its timestamp is far enough ahead and the process outlives the nonce, or the next start is no later than the timestamp plus five minutes |
| ReplayBounds.AuthenticatedIff | crates/nexus-link-service/src/middleware/cmd_auth.rs:62-86 | a request is authenticated iff its header is `Bearer ` and a token of the command format with the configured hash |
| ReplayBounds.CheckOutcome | crates/nexus-link-service/src/middleware/cmd_auth.rs:23-155 | for every request and clock, which outcome of the check it meets: by configuration, token, PUT or POST with signatures required, key, headers, and five minutes either way |
| ReplayBounds.Statuses | crates/nexus-link-service/src/middleware/cmd_auth.rs:48-245 | 401 for the token, 400 for the body, 403 for everything else |
| ReplayBounds.LockOutcome | crates/nexus-link-service/src/middleware/cmd_auth.rs:159-174 | the nonce is stored or refused as a duplicate |
| ReplayBounds.VerifyOutcome | crates/nexus-link-service/src/middleware/cmd_auth.rs:176-229 | after the cache: body within 2 MiB, 64 bytes of signature, valid on the five lines, each with its own refusal |
| ReplayBounds.CanonicalText | crates/nexus-link-service/src/middleware/cmd_auth.rs:191-200 | method, path, timestamp, nonce and hexadecimal digest, in this order, one a line |
| ReplayBounds.WritesAreSigned | crates/nexus-link-service/src/middleware/cmd_auth.rs:90-231 | in every run a forwarded PUT or POST with signatures required has its headers, its own admitted section within five minutes, and a signature valid on its own five lines; every forwarded request carries the command token |
| ReplayBounds.OthersHaveNoSection | crates/nexus-link-service/src/middleware/cmd_auth.rs:90-93 | a forwarded request of another method, or with signatures off, never entered the cache |
| ReplayBounds.FreshWriteForwarded | crates/nexus-link-service/src/middleware/cmd_auth.rs:90-231 | a valid signed write is forwarded unless its nonce was admitted in the last 6 minutes |
| ReplayBounds.UnsignedForwarded | crates/nexus-link-service/src/middleware/cmd_auth.rs:90-93 | with signatures off, or for any method but PUT and POST, a request passes on the token alone and leaves the cache untouched |
| Token.HexEncode | crates/nexus-link-core/src/token.rs:66-74 | lowercase hexadecimal, two digits a byte |
| Token.HexRoundTrip | crates/nexus-link-core/src/token.rs:66-74 | decoding undoes encoding |
| Token.HexInjective | crates/nexus-link-core/src/token.rs:66-74 | equal digests in text are equal bytes |
| Token.HexText | crates/nexus-link-core/src/token.rs:66-74 | lower case, the high digit first |
| Token.HexDecodableIff | crates/nexus-link-service/src/middleware/cmd_auth.rs:203-213 | either case, an even number of digits and nothing else |
| Token.HexEitherCase | crates/nexus-link-service/src/middleware/cmd_auth.rs:203-213 | the value of each digit in either case |
| Token.TokenFormats | crates/nexus-link-core/src/token.rs:20-43 | the two prefixes, each with something after it |
| PollLoop.IntervalLaw | crates/nexus-link-service/src/main.rs:104-121 | the interval is the last positive hint, or the default if an error came later or there was none |
| PollLoop.ServerSteers | crates/nexus-link-service/src/poller.rs:58-91 | which answers set the interval, leave it alone, or reset it |
| PollLoop.Poller.Cycles | crates/nexus-link-service/src/main.rs:95-122 | the loop waits, before each poll, for the interval the earlier outcomes determine |
| PollLoop.StepKeepsInv | crates/nexus-link-service/src/main.rs:95-122 | every label of loop and listener keeps the protocol's invariant |
| PollLoop.NoLostWakeup | crates/nexus-link-service/src/main.rs:96-104 | each notification is served at once: during a wait a poll starts at that time, during a poll when it ends; until then the permit is stored and forces the wake branch |
| PollLoop.ExactCoalescing | crates/nexus-link-service/src/main.rs:98-103 | wake-triggered polls equal the notifications that found no permit, plus the permit found, minus the permit left |
| PollLoop.OneEffectivePerPoll | crates/nexus-link-service/src/pg_listener.rs:135-144 | of all notifications between two poll starts at most one has an effect |
| PollLoop.PollStartsBounded | crates/nexus-link-service/src/main.rs:96-104 | poll starts never exceed timer expiries plus notifications |
| PollLoop.WaitBounded | crates/nexus-link-service/src/main.rs:98-100 | a poll starts within the current interval after the previous one ended, and exactly then if the timer starts it |
| PollLoop.NeverStuck | crates/nexus-link-service/src/main.rs:98-103 | a waiting loop can always wake, time out, or let time pass |
| PgListener.SleepsLaw | crates/nexus-link-service/src/pg_listener.rs:31-49 | the delay's index is the number of failures since the start or the last clean close |
| PgListener.Run | crates/nexus-link-service/src/pg_listener.rs:31-49 | every delay the loop sleeps is 2^k capped at 30, k its index |
| PgListener.DelayLaw | crates/nexus-link-service/src/pg_listener.rs:21-49 | the k-th delay of an outage is 2^k up to the fifth, then 30 |
| PgListener.TotalLaw | crates/nexus-link-service/src/pg_listener.rs:21-49 | n consecutive delays of the loop, from the start or a clean close on, total 2^n - 1 up to five of them, then 30 more each |
| CommandQueue.Service.PollAndExecute | crates/nexus-link-service/src/poller.rs:86-124 | one batch: execute and report each command once, in order, whatever the reports return |
| CommandQueue.BatchIsRun | crates/nexus-link-service/src/poller.rs:94-122 | that loop is a run of the queue machine |
| CommandQueue.PendingAfterIs | crates/nexus-link-service/src/poller.rs:100-121 | exactly the commands without an applied report stay pending |
| CommandQueue.StepKeepsInv | crates/nexus-link-service/src/poller.rs:86-124 | every label, restarts included, keeps the queue's invariant |
| CommandQueue.AppliedIsFinal | crates/nexus-link-service/src/poller.rs:94-122 | after a report applied while the client waited, a command is never executed or reported again |
| CommandQueue.LateApplication | crates/nexus-link-service/src/poller.rs:53-122 | after a report applied later, it is executed at most once more, and only if it was fetched again before |
| CommandQueue.ExactlyOnce | crates/nexus-link-service/src/poller.rs:94-122 | without restarts, a command whose first report is applied runs exactly once |
| CommandQueue.ExecutionsMatchReports | crates/nexus-link-service/src/poller.rs:94-122 | executions equal report attempts, plus one still to be reported, plus at most one per restart |
| CommandQueue.BatchInOrder | crates/nexus-link-service/src/poller.rs:94-122 | however new commands and late reports interleave, the events of a batch are those of its commands in fetch order |
| CommandQueue.PollDelivers | crates/nexus-link-service/src/poller.rs:53-122 | a whole poll executes and reports everything that was pending when it fetched, in the backend's order |
| CommandQueue.BackendHolds | crates/nexus-link-service/src/poller.rs:100-121 | a new command goes last; a report that reaches the backend removes its command and no other |
| ComposeStore.Store.Put | crates/nexus-link-service/src/poller.rs:188-246 | one put under every fate: result, live and temporary file, and that it is a machine run |
| ComposeStore.PutRun | crates/nexus-link-service/src/handlers/compose.rs:312-350 | what the machine run of one put leaves in the files |
| ComposeStore.StepKeepsInv | crates/nexus-link-service/src/handlers/compose.rs:331-350 | every label of any number of writers keeps the store's invariant |
| ComposeStore.LeftoverNeverPublished | crates/nexus-link-service/src/handlers/compose.rs:331-350 | without overlapping writes: the live file is the initial one or the last published; a leftover temporary file is never published; successful renames never exceed completed writes |
| ComposeStore.PublishedSinceCrash | crates/nexus-link-service/src/handlers/compose.rs:331-350 | without overlapping writes: what a rename publishes was put after the last crash |
| ComposeStore.AtomicWritersSafe | crates/nexus-link-service/src/handlers/compose.rs:331-350 | without overlapping writes: with one-step writes, interleaved writers leave the initial or some whole, accepted content of the run |
| ComposeStore.OtherContentPublished | crates/nexus-link-service/src/handlers/compose.rs:331-350 | a put that succeeds may publish another writer's content |
| ComposeStore.PublishedGoodIff | crates/nexus-link-service/src/handlers/compose.rs:331-350 | without overlapping writes: a rename publishes what was put last; that is good iff nothing bad is left in the temporary file between its writer's write and it |
| ComposeStore.SafeAloneIff | crates/nexus-link-service/src/handlers/compose.rs:331-350 | without overlapping writes: when every other put in that window is bad, iff there is none |
| ComposeStore.OwnContentIff | crates/nexus-link-service/src/poller.rs:218-236 | without overlapping writes: in every run, all successful puts published their own content iff no other content was left in any such window |
| ComposeStore.AcceptedIff | crates/nexus-link-service/src/poller.rs:218-236 | without overlapping writes: in every run, everything published is accepted content iff no refused fragment was left in any such window |
| ComposeStore.SharedPathSafeIff | crates/nexus-link-service/src/poller.rs:218-236 | without overlapping writes, but with torn ones, the shared path is safe iff every prefix of an accepted content is accepted |
| ComposeStore.GetFallsBack | crates/nexus-link-service/src/poller.rs:427-437 | a get reads the .yml only where there is no .yaml |
| ComposeStore.SoleWriterSafe | crates/nexus-link-service/src/poller.rs:188-246 | one writer at a time, failures and crashes anywhere: the live file is the initial one or the latest successful put, and a get returns it |
| SharedInodes.LiveStaysIff | crates/nexus-link-service/src/handlers/compose.rs:331-350 | with open files and partial writes, the live file stays as it is until the next successful rename, whatever happens, iff no writer still holding it has anything new to write |
| SharedInodes.UndisturbedPut | crates/nexus-link-service/src/poller.rs:218-236 | a put that alone holds, opens, renames and removes the temporary file publishes its whole content, which then stays |
| SharedInodes.LateWriterOverwrites | crates/nexus-link-service/src/handlers/compose.rs:331-350 | a schedule in which a put that fails overwrites the live file |
| SharedInodes.StepKeepsInv | crates/nexus-link-service/src/handlers/compose.rs:331-350 | the live and the temporary name are never bound to one inode |
| Overlays.OverlayLaw | crates/nexus-link-service/src/handlers/compose.rs:331-338 | in every run a file that was opened is the overlay of the pieces written since it was last truncated |
| Overlays.OverlayShowsIff | crates/nexus-link-service/src/handlers/compose.rs:331-338 | an overlay is a given content iff no piece reaches past its end and the last piece over every byte put that byte |
| Overlays.OwnContentIff | crates/nexus-link-service/src/handlers/compose.rs:331-350 | in every run with any overlap, all successful puts published their own content iff each time the pieces in the temporary file show it |
| Overlays.AcceptedIff | crates/nexus-link-service/src/poller.rs:218-236 | a successful put published accepted content iff the pieces show some accepted content |
| Overlays.LiveIff | crates/nexus-link-service/src/poller.rs:218-236 | at every point of every run the live file is the initial one or what the pieces in its inode show |
| Mixtures.LiveIsMixture | crates/nexus-link-service/src/handlers/compose.rs:331-350 | the live file is always the initial one or a position-wise mixture of accepted contents |
| Mixtures.MixtureGoesLive | crates/nexus-link-service/src/handlers/compose.rs:331-350 | every such mixture is what some put publishes and reports as a success |
| Mixtures.OverlapMixes | crates/nexus-link-service/src/handlers/compose.rs:331-350 | for example a short content followed by the rest of a longer one |
| Mixtures.SharedPathSafeIff | crates/nexus-link-service/src/poller.rs:218-236 | with any overlap, the shared path keeps the live file well formed iff every mixture of accepted contents is accepted |
| WriteRefinement.CoarseRunsAreFine | crates/nexus-link-service/src/poller.rs:218-236 | every run with one-step writes is a run with partial writes and the same files |
| WriteRefinement.ApartRunsAreCoarse | crates/nexus-link-service/src/poller.rs:218-236 | every run in which writes do not overlap is, at each point, a run with one-step writes |
| WriteRefinement.ApartIsSafe | crates/nexus-link-service/src/poller.rs:218-236 | without overlap, acceptance of prefixes keeps the live file well formed |
| WriteRefinement.PrefixClosedNotEnough | crates/nexus-link-service/src/poller.rs:218-236 | a prefix-closed format that overlapping writes break |
| ExtraFiles.Collect | crates/nexus-link-service/src/handlers/compose.rs:113-187 | the walk pushes exactly the specified files, in listing order |
| ExtraFiles.ReadExtraFiles | crates/nexus-link-service/src/poller.rs:443-515 | the result is strictly ascending and holds exactly the exposed files at depth 0 or 1 |
| ExtraFiles.WalkFinds | crates/nexus-link-service/src/handlers/compose.rs:126-186 | the walk finds a file iff it is readable, not escaping, matching, and at depth 0 or 1 |
| ExtraFiles.WalkNamesDistinct | crates/nexus-link-service/src/handlers/compose.rs:157-163 | relative names never clash |
| ExtraFiles.SortSpec | crates/nexus-link-service/src/handlers/compose.rs:109 | sorting keeps the members and makes the names strictly ascending |
| ExtraFiles.OrderIndependent | crates/nexus-link-service/src/handlers/compose.rs:101-187 | the result does not depend on the order in which directories are listed |
| ExtraFiles.ResultByName | crates/nexus-link-service/src/handlers/compose.rs:98-187 | a file of the tree is in the result under its relative name iff it is readable, leads nowhere outside, is no compose file, and a tail of its dotted name is a listed extension, or its dotless name is one of three |
| ExtraFiles.ResultIsPlaced | crates/nexus-link-service/src/handlers/compose.rs:101-187 | and nothing else is |
| ExtraFiles.LessIff | crates/nexus-link-service/src/handlers/compose.rs:109 | names are ordered by the first difference, a proper prefix first |
| Config.Config.MigrateLegacyFields | crates/nexus-link-core/src/config.rs:321-346 | the whole record after migration |
| Config.MigrationSettles | crates/nexus-link-core/src/config.rs:277-346 | migration changes exactly the unsettled records, is idempotent, and load after save is the identity on migrated ones |
| Config.MigrationPreserves | crates/nexus-link-core/src/config.rs:321-368 | both credential accessors answer the same before and after |
| Config.MigrationFills | crates/nexus-link-core/src/config.rs:321-346 | which entries and interval migration fills in, with which scopes |
| Config.AccessorsPreferEntries | crates/nexus-link-core/src/config.rs:348-368 | the entry decides, and the legacy place where there is none |
| ConfigLaws.LegacyIntervalUntilSave | crates/nexus-link-core/src/config.rs:127-128 | over any history the legacy interval stays in the file exactly until the first write; then the stored interval alone is in force |
| ConfigLaws.NoPushWriteLaw | crates/nexus-link-core/src/config.rs:321-327 | whatever else is written, the interval in force stays until a command sets it |
| ConfigLaws.PushIntervalLaw | crates/nexus-link-cli/src/commands/config.rs:89-98 | after any history it is the one set last, even the default, legacy interval or not |
| ConfigLaws.LegacyIntervalLaw | crates/nexus-link-core/src/config.rs:321-327 | over any history a legacy interval is in force while push_sec is the default of 6, before and after the first save, until a command sets one; otherwise push_sec is |
| ConfigCommands.Store.ExecuteSet | crates/nexus-link-cli/src/commands/config.rs:81-215 | load, set one key by any alias, save; nothing on error, nor when a credential cannot be sliced for display |
| ConfigCommands.Store.ExecuteRefresh | crates/nexus-link-cli/src/commands/refresh.rs:4-53 | token rotation, kept only if the backend accepts it |
| ConfigCommands.Store.ExecuteRefreshCmd | crates/nexus-link-cli/src/commands/refresh_cmd.rs:14-48 | the legacy command-token write, unless the token cannot be sliced for display |
| ConfigCommands.Store.ExecuteRegister | crates/nexus-link-cli/src/commands/register.rs:65-171 | the record a registration stores |
| ConfigLaws.SplitTagsLaw | crates/nexus-link-cli/src/commands/config.rs:152-155 | tags are the pieces between commas, trimmed; never empty as a list, and comma-free |
| ConfigLaws.CommandTokenLaw | crates/nexus-link-core/src/config.rs:337-368 | over any history the effective command token is what the last reset set, or else the first legacy write since |
| ConfigLaws.NoResetLaw | crates/nexus-link-cli/src/commands/refresh_cmd.rs:24-39 | without a reset a token once effective stays |
| ConfigLaws.LegacyWriteSplitsPlaces | crates/nexus-link-cli/src/commands/refresh_cmd.rs:26-39 | a legacy write changes only the legacy field; the two places agree afterwards iff there was no entry or it held that token |
| ServiceTokens.GateAccepts | crates/nexus-link-service/src/state.rs:27-39 | the gate of the running service accepts exactly the tokens with the hash of its snapshot's token |
| ServiceTokens.SnapshotLaw | crates/nexus-link-service/src/state.rs:27-39 | over any history the service runs on the configuration its last start found |
| ServiceTokens.LegacyWriteTakesEffectIff | crates/nexus-link-cli/src/commands/refresh_cmd.rs:9-45 | a written token is sent by the poller iff the service restarted since (or already sent it), and accepted iff it restarted and no entry with another hash was there (or it was already accepted) |
| ServiceTokens.InboundLaw | crates/nexus-link-service/src/state.rs:31-37 | over any history requests are checked against the last reset before the last start, or else the first legacy write between the two |
| ServiceTokens.OutboundLaw | crates/nexus-link-service/src/poller.rs:45-65 | over any history the poller sends the last legacy-field write before the last start |
| ConfigLaws.NodeTokenLaw | crates/nexus-link-cli/src/commands/refresh.rs:10-50 | over any history the effective node token is the node's own token, the one written last |
| ConfigLaws.RejectedRefresh | crates/nexus-link-cli/src/commands/refresh.rs:36-50 | a rejected refresh changes nothing, an accepted one takes effect |
| ConfigSpellings.RegisterStores | crates/nexus-link-cli/src/commands/register.rs:114-150 | every field of the file after a registration |
| ConfigSpellings.GetAfterRegister | crates/nexus-link-cli/src/commands/register.rs:114-150 | what get answers afterwards for every plain key |
| ConfigSpellings.TokensAfterRegister | crates/nexus-link-cli/src/commands/register.rs:114-150 | both places of each credential answer the registered token, so the service and the poller agree |
| ConfigSpellings.RegisterRefused | crates/nexus-link-cli/src/commands/register.rs:65-111 | a malformed token, a refusal or a failed save changes nothing |
| ConfigSpellings.RefreshStores | crates/nexus-link-cli/src/commands/refresh.rs:4-53 | the whole effect of a refresh, scope kept |
| ConfigSpellings.RefreshCmdStores | crates/nexus-link-cli/src/commands/refresh_cmd.rs:14-48 | the whole effect of the legacy write |
| ConfigSpellings.ScopesLaw | crates/nexus-link-core/src/config.rs:329-346 | over any history the telemetry entry is for reading, the command entry for reading and writing |
| ConfigLaws.GetAfterSet | crates/nexus-link-cli/src/commands/config.rs:81-273 | after set, save and load, get answers the canonical form for the key and the coupled ones, and the old value for every other |
| ConfigSpellings.SetBaseUrl | crates/nexus-link-cli/src/commands/config.rs:85 | each spelling sets the backend's address, and nothing else |
| ConfigSpellings.SetPushSec | crates/nexus-link-cli/src/commands/config.rs:89 | each spelling sets the push interval, at least 1, and nothing else |
| ConfigSpellings.SetPollSec | crates/nexus-link-cli/src/commands/config.rs:99 | each spelling sets the poll interval, at least 1, and nothing else |
| ConfigSpellings.SetTelemetry | crates/nexus-link-cli/src/commands/config.rs:109 | each spelling sets the telemetry entry and the node's token, or clears the entry, and nothing else |
| ConfigSpellings.SetCommand | crates/nexus-link-cli/src/commands/config.rs:124 | each spelling sets the command entry and the legacy token, or clears both, and nothing else |
| ConfigSpellings.SetListenAddr | crates/nexus-link-cli/src/commands/config.rs:137 | each spelling sets the listen address, and nothing else |
| ConfigSpellings.SetPort | crates/nexus-link-cli/src/commands/config.rs:141 | each spelling sets the port, below 65536, and nothing else |
| ConfigSpellings.SetName | crates/nexus-link-cli/src/commands/config.rs:148 | each spelling sets the name, and nothing else |
| ConfigSpellings.SetTags | crates/nexus-link-cli/src/commands/config.rs:152 | each spelling sets the tags, split at commas and trimmed, and nothing else |
| ConfigSpellings.SetDir | crates/nexus-link-cli/src/commands/config.rs:156 | each spelling sets the directory, and nothing else |
| ConfigSpellings.SetCmdToken | crates/nexus-link-cli/src/commands/config.rs:160 | each spelling sets the legacy command token, of its format, or clears it, and nothing else |
| ConfigSpellings.SetRequireSignatures | crates/nexus-link-cli/src/commands/config.rs:171 | each spelling sets the flag, true or false, and nothing else |
| ConfigSpellings.SetSigningPublicKey | crates/nexus-link-cli/src/commands/config.rs:178 | each spelling sets the key, or clears it, and nothing else |
| ConfigSpellings.SetRefused | crates/nexus-link-cli/src/commands/config.rs:198-208 | any other spelling, and a failed save, change nothing |
| ConfigSpellings.GetBaseUrl | crates/nexus-link-cli/src/commands/config.rs:221 | each spelling prints the loaded base URL |
| ConfigSpellings.GetPushSec | crates/nexus-link-cli/src/commands/config.rs:222 | each spelling prints the interval in force after migration |
| ConfigSpellings.GetPollSec | crates/nexus-link-cli/src/commands/config.rs:225 | each spelling prints the poll interval |
| ConfigSpellings.GetTelemetry | crates/nexus-link-cli/src/commands/config.rs:226 | each spelling prints the entry's token, also one filled in from the node's, or (not configured) |
| ConfigSpellings.GetCommand | crates/nexus-link-cli/src/commands/config.rs:233 | each spelling prints the entry's token, also one filled in from the legacy field, or (not configured) |
| ConfigSpellings.GetListenAddr | crates/nexus-link-cli/src/commands/config.rs:240 | each spelling prints the listen address |
| ConfigSpellings.GetPort | crates/nexus-link-cli/src/commands/config.rs:241 | each spelling prints the port |
| ConfigSpellings.GetName | crates/nexus-link-cli/src/commands/config.rs:242 | each spelling prints the name |
| ConfigSpellings.GetNodeId | crates/nexus-link-cli/src/commands/config.rs:243 | each spelling prints the node id |
| ConfigSpellings.GetTags | crates/nexus-link-cli/src/commands/config.rs:244 | each spelling prints the tags joined with commas |
| ConfigSpellings.GetNodeToken | crates/nexus-link-cli/src/commands/config.rs:245 | each spelling prints the node's own token |
| ConfigSpellings.GetDir | crates/nexus-link-cli/src/commands/config.rs:246 | each spelling prints the directory |
| ConfigSpellings.GetCmdToken | crates/nexus-link-cli/src/commands/config.rs:247 | each spelling prints the legacy token, or (not configured) |
| ConfigSpellings.GetRequireSignatures | crates/nexus-link-cli/src/commands/config.rs:251 | each spelling prints true or false |
| ConfigSpellings.GetSigningPublicKey | crates/nexus-link-cli/src/commands/config.rs:254 | each spelling prints the key, or (not configured) |
| ConfigSpellings.GetRefused | crates/nexus-link-cli/src/commands/config.rs:259-269 | exactly the other spellings are refused |
| ConfigLaws.CanonicalNumber | crates/nexus-link-cli/src/commands/config.rs:89-108 | a number read back is accepted again with the same value |
| ConfigLaws.TagsFixedPointIff | crates/nexus-link-cli/src/commands/config.rs:152-155 | setting tags to their own get value keeps them iff there is one and all are comma-free and trimmed |
| ConfigLaws.TagsSetTwice | crates/nexus-link-cli/src/commands/config.rs:152-155 | which holds of all tags that set stored |
| Text.ParseUnsignedIff | crates/nexus-link-cli/src/commands/config.rs:89-108 | exactly an optional plus, zeros and the printed number are accepted, if in range |
| Text.WhitespaceIs | crates/nexus-link-cli/src/commands/config.rs:152-155 | the 25 characters that trimming removes |
| Text.SliceableIff | crates/nexus-link-cli/src/commands/config.rs:169 | a slice for display panics unless it ends between two characters |
| Setup.Machine.MigrateLegacyConfig | crates/nexus-link-core/src/setup.rs:227-302 | the relocation's files and status, for every fate of its two copies |
| Setup.PathPrecedence | crates/nexus-link-core/src/config.rs:22-42 | the override, else the system path, else the state directory, else the user's |
| Setup.RelocationKeepsIff | crates/nexus-link-core/src/setup.rs:227-280 | relocation keeps every file, copies the key iff there is one to copy, and keeps the effective configuration iff its copy is not cut short |
| Setup.RelocateTwice | crates/nexus-link-core/src/setup.rs:227-236 | once a copy has left a file, whole or not, a second run changes nothing |
| Setup.RelocateRetry | crates/nexus-link-core/src/setup.rs:227-280 | if it left none, a second run is a first run again, except that a key already copied stays |
| Version.StrictWeakOrder | crates/nexus-link-cli/src/commands/upgrade.rs:202-219 | a strict weak order on all strings |
| Version.ParseNumbers | crates/nexus-link-cli/src/commands/upgrade.rs:203-214 | any number of leading v and of numbers: the first three below 2^32 count, missing ones are zero |
| Version.AgreesOnReleases | crates/nexus-link-cli/src/commands/upgrade.rs:202-219 | on printed releases, with or without v, it is the precedence of section 11 of Semantic Versioning 2.0.0 |
| Version.PrecedenceOrder | crates/nexus-link-cli/src/commands/upgrade.rs:201-219 | precedence of section 11 on releases and pre-releases is a strict total order |
| Version.ParseVersion | crates/nexus-link-cli/src/commands/upgrade.rs:203-214 | what any printed release or pre-release is taken for |
| Version.CandidatesComparableIff | crates/nexus-link-cli/src/commands/upgrade.rs:201-219 | for two pre-releases of one release, reading their identifiers from the left up to the first difference tells whether the numbers rank them as precedence does |
| Version.CandidateGuards | crates/nexus-link-cli/src/commands/upgrade.rs:201-219 | same first identifier then different small numbers: always ranked right; no small number: right iff not above |
| Version.AgreesIff | crates/nexus-link-cli/src/commands/upgrade.rs:201-219 | on any two printed versions the comparison is precedence iff their patch levels, and the numbers taken for them, rank alike |
| Version.LabelsIgnored | crates/nexus-link-cli/src/commands/upgrade.rs:201-219 | of labelled, numbered pre-releases only the numbers are compared |
| Version.ReleaseNotNewer | crates/nexus-link-cli/src/commands/upgrade.rs:201-219 | a release that does not count as newer than an earlier candidate |
| Version.ReleaseOverPreReleaseIff | crates/nexus-link-cli/src/commands/upgrade.rs:201-219 | a release beats its pre-release iff its patch level exceeds the number taken from the identifiers |
| Version.CandidateCountsAsNewer | crates/nexus-link-cli/src/commands/upgrade.rs:201-219 | a release candidate that counts as newer than its release |
| GpuCsv.ParseNvidiaSmiOutput | crates/nexus-link-agent/src/collector.rs:281-317 | the loop over lines is the line parser mapped over the lines |
| GpuCsv.Homomorphism | crates/nexus-link-agent/src/collector.rs:284-317 | parsing two outputs on separate lines gives the devices of both in order |
| GpuCsv.RoundTrip | crates/nexus-link-agent/src/collector.rs:276-317 | parsing undoes printing; unreadable cells count as zero and further columns are ignored |
| GpuCsv.BytesExactIff | crates/nexus-link-agent/src/collector.rs:310-311 | the byte count stays within u64 iff the MiB value is below 2^44 |

## Left out

- HTTP, TLS, PostgreSQL, Docker, git, systemctl and sudo themselves: only their outcomes appear, as labels or arguments.
- Constant-time comparison of token hashes: modelled as equality, since timing cannot be expressed.
- A configuration file cut short by a failing save: the file would no longer parse; a failing save is modelled as changing nothing.
- The key file written by `set compose.signing_public_key`: only the configuration field is modelled.
- PollLoop.NoLostWakeup: takes the poll task to keep running. A panic in `truncate_output`, which slices command output at a fixed byte, ends the task; the laws of the wake signal and the queue then hold up to that point.
- File names that are not valid UTF-8, and directory entries the system fails to yield, in the directory walk.
- ComposeStore.LeftoverNeverPublished: for writes that do not overlap; a writer that still holds the file open when another renames it is in `SharedInodes` and `Overlays`.
- Build metadata after `+` in versions, and numeric identifiers with leading zeros, which section 9 of Semantic Versioning forbids.
- Log streaming, preflight checks, service installation, telemetry collection, unregister and reset: scripts over external commands.
- `execute_validate_yaml`, `execute_activate` and `execute_logs_snapshot`: they keep no state and add only easy members.
