# Discord bot lifecycle and secrets — a Dafny model

This project models the core of a Discord bot service written in C# on Discord.Net.
The core has three parts:

- **The newer `DiscordBot`** (`src/DiscordBotService/Discord/DiscordBot.cs`), module
  `BotService`. It manages the session lifecycle (start, stop, dispose). It discovers the
  command modules of the command assembly and splits them into a Global and a Guild set.
  A module is Global when one of its attributes has exactly the type `GlobalModuleAttribute`.
  On "ready" it registers the Global set platform-wide once, then the Guild set into each
  joined guild. It also dispatches interactions, handles failed ones with a deadline-aware
  fallback reply, and forwards transport log messages at a translated log level.
- **The older `DiscordBot`** (`src/Discord/DiscordBot.cs`), module `LegacyBot`. It has the
  same lifecycle and interaction handling. On "ready" it registers every module discovered
  in the entry assembly into every guild and pauses 1000 ms after each guild. It makes no
  global registration.
- **`SecretsManager`** (`src/Secrets/SecretsManager.cs`), module `Secrets`. It is a layered
  key/value store: one user-secrets source per listed assembly, in list order, then the
  environment variables. The last source that defines a key answers for it.
  `GetRequiredSecret` adds "present or fail".

Module `BotPolicy` holds what the two bot files share line for line:

- the `GetResultErrorString` mapping;
- the `GetLogLevelFromDiscordLogSeverity` mapping;
- the fallback policy;
- the start, stop, dispatch and failure event sequences.

The older file's copies are at `src/Discord/DiscordBot.cs`: the mappings at lines 186-197
and 216-228, the failure handling at 150-171, dispatch at 100-115, start at 19-38 and stop
at 41-57. Module `Platform` holds the Discord.Net entities the decisions depend on.
Module `Worker` drives the newer bot from the secrets manager, as
`src/WorkerService.cs` does.

**How state is modelled.**

- Each bot is a `class` with the source's `isRunning` field and a ghost `trace` of `Event`s.
  There is one event per call the bot makes into the socket client, the interaction service,
  a guild, an interaction, or the logger at Warning and above.
- Every handler method promises `trace == old(trace) + F(...)` for a specification function
  `F` of its inputs. The ordering and counting facts are lemmas about `F`.
- Loops in the source are loops in the model:
  - `StopAsync`, `AddModulesToGuildsAsync` and the older `OnClientIsReady` iterate over the guilds;
  - `GetDiscordModulesAsync` iterates over the discovered modules;
  - `IsModuleGlobal` iterates over the attributes;
  - `CreateConfiguration` iterates over the assemblies.
- The joined guilds and the discovered modules are method parameters. The clock reading
  (`now`, whole seconds) is a parameter too. So is whether `ExecuteCommandAsync` throws
  (`executeThrows`), and whether fetching the original response yields a message
  (`fetchYieldsMessage`).

**Behaviour of the code worth knowing.**

- Neither `DiscordBot` ever assigns `true` to `_isRunning` (newer file line 26, older file
  line 16). So `StartAsync` always wires and logs in again, and `StopAsync`/`DisposeAsync`
  always only warn. The model keeps `isRunning` unchanged in every method.
  `BotService.StartTwiceThenStop`, `LegacyBot.StartThenDispose` and
  `Worker.WorkerRunOnStoppedBot` show the consequences: a second login, and a stop
  without logout.
- The age check compares `TimeSpan.Seconds`, the seconds *component* of the age, rather than the
  total age. An interaction 61 s old therefore passes the check
  (`BotPolicy.MinuteOldInteractionGetsFallback`). The component is modelled as
  `BotPolicy.SecondsComponent`, a remainder truncated toward zero.
- `GetRequiredSecret` builds `ArgumentNullException(string)`, whose single argument is the
  *parameter name*. The model records the missing-secret text in that field.

## Model

| member | source | states |
|---|---|---|
| BotPolicy.GetResultErrorString | src/DiscordBotService/Discord/DiscordBot.cs:271-282 | an unmet precondition and an exception produce their prefix followed by the error reason, which is a proper suffix of the text; an unknown command, bad arguments and an unsuccessful execution each produce their own fixed text; the text is "Unknown error" exactly when the error kind is null, `ConvertFailed` or `ParseFailed` |
| BotPolicy.ErrorStringRoundTrip | src/DiscordBotService/Discord/DiscordBot.cs:273-281 | the text determines which of the six arms produced it, and for the two reason-carrying arms it determines the reason |
| BotPolicy.ErrorStringInjective | src/DiscordBotService/Discord/DiscordBot.cs:273-281 | two results give the same text if and only if they fall in the same arm and, for a reason-carrying arm, have the same reason |
| BotPolicy.GetLogLevelFromDiscordLogSeverity | src/DiscordBotService/Discord/DiscordBot.cs:299-311 | the translation succeeds exactly for the six named severities; any other value is an `ArgumentOutOfRangeException` naming `logSeverity` and the value; Trace is never produced |
| BotPolicy.SeverityOrderPreserved | src/DiscordBotService/Discord/DiscordBot.cs:301-310 | a more severe Discord severity never maps to a less severe log level |
| BotPolicy.SeverityCollisions | src/DiscordBotService/Discord/DiscordBot.cs:307-308 | two different named severities give the same level exactly when they are Verbose and Debug |
| BotPolicy.SeverityLevelsCovered | src/DiscordBotService/Discord/DiscordBot.cs:301-310 | every log level except Trace is the image of some named severity |
| BotPolicy.ClientLogEvents | src/DiscordBotService/Discord/DiscordBot.cs:288-293 | a named severity forwards exactly one log record at the translated level; an unnamed one forwards nothing |
| BotPolicy.SecondsComponent | src/DiscordBotService/Discord/DiscordBot.cs:248-249 | the seconds component lies strictly between -60 and 60, has the sign of the age, and differs from the age by a whole number of minutes |
| BotPolicy.SecondsComponentUnique | src/DiscordBotService/Discord/DiscordBot.cs:249 | those three properties determine the seconds component uniquely |
| BotPolicy.DecideFallback | src/DiscordBotService/Discord/DiscordBot.cs:242-257 | a responded interaction is skipped whatever its age; an unanswered one is skipped for age, carrying the seconds component, when that component is 2 or more; the fixed reply is chosen if and only if the interaction is unanswered and the component is under 2 |
| BotPolicy.FallbackForNonNegativeAge | src/DiscordBotService/Discord/DiscordBot.cs:248-253 | for a non-negative age the reply goes out if and only if there is no response and the age modulo 60 is under 2 |
| BotPolicy.FreshInteractionGetsFallback | src/DiscordBotService/Discord/DiscordBot.cs:248-257 | an unanswered interaction less than 2 s old gets the fixed reply |
| BotPolicy.LateInteractionGetsNoFallback | src/DiscordBotService/Discord/DiscordBot.cs:248-253 | an interaction between 2 and 60 s old gets no reply |
| BotPolicy.MinuteOldInteractionGetsFallback | src/DiscordBotService/Discord/DiscordBot.cs:249 | an unanswered interaction 61 s old gets the fixed reply, because only the seconds component is compared |
| BotPolicy.ExecutedResponses | src/DiscordBotService/Discord/DiscordBot.cs:223-258 | a success makes no call; a failure first logs its error text; the fixed reply is sent exactly once when the result failed, no response exists and the seconds component is under 2, otherwise no reply is sent |
| BotPolicy.DispatchDeletesOnlyFailedCommands | src/DiscordBotService/Discord/DiscordBot.cs:190-205 | the command is executed first; the original response is fetched if and only if execution threw on an application command, and deleted if and only if that fetch also yielded a message; every deletion follows a fetch; exactly one call when nothing throws, the execution and an error log when another kind throws, and for an application command that throws exactly the execution, the error log, the fetch and, when the fetch yields a message, the deletion; dispatch never sends a reply |
| BotPolicy.StartWhenRunningOnlyWarns | src/DiscordBotService/Discord/DiscordBot.cs:31-35 | starting while running makes no platform call, only a warning |
| BotPolicy.StartWiringOrder | src/DiscordBotService/Discord/DiscordBot.cs:37-60 | starting while stopped subscribes all four client events and all six executed callbacks before the single login with the given token, which precedes the single client start |
| BotPolicy.StartDeletesNothing | src/DiscordBotService/Discord/DiscordBot.cs:29-62 | starting, whether running or not, deletes no guild's commands and never logs out |
| BotPolicy.StopWhenStoppedMakesNoCalls | src/DiscordBotService/Discord/DiscordBot.cs:67-71 | stopping while not running makes no platform call |
| BotPolicy.GuildDeletionsLayout | src/DiscordBotService/Discord/DiscordBot.cs:73-78 | position 2k deletes the k-th guild's commands and position 2k+1 is the 1000 ms pause |
| BotPolicy.GuildDeletionsDeleteEachGuild | src/DiscordBotService/Discord/DiscordBot.cs:73-78 | the deletions name exactly the joined guilds, in order, each once |
| BotPolicy.StopWhenRunningSequence | src/DiscordBotService/Discord/DiscordBot.cs:72-80 | stopping while running deletes each guild's commands in order with a pause after each, then logs out once, then stops the client once, and does nothing else |
| BotService.PartitionInterleaves | src/DiscordBotService/Discord/DiscordBot.cs:144-154 | the Global and Guild lists are an interleaving of the discovered modules that keeps discovery order |
| BotService.PartitionClassifies | src/DiscordBotService/Discord/DiscordBot.cs:146-153 | Global holds only marked modules and Guild only unmarked ones |
| BotService.InterleavesMultiset | src/DiscordBotService/Discord/DiscordBot.cs:144-154 | an interleaving places every discovered module in exactly one of the two lists |
| BotService.PartitionIsTotal | src/DiscordBotService/Discord/DiscordBot.cs:137-160 | the two lists together are a permutation of the discovered modules; a module is in Global if and only if it is marked and in Guild if and only if it is not |
| BotService.PartitionUnique | src/DiscordBotService/Discord/DiscordBot.cs:137-160 | every order-preserving split into marked and unmarked modules equals the computed one |
| BotService.GuildRegistrationsLayout | src/DiscordBotService/Discord/DiscordBot.cs:114-118 | position k registers the Guild set into the k-th guild with deleteMissing |
| BotService.GuildRegistrationsRegisterEachGuild | src/DiscordBotService/Discord/DiscordBot.cs:114-118 | the per-guild registrations name exactly the joined guilds, in order, and make no global registration |
| BotService.ReadyLayout | src/DiscordBotService/Discord/DiscordBot.cs:102-120 | on ready, discovery in the command assembly comes first, then the global registration of the Global set with deleteMissing, then one Guild registration per guild |
| BotService.ReadyCounts | src/DiscordBotService/Discord/DiscordBot.cs:106-118 | on ready there is exactly one global registration and the registered guilds are exactly the joined guilds, in order |
| BotService.ReadyRegistrationOrder | src/DiscordBotService/Discord/DiscordBot.cs:102-120 | the single global registration precedes every guild registration |
| BotService.DebugCommandsIsGlobal | src/DiscordBotCommands/Commands/DebugCommands.cs:11-12 | the `DebugCommands` module, marked with the attribute, classifies as Global |
| BotService.ExactTypeOnly | src/DiscordBotService/Discord/DiscordBot.cs:169 | an attribute derived from the marker, or the older project's marker type, does not make a module Global |
| BotService.ReadyScenario | src/DiscordBotService/Discord/DiscordBot.cs:102-160 | with one marked and two unmarked modules and two guilds, ready registers the marked one globally and the other two into each guild |
| BotService.StartTwiceThenStop | src/DiscordBotService/Discord/DiscordBot.cs:26-81 | on a stopped bot two starts both wire up and log in with the token, and the stop after them only warns and deletes no guild's commands, because the flag is never set |
| BotService.DiscordBot.constructor | src/DiscordBotService/Discord/DiscordBot.cs:26 | a new bot is not running and has made no call |
| BotService.DiscordBot.StartAsync | src/DiscordBotService/Discord/DiscordBot.cs:29-62 | the calls are exactly the start events for the current flag; the flag is unchanged |
| BotService.DiscordBot.AddInteractionServiceCallbacks | src/DiscordBotService/Discord/DiscordBot.cs:210-218 | subscribes the six executed callbacks, in source order |
| BotService.DiscordBot.StopAsync | src/DiscordBotService/Discord/DiscordBot.cs:65-81 | the calls are exactly the stop events for the current flag and the joined guilds, built by a loop over the guilds |
| BotService.DiscordBot.DisposeAsync | src/DiscordBotService/Discord/DiscordBot.cs:84-88 | has exactly the effect of one `StopAsync` |
| BotService.DiscordBot.OnClientIsReadyAsync | src/DiscordBotService/Discord/DiscordBot.cs:93-97 | the calls are exactly the ready events |
| BotService.DiscordBot.AddModulesToGuildsAsync | src/DiscordBotService/Discord/DiscordBot.cs:102-120 | the calls are exactly the ready events: discovery, one global registration, then a loop of per-guild registrations |
| BotService.DiscordBot.GetDiscordModulesAsync | src/DiscordBotService/Discord/DiscordBot.cs:137-160 | the loop returns the partition of the discovered modules, records one discovery call in the command assembly, and changes nothing else |
| BotService.DiscordBot.IsModuleGlobal | src/DiscordBotService/Discord/DiscordBot.cs:165-175 | the attribute loop returns true if and only if some attribute has exactly the marker type |
| BotService.DiscordBot.OnJoinedGuild | src/DiscordBotService/Discord/DiscordBot.cs:180-185 | adds the commands to the joined guild, once |
| BotService.DiscordBot.OnInteractionCreatedAsync | src/DiscordBotService/Discord/DiscordBot.cs:190-205 | the calls are exactly the dispatch events: execution, then on a throw the error log and, for an application command, the fetch of the original response and its deletion when the fetch yields a message; the throw is caught |
| BotService.DiscordBot.HandleInteractionExecutedAsync | src/DiscordBotService/Discord/DiscordBot.cs:223-232 | a success makes no call; a failure is handed to the failure handler |
| BotService.DiscordBot.HandleInteractionErrorAsync | src/DiscordBotService/Discord/DiscordBot.cs:237-258 | the calls are exactly the failure events: the error log, then either a skip log or the fixed reply |
| BotService.DiscordBot.OnClientLog | src/DiscordBotService/Discord/DiscordBot.cs:288-293 | forwards at the translated level when the severity is named; otherwise returns the out-of-range exception and logs nothing |
| LegacyBot.PacedGuildRegistrationsLayout | src/Discord/DiscordBot.cs:75-80 | position 2k registers all modules into the k-th guild with deleteMissing and position 2k+1 is the 1000 ms pause |
| LegacyBot.PacedGuildRegistrationsRegisterEachGuild | src/Discord/DiscordBot.cs:75-80 | the registrations name exactly the joined guilds, in order |
| LegacyBot.LegacyReadyRegistration | src/Discord/DiscordBot.cs:70-83 | on ready there is no global registration; discovery in the entry assembly comes first; each guild then gets one registration of the full discovered list, followed by a pause |
| LegacyBot.DiscordBot.constructor | src/Discord/DiscordBot.cs:16 | a new bot is not running and has made no call |
| LegacyBot.DiscordBot.StartAsync | src/Discord/DiscordBot.cs:19-38 | the calls are exactly the start events for the current flag; the flag is unchanged |
| LegacyBot.DiscordBot.AddInteractionServiceCallbacks | src/Discord/DiscordBot.cs:121-129 | subscribes the six executed callbacks, in source order |
| LegacyBot.DiscordBot.StopAsync | src/Discord/DiscordBot.cs:41-57 | the calls are exactly the stop events for the current flag and the joined guilds, built by a loop over the guilds |
| LegacyBot.DiscordBot.DisposeAsync | src/Discord/DiscordBot.cs:60-64 | has exactly the effect of one `StopAsync` |
| LegacyBot.DiscordBot.OnClientIsReady | src/Discord/DiscordBot.cs:70-83 | the calls are exactly the paced ready events, built by a loop over the guilds |
| LegacyBot.DiscordBot.OnJoinedGuild | src/Discord/DiscordBot.cs:89-94 | adds the commands to the joined guild, once |
| LegacyBot.DiscordBot.OnInteractionCreated | src/Discord/DiscordBot.cs:100-115 | the calls are exactly the dispatch events: execution, then on a throw the error log and, for an application command, the fetch of the original response and its deletion when the fetch yields a message; the throw is caught |
| LegacyBot.DiscordBot.HandleInteractionExecuted | src/Discord/DiscordBot.cs:135-144 | a success makes no call; a failure is handed to the failure handler |
| LegacyBot.DiscordBot.HandleInteractionError | src/Discord/DiscordBot.cs:150-171 | the calls are exactly the failure events: the error log, then either a skip log or the fixed reply |
| LegacyBot.DiscordBot.OnClientLog | src/Discord/DiscordBot.cs:204-209 | forwards at the translated level when the severity is named; otherwise returns the out-of-range exception and logs nothing |
| LegacyBot.StartThenDispose | src/Discord/DiscordBot.cs:16-64 | on a stopped bot, a start followed by a dispose only warns on the dispose: no guild's commands are deleted and there is no logout, because the flag is never set |
| Secrets.LookupIsHighestPriority | src/Secrets/SecretsManager.cs:35-38 | the lookup is absent if and only if no source defines the key; otherwise it is the value of the highest-priority source defining it |
| Secrets.UserSecretsLayers | src/Secrets/SecretsManager.cs:66-70 | one user-secrets source per assembly, in list order |
| Secrets.ConfigurationLayers | src/Secrets/SecretsManager.cs:63-72 | the configuration has one layer per assembly, in order, and then the environment as its last layer |
| Secrets.EnvironmentOverrides | src/Secrets/SecretsManager.cs:71 | an environment variable overrides every user secret of the same name |
| Secrets.LaterAssemblyOverrides | src/Secrets/SecretsManager.cs:66-70 | without an environment variable of that name, the last assembly defining the key supplies its value, whatever earlier assemblies hold |
| Secrets.AbsentEverywhere | src/Secrets/ISecretsManager.cs:12-13 | a key that no source defines is absent |
| Secrets.MissingSecretMessageNamesSecret | src/Secrets/SecretsManager.cs:43 | the missing-secret text quotes the secret name after a fixed 33-character prefix |
| Secrets.DefaultSecretLookup | src/Secrets/SecretsManager.cs:22 | the parameterless manager answers from the environment first, then from the default assembly's user secrets |
| Secrets.SecretsManager.constructor | src/Secrets/SecretsManager.cs:28-32 | the configuration is built once from the listed assemblies and the environment |
| Secrets.SecretsManager.Default | src/Secrets/SecretsManager.cs:22 | the configuration is built from the default assembly alone |
| Secrets.SecretsManager.GetDefaultAssembly | src/Secrets/SecretsManager.cs:49-54 | the entry assembly when there is one, otherwise the executing assembly |
| Secrets.SecretsManager.CreateConfiguration | src/Secrets/SecretsManager.cs:63-72 | the loop adds the assemblies' user secrets in list order and then the environment variables |
| Secrets.SecretsManager.GetSecret | src/Secrets/SecretsManager.cs:35-38 | absent if and only if no source defines the name; otherwise the value of the highest-priority source defining it |
| Secrets.SecretsManager.GetRequiredSecret | src/Secrets/SecretsManager.cs:41-44 | succeeds exactly when the secret is present, with the same value; otherwise fails with the error naming the secret |
| Worker.WorkerRunOnStoppedBot | src/WorkerService.cs:30-43 | on a bot that is not running, the run logs in with the token but its stop only warns: no guild's commands are deleted and there is no logout |
| Worker.ExecuteAsync | src/WorkerService.cs:23-45 | a missing `DiscordToken` is the propagated error and the bot is not touched; otherwise the bot is started with the token and then stopped |

## Left out

- Debug and Trace logger calls, and all log message text, are not recorded. Only Warning and Error calls appear in the trace, plus the forwarded transport logs. The first error log of a failed interaction records the result's error text.
- `GetInteractionContextString` is not modelled. Nor is the interaction-name text in the failure log. Both only format logs.
- Concurrency is not modelled: each handler runs as one atomic step. This covers the unawaited `AddCommandsToGuildAsync` task in `OnJoinedGuild` and the `ContinueWith` continuation that deletes the original response.
- BotService.DiscordBot.OnInteractionCreatedAsync: the continuation's own failures are reduced to one flag, `fetchYieldsMessage`. A faulted fetch or a failing `DeleteAsync` stays inside the continuation's task, which is never observed.
- LegacyBot.DiscordBot.OnInteractionCreated: the same reduction of the continuation to `fetchYieldsMessage`.
- An exception thrown by a platform call inside start, stop or registration is not modelled. Only the dispatch-time throw (`executeThrows`) and the unnamed log severity are error paths.
- Clock readings are whole seconds passed in as `now` and `createdAt`. `DateTimeOffset.Now` and `TimeSpan` ticks below a second are not modelled.
- Discord.Net semantics are opaque trace events. This covers login, session start and stop, module discovery by reflection, and what registration does on the platform. The joined guilds and the discovered modules are given sequences.
- `Assembly.GetEntryAssembly()` may return null in the older `OnClientIsReady`. That case is not modelled.
- `GC.SuppressFinalize`, dependency-injection wiring and process bootstrap are not modelled; none holds logic.
- Worker.ExecuteAsync: the wait loop on the cancellation token and the `catch` that logs a critical error are not modelled. The modelled start cannot throw, and waiting does not change the bot.
- Configuration key matching is case-sensitive in the model; .NET configuration ignores case. The `__` to `:` mapping of environment variable names is not modelled.
- An assembly without user secrets is an empty source in the model. In .NET, an assembly lacking a `UserSecretsId` attribute makes `AddUserSecrets` throw.
