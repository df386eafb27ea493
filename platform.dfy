/**
 * The Discord.Net entities that the bot reads or calls, reduced to the data its
 * decisions depend on, and the trace of external calls the bot makes.
 *
 * Every call the bot makes into the socket client, the interaction service, a guild,
 * an interaction or the logger is recorded as one `Event`; the bot classes keep the
 * sequence of these events and each of their methods promises exactly which events
 * it appends.
 */
module Platform {
  import opened Wrappers

  /** A Discord snowflake identifier (a C# `ulong`). */
  type Snowflake = x: int | 0 <= x < 0x1_0000_0000_0000_0000

  /** An attribute on a command module's class: its exact runtime type and the types it derives from. */
  datatype AttributeInfo = AttributeInfo(typeName: string, baseTypes: seq<string>)

  /** A command module discovered by the interaction service (Discord.Net `ModuleInfo`). */
  datatype ModuleInfo = ModuleInfo(name: string, attributes: seq<AttributeInfo>)

  /** The assembly the interaction service is asked to scan for modules. */
  datatype ModuleSource =
    | CommandAssembly  // the assembly that declares the marker attribute
    | EntryAssembly    // `Assembly.GetEntryAssembly()`

  /** Discord.Net `InteractionType`. */
  datatype InteractionType = Ping | ApplicationCommand | MessageComponent | ApplicationCommandAutocomplete | ModalSubmit

  /**
   * An inbound interaction: its identifier, its type, whether the transport has
   * already sent a response to it, and its creation time in whole seconds.
   */
  datatype Interaction = Interaction(id: Snowflake, kind: InteractionType, hasResponded: bool, createdAt: int)

  /** Discord.Net `InteractionCommandError`. */
  datatype InteractionCommandError =
    UnknownCommand | ConvertFailed | BadArgs | Exception | Unsuccessful | UnmetPrecondition | ParseFailed

  /** Discord.Net `IResult`: success flag, the nullable error kind and the error reason. */
  datatype InteractionResult = InteractionResult(isSuccess: bool, error: Option<InteractionCommandError>, errorReason: string)

  /** Discord.Net `LogSeverity`: a C# enum, so any integer can occur; the named values are 0 to 5. */
  type LogSeverity = int
  const SeverityCritical: LogSeverity := 0
  const SeverityError: LogSeverity := 1
  const SeverityWarning: LogSeverity := 2
  const SeverityInfo: LogSeverity := 3
  const SeverityVerbose: LogSeverity := 4
  const SeverityDebug: LogSeverity := 5

  /** Microsoft.Extensions.Logging `LogLevel`, without `None`, which nothing here produces. */
  datatype LogLevel = Trace | Debug | Information | Warning | Error | Critical {
    /** The numeric value of the level; higher is more severe. */
    function Rank(): nat {
      match this
      case Trace => 0
      case Debug => 1
      case Information => 2
      case Warning => 3
      case Error => 4
      case Critical => 5
    }
  }

  /** The four socket-client events the bot subscribes to. */
  datatype ClientEvent = ReadyHandler | LogHandler | JoinedGuildHandler | InteractionCreatedHandler

  /** The six interaction-service "executed" events, all routed to one handler. */
  datatype ExecutedCallback =
    | SlashCommandExecuted
    | ContextCommandExecuted
    | ComponentCommandExecuted
    | AutocompleteCommandExecuted
    | AutocompleteHandlerExecuted
    | ModalCommandExecuted

  /** One external call made by the bot. */
  datatype Event =
    | Subscribe(clientEvent: ClientEvent)                                  // discordSocketClient.X += handler
    | SubscribeExecuted(callback: ExecutedCallback)                        // interactionService.X += handler
    | Login(token: string)                                                 // LoginAsync(TokenType.Bot, token)
    | StartClient                                                          // discordSocketClient.StartAsync()
    | DiscoverModules(source: ModuleSource)                                // interactionService.AddModulesAsync
    | RegisterGlobal(deleteMissing: bool, modules: seq<ModuleInfo>)        // AddModulesGloballyAsync
    | RegisterGuild(guild: Snowflake, deleteMissing: bool, modules: seq<ModuleInfo>) // AddModulesToGuildAsync
    | AddCommandsToGuild(guild: Snowflake)                                 // AddCommandsToGuildAsync
    | DeleteGuildCommands(guild: Snowflake)                                // guild.DeleteApplicationCommandsAsync()
    | Delay(milliseconds: nat)                                             // Task.Delay
    | ExecuteCommand(interaction: Snowflake)                               // interactionService.ExecuteCommandAsync
    | GetOriginalResponse(interaction: Snowflake)                          // GetOriginalResponseAsync()
    | DeleteOriginalResponse(interaction: Snowflake)                       // msg.Result.DeleteAsync()
    | Respond(interaction: Snowflake, text: string)                        // Interaction.RespondAsync(text)
    | Logout                                                               // discordSocketClient.LogoutAsync()
    | StopClient                                                           // discordSocketClient.StopAsync()
    | Logged(level: LogLevel)                                              // a logger call at Warning or above
    | LoggedFailure(errorText: string)                                     // the error log of a failed interaction
    | ForwardedLog(level: LogLevel)                                        // OnClientLog's logger.Log(level, ...)

  /** A call that reaches Discord (anything but a log record). */
  predicate IsPlatformCall(e: Event) {
    !(e.Logged? || e.LoggedFailure? || e.ForwardedLog?)
  }

  /** The guilds whose commands a trace deletes, in order. */
  function DeletedGuilds(t: seq<Event>): (r: seq<Snowflake>)
    ensures |r| <= |t|
    decreases |t|
  {
    if t == [] then []
    else
      var e := t[|t| - 1];
      DeletedGuilds(t[..|t| - 1]) + (if e.DeleteGuildCommands? then [e.guild] else [])
  }

  /** The guilds a trace registers modules into, in order. */
  function RegisteredGuilds(t: seq<Event>): (r: seq<Snowflake>)
    ensures |r| <= |t|
    decreases |t|
  {
    if t == [] then []
    else
      var e := t[|t| - 1];
      RegisteredGuilds(t[..|t| - 1]) + (if e.RegisterGuild? then [e.guild] else [])
  }

  /** How many global registrations a trace makes. */
  function GlobalRegistrations(t: seq<Event>): (n: nat)
    ensures n <= |t|
    decreases |t|
  {
    if t == [] then 0
    else GlobalRegistrations(t[..|t| - 1]) + (if t[|t| - 1].RegisterGlobal? then 1 else 0)
  }

  /** The responses a trace sends to interactions, in order. */
  function Responses(t: seq<Event>): (r: seq<Event>)
    ensures |r| <= |t|
    ensures forall i :: 0 <= i < |r| ==> r[i].Respond?
    decreases |t|
  {
    if t == [] then []
    else
      var e := t[|t| - 1];
      Responses(t[..|t| - 1]) + (if e.Respond? then [e] else [])
  }

  lemma {:induction false} DeletedGuildsAppend(a: seq<Event>, b: seq<Event>)
    ensures DeletedGuilds(a + b) == DeletedGuilds(a) + DeletedGuilds(b)
    decreases |b|
  {
    if b == [] {
      assert a + b == a;
    } else {
      assert (a + b)[..|a + b| - 1] == a + b[..|b| - 1];
      DeletedGuildsAppend(a, b[..|b| - 1]);
    }
  }

  lemma {:induction false} RegisteredGuildsAppend(a: seq<Event>, b: seq<Event>)
    ensures RegisteredGuilds(a + b) == RegisteredGuilds(a) + RegisteredGuilds(b)
    decreases |b|
  {
    if b == [] {
      assert a + b == a;
    } else {
      assert (a + b)[..|a + b| - 1] == a + b[..|b| - 1];
      RegisteredGuildsAppend(a, b[..|b| - 1]);
    }
  }

  lemma {:induction false} GlobalRegistrationsAppend(a: seq<Event>, b: seq<Event>)
    ensures GlobalRegistrations(a + b) == GlobalRegistrations(a) + GlobalRegistrations(b)
    decreases |b|
  {
    if b == [] {
      assert a + b == a;
    } else {
      assert (a + b)[..|a + b| - 1] == a + b[..|b| - 1];
      GlobalRegistrationsAppend(a, b[..|b| - 1]);
    }
  }

  lemma {:induction false} ResponsesAppend(a: seq<Event>, b: seq<Event>)
    ensures Responses(a + b) == Responses(a) + Responses(b)
    decreases |b|
  {
    if b == [] {
      assert a + b == a;
    } else {
      assert (a + b)[..|a + b| - 1] == a + b[..|b| - 1];
      ResponsesAppend(a, b[..|b| - 1]);
    }
  }

  /** A trace without global registrations counts none. */
  lemma {:induction false} NoGlobalRegistrations(t: seq<Event>)
    requires forall i :: 0 <= i < |t| ==> !t[i].RegisterGlobal?
    ensures GlobalRegistrations(t) == 0
    decreases |t|
  {
    if t != [] {
      NoGlobalRegistrations(t[..|t| - 1]);
    }
  }

  /** A trace without responses lists none. */
  lemma {:induction false} NoResponses(t: seq<Event>)
    requires forall i :: 0 <= i < |t| ==> !t[i].Respond?
    ensures Responses(t) == []
    decreases |t|
  {
    if t != [] {
      NoResponses(t[..|t| - 1]);
    }
  }

  /** A trace without guild deletions lists none. */
  lemma {:induction false} NoDeletions(t: seq<Event>)
    requires forall i :: 0 <= i < |t| ==> !t[i].DeleteGuildCommands?
    ensures DeletedGuilds(t) == []
    decreases |t|
  {
    if t != [] {
      NoDeletions(t[..|t| - 1]);
    }
  }
}
