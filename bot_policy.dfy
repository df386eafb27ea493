/**
 * The behaviour that the two `DiscordBot` classes share line for line: the events
 * that starting, stopping, dispatching and failure handling produce, the
 * deadline-aware fallback decision, and the two `switch` mappings.
 *
 * Each `...Events` function is the exact sequence of external calls one handler
 * makes; the bot methods append it to their trace, and the lemmas here state the
 * ordering and counting facts about it.
 */
module BotPolicy {
  import opened Wrappers
  import opened Platform

  /** The only user-facing text the bot produces. */
  const FallbackText: string := "Something went wrong.  Please contact a dev."

  /** The pause after each guild's command deletion on stop, in milliseconds. */
  const StopDelayMs: nat := 1000

  // ---------------------------------------------------------------------------
  // Result error text
  // ---------------------------------------------------------------------------

  /** The six texts the result-error mapping can produce. */
  datatype ErrorCategory =
    | PreconditionNotMet
    | CommandUnknown
    | InvalidArguments
    | CommandThrew
    | ExecutionUnsuccessful
    | UnknownError

  /** The category the `switch` in `GetResultErrorString` chooses for an error kind (the default arm takes the rest, `null` included). */
  function CategoryOf(error: Option<InteractionCommandError>): ErrorCategory {
    match error
    case Some(UnmetPrecondition) => PreconditionNotMet
    case Some(UnknownCommand) => CommandUnknown
    case Some(BadArgs) => InvalidArguments
    case Some(Exception) => CommandThrew
    case Some(Unsuccessful) => ExecutionUnsuccessful
    case _ => UnknownError
  }

  /** The two categories whose text embeds `ErrorReason`. */
  predicate CarriesReason(c: ErrorCategory) {
    c == PreconditionNotMet || c == CommandThrew
  }

  const PreconditionPrefix: string := "Unmet Precondition: "
  const ExceptionPrefix: string := "Command exception: "
  const UnknownCommandText: string := "Unknown command"
  const BadArgsText: string := "Invalid number or arguments"
  const UnsuccessfulText: string := "Command could not be executed"
  const UnknownErrorText: string := "Unknown error"

  /** The text logged for a failed result. */
  function GetResultErrorString(result: InteractionResult): (s: string)
    ensures CategoryOf(result.error) == PreconditionNotMet ==> s == PreconditionPrefix + result.errorReason
    ensures CategoryOf(result.error) == CommandThrew ==> s == ExceptionPrefix + result.errorReason
    ensures CategoryOf(result.error) == CommandUnknown ==> s == UnknownCommandText
    ensures CategoryOf(result.error) == InvalidArguments ==> s == BadArgsText
    ensures CategoryOf(result.error) == ExecutionUnsuccessful ==> s == UnsuccessfulText
    ensures CategoryOf(result.error) == UnknownError ==> s == UnknownErrorText
    ensures s == UnknownErrorText <==>
              result.error.None? || result.error == Some(ConvertFailed) || result.error == Some(ParseFailed)
    ensures CarriesReason(CategoryOf(result.error)) ==> |result.errorReason| < |s| && s[|s| - |result.errorReason|..] == result.errorReason
  {
    match result.error
    case Some(UnmetPrecondition) => PreconditionPrefix + result.errorReason
    case Some(UnknownCommand) => UnknownCommandText
    case Some(BadArgs) => BadArgsText
    case Some(Exception) => ExceptionPrefix + result.errorReason
    case Some(Unsuccessful) => UnsuccessfulText
    case _ => UnknownErrorText
  }

  /** Reads the category back from an error text: by its prefix, or as one of the four fixed texts. */
  function CategoryOfText(s: string): ErrorCategory {
    if PreconditionPrefix <= s then PreconditionNotMet
    else if ExceptionPrefix <= s then CommandThrew
    else if s == UnknownCommandText then CommandUnknown
    else if s == BadArgsText then InvalidArguments
    else if s == UnsuccessfulText then ExecutionUnsuccessful
    else UnknownError
  }

  /** Reads the embedded reason back from an error text of a reason-carrying category. */
  function ReasonOfText(s: string): string {
    if PreconditionPrefix <= s then s[|PreconditionPrefix|..]
    else if ExceptionPrefix <= s then s[|ExceptionPrefix|..]
    else ""
  }

  /** The error text determines the category, and the reason when the category carries one. */
  lemma ErrorStringRoundTrip(result: InteractionResult)
    ensures CategoryOfText(GetResultErrorString(result)) == CategoryOf(result.error)
    ensures CarriesReason(CategoryOf(result.error)) ==> ReasonOfText(GetResultErrorString(result)) == result.errorReason
  {
    var s := GetResultErrorString(result);
    match CategoryOf(result.error)
    case PreconditionNotMet =>
      assert s[..|PreconditionPrefix|] == PreconditionPrefix;
    case CommandThrew =>
      assert s[..|ExceptionPrefix|] == ExceptionPrefix;
      assert s[0] != PreconditionPrefix[0];
    case CommandUnknown =>
      assert s[2] != PreconditionPrefix[2] && s[0] != ExceptionPrefix[0];
    case InvalidArguments =>
      assert s[0] != PreconditionPrefix[0] && s[0] != ExceptionPrefix[0];
    case ExecutionUnsuccessful =>
      assert s[0] != PreconditionPrefix[0] && s[8] != ExceptionPrefix[8];
    case UnknownError =>
      assert s[2] != PreconditionPrefix[2] && s[0] != ExceptionPrefix[0];
  }

  /** Two results log the same text exactly when they fall in one category and, for a reason-carrying one, share the reason. */
  lemma ErrorStringInjective(a: InteractionResult, b: InteractionResult)
    ensures GetResultErrorString(a) == GetResultErrorString(b) <==>
              CategoryOf(a.error) == CategoryOf(b.error) &&
              (CarriesReason(CategoryOf(a.error)) ==> a.errorReason == b.errorReason)
  {
    ErrorStringRoundTrip(a);
    ErrorStringRoundTrip(b);
  }

  // ---------------------------------------------------------------------------
  // Log severity translation
  // ---------------------------------------------------------------------------

  /** The exception thrown for a severity outside the enum's named values. */
  datatype SeverityException = ArgumentOutOfRange(paramName: string, actualValue: LogSeverity)

  predicate IsKnownSeverity(s: LogSeverity) {
    SeverityCritical <= s <= SeverityDebug
  }

  /** Discord.Net `LogSeverity` to `LogLevel`; an unnamed value throws. */
  function GetLogLevelFromDiscordLogSeverity(s: LogSeverity): (r: Result<LogLevel, SeverityException>)
    ensures r.Ok? <==> IsKnownSeverity(s)
    ensures r.Err? ==> r.error == ArgumentOutOfRange("logSeverity", s)
    ensures r.Ok? ==> r.value != Trace
  {
    if s == SeverityCritical then Ok(Critical)
    else if s == SeverityError then Ok(Error)
    else if s == SeverityWarning then Ok(Warning)
    else if s == SeverityInfo then Ok(Information)
    else if s == SeverityVerbose then Ok(Debug)
    else if s == SeverityDebug then Ok(Debug)
    else Err(ArgumentOutOfRange("logSeverity", s))
  }

  /** A more severe Discord severity (a lower value) never maps to a less severe level. */
  lemma SeverityOrderPreserved(s1: LogSeverity, s2: LogSeverity)
    requires IsKnownSeverity(s1) && IsKnownSeverity(s2) && s1 <= s2
    ensures GetLogLevelFromDiscordLogSeverity(s1).value.Rank() >= GetLogLevelFromDiscordLogSeverity(s2).value.Rank()
  {
  }

  /** Verbose and Debug are the only two severities that share a level. */
  lemma SeverityCollisions(s1: LogSeverity, s2: LogSeverity)
    requires IsKnownSeverity(s1) && IsKnownSeverity(s2) && s1 != s2
    ensures GetLogLevelFromDiscordLogSeverity(s1) == GetLogLevelFromDiscordLogSeverity(s2) <==>
              (s1 == SeverityVerbose && s2 == SeverityDebug) || (s1 == SeverityDebug && s2 == SeverityVerbose)
  {
  }

  /** Every level except Trace is produced by some severity. */
  lemma SeverityLevelsCovered(level: LogLevel)
    requires level != Trace
    ensures exists s :: IsKnownSeverity(s) && GetLogLevelFromDiscordLogSeverity(s) == Ok(level)
  {
    match level
    case Debug => assert GetLogLevelFromDiscordLogSeverity(SeverityDebug) == Ok(level);
    case Information => assert GetLogLevelFromDiscordLogSeverity(SeverityInfo) == Ok(level);
    case Warning => assert GetLogLevelFromDiscordLogSeverity(SeverityWarning) == Ok(level);
    case Error => assert GetLogLevelFromDiscordLogSeverity(SeverityError) == Ok(level);
    case Critical => assert GetLogLevelFromDiscordLogSeverity(SeverityCritical) == Ok(level);
  }

  /** The events of `OnClientLog`: the message is forwarded at the translated level, or the translation throws and nothing is logged. */
  function ClientLogEvents(s: LogSeverity): (t: seq<Event>)
    ensures IsKnownSeverity(s) ==> t == [ForwardedLog(GetLogLevelFromDiscordLogSeverity(s).value)]
    ensures !IsKnownSeverity(s) ==> t == []
  {
    match GetLogLevelFromDiscordLogSeverity(s)
    case Ok(level) => [ForwardedLog(level)]
    case Err(_) => []
  }

  // ---------------------------------------------------------------------------
  // The deadline-aware fallback response
  // ---------------------------------------------------------------------------

  /**
   * `TimeSpan.Seconds` of a duration of `elapsed` whole seconds: the seconds
   * component, the remainder of a division by 60 truncated toward zero, so it
   * takes the sign of the duration.
   */
  function SecondsComponent(elapsed: int): (s: int)
    ensures -60 < s < 60
    ensures elapsed >= 0 ==> s >= 0
    ensures elapsed <= 0 ==> s <= 0
    ensures (elapsed - s) % 60 == 0
  {
    if elapsed >= 0 then elapsed % 60 else -((-elapsed) % 60)
  }

  /** The three facts of `SecondsComponent`'s contract determine its value. */
  lemma SecondsComponentUnique(elapsed: int, s: int)
    requires -60 < s < 60
    requires elapsed >= 0 ==> s >= 0
    requires elapsed <= 0 ==> s <= 0
    requires (elapsed - s) % 60 == 0
    ensures s == SecondsComponent(elapsed)
  {
    var c := SecondsComponent(elapsed);
    var q1 := (elapsed - s) / 60;
    var q2 := (elapsed - c) / 60;
    assert elapsed - s == 60 * q1;
    assert elapsed - c == 60 * q2;
    assert c - s == 60 * (q1 - q2);
    assert -60 < c - s < 60;
  }

  /** What the failure handler does after logging the error. */
  datatype FallbackDecision =
    | SkipAlreadyResponded   // the interaction already has a response
    | SkipTooOld(seconds: int) // the seconds component of its age is 2 or more
    | SendFallback(text: string)

  /** The three-way policy: already responded, then the age check, then the one fixed reply. */
  function DecideFallback(hasResponded: bool, elapsed: int): (d: FallbackDecision)
    ensures hasResponded ==> d == SkipAlreadyResponded
    ensures d.SendFallback? <==> !hasResponded && SecondsComponent(elapsed) < 2
    ensures d.SendFallback? ==> d.text == FallbackText
    ensures d.SkipTooOld? ==> d.seconds == SecondsComponent(elapsed) && d.seconds >= 2
    ensures !hasResponded && SecondsComponent(elapsed) >= 2 ==> d == SkipTooOld(SecondsComponent(elapsed))
  {
    if hasResponded then SkipAlreadyResponded
    else if SecondsComponent(elapsed) >= 2 then SkipTooOld(SecondsComponent(elapsed))
    else SendFallback(FallbackText)
  }

  /** For an age of zero or more seconds, the fallback goes out exactly when no response exists and the age modulo a minute is under 2. */
  lemma FallbackForNonNegativeAge(hasResponded: bool, elapsed: int)
    requires elapsed >= 0
    ensures DecideFallback(hasResponded, elapsed).SendFallback? <==> !hasResponded && elapsed % 60 < 2
  {
  }

  /** An interaction between 0 and 2 seconds old with no response gets the fallback. */
  lemma FreshInteractionGetsFallback(elapsed: int)
    requires 0 <= elapsed < 2
    ensures DecideFallback(false, elapsed) == SendFallback(FallbackText)
  {
  }

  /** An interaction between 2 and 60 seconds old gets no fallback. */
  lemma LateInteractionGetsNoFallback(hasResponded: bool, elapsed: int)
    requires 2 <= elapsed < 60
    ensures !DecideFallback(hasResponded, elapsed).SendFallback?
  {
  }

  /** Because only the seconds component is compared, a 61-second-old interaction with no response gets the fallback. */
  lemma MinuteOldInteractionGetsFallback()
    ensures DecideFallback(false, 61) == SendFallback(FallbackText)
  {
    assert SecondsComponent(61) == 1;
  }

  /** The events of `HandleInteractionError`: the error log, then either a skip log or the one reply. */
  function FailureEvents(interaction: Interaction, result: InteractionResult, now: int): seq<Event> {
    [LoggedFailure(GetResultErrorString(result))] +
    match DecideFallback(interaction.hasResponded, now - interaction.createdAt)
    case SendFallback(text) => [Respond(interaction.id, text)]
    case _ => [Logged(Error)]
  }

  /** The events of `HandleInteractionExecuted`: nothing for a success, the failure handling otherwise. */
  function ExecutedEvents(interaction: Interaction, result: InteractionResult, now: int): seq<Event> {
    if result.isSuccess then [] else FailureEvents(interaction, result, now)
  }

  /**
   * A completed interaction receives the fixed reply exactly once when its result
   * failed, it has no response yet and the seconds component of its age is under
   * 2; otherwise it receives none. A success produces no events at all.
   */
  lemma ExecutedResponses(interaction: Interaction, result: InteractionResult, now: int)
    ensures result.isSuccess ==> ExecutedEvents(interaction, result, now) == []
    ensures Responses(ExecutedEvents(interaction, result, now)) ==
              if !result.isSuccess && !interaction.hasResponded && SecondsComponent(now - interaction.createdAt) < 2
              then [Respond(interaction.id, FallbackText)]
              else []
    ensures !result.isSuccess ==> ExecutedEvents(interaction, result, now)[0] == LoggedFailure(GetResultErrorString(result))
  {
    var t := ExecutedEvents(interaction, result, now);
    if !result.isSuccess {
      var head := [LoggedFailure(GetResultErrorString(result))];
      assert t == head + t[1..];
      ResponsesAppend(head, t[1..]);
      assert Responses(head) == [];
      var tail := t[1..];
      assert |tail| == 1;
      assert tail[..0] == [];
    }
  }

  // ---------------------------------------------------------------------------
  // Dispatch
  // ---------------------------------------------------------------------------

  /**
   * The events of `OnInteractionCreated`: the command is executed; if that throws,
   * the exception is logged and, for an application command only, the original
   * response is fetched and, when the fetch yields a message (`fetchYieldsMessage`),
   * deleted. A faulted fetch ends inside the unobserved continuation, so nothing is
   * re-thrown in any case.
   */
  function DispatchEvents(interaction: Interaction, executeThrows: bool, fetchYieldsMessage: bool): seq<Event> {
    [ExecuteCommand(interaction.id)] +
    if !executeThrows then []
    else
      [Logged(Error)] +
      if interaction.kind != ApplicationCommand then []
      else [GetOriginalResponse(interaction.id)] + if fetchYieldsMessage then [DeleteOriginalResponse(interaction.id)] else []
  }

  /**
   * Dispatch always executes the command first. The original response is fetched
   * exactly when executing an application command threw, and deleted exactly when
   * that fetch also yielded a message; every deletion comes after a fetch. Dispatch
   * makes no other call and never sends a reply.
   */
  lemma DispatchDeletesOnlyFailedCommands(interaction: Interaction, executeThrows: bool, fetchYieldsMessage: bool)
    ensures DispatchEvents(interaction, executeThrows, fetchYieldsMessage)[0] == ExecuteCommand(interaction.id)
    ensures (exists k :: 0 <= k < |DispatchEvents(interaction, executeThrows, fetchYieldsMessage)| &&
                        DispatchEvents(interaction, executeThrows, fetchYieldsMessage)[k].GetOriginalResponse?)
            <==> executeThrows && interaction.kind == ApplicationCommand
    ensures (exists k :: 0 <= k < |DispatchEvents(interaction, executeThrows, fetchYieldsMessage)| &&
                        DispatchEvents(interaction, executeThrows, fetchYieldsMessage)[k].DeleteOriginalResponse?)
            <==> executeThrows && interaction.kind == ApplicationCommand && fetchYieldsMessage
    ensures forall j :: 0 <= j < |DispatchEvents(interaction, executeThrows, fetchYieldsMessage)| &&
                        DispatchEvents(interaction, executeThrows, fetchYieldsMessage)[j].DeleteOriginalResponse? ==>
              exists i :: 0 <= i < j && DispatchEvents(interaction, executeThrows, fetchYieldsMessage)[i].GetOriginalResponse?
    ensures !executeThrows ==> |DispatchEvents(interaction, executeThrows, fetchYieldsMessage)| == 1
    ensures executeThrows && interaction.kind != ApplicationCommand ==>
              DispatchEvents(interaction, executeThrows, fetchYieldsMessage) == [ExecuteCommand(interaction.id), Logged(Error)]
    ensures executeThrows && interaction.kind == ApplicationCommand ==>
              DispatchEvents(interaction, executeThrows, fetchYieldsMessage) ==
              [ExecuteCommand(interaction.id), Logged(Error), GetOriginalResponse(interaction.id)] +
              (if fetchYieldsMessage then [DeleteOriginalResponse(interaction.id)] else [])
    ensures Responses(DispatchEvents(interaction, executeThrows, fetchYieldsMessage)) == []
  {
    var t := DispatchEvents(interaction, executeThrows, fetchYieldsMessage);
    if executeThrows && interaction.kind == ApplicationCommand {
      assert t[2].GetOriginalResponse?;
      if fetchYieldsMessage {
        assert t[3].DeleteOriginalResponse?;
      }
    }
    NoResponses(t);
  }

  // ---------------------------------------------------------------------------
  // Start
  // ---------------------------------------------------------------------------

  /** The four socket-client subscriptions, in the order the source makes them. */
  function ClientSubscriptions(): seq<Event> {
    [Subscribe(ReadyHandler), Subscribe(LogHandler), Subscribe(JoinedGuildHandler), Subscribe(InteractionCreatedHandler)]
  }

  /** The six interaction-service subscriptions of `AddInteractionServiceCallbacks`. */
  function CallbackSubscriptions(): seq<Event> {
    [SubscribeExecuted(SlashCommandExecuted), SubscribeExecuted(ContextCommandExecuted),
     SubscribeExecuted(ComponentCommandExecuted), SubscribeExecuted(AutocompleteCommandExecuted),
     SubscribeExecuted(AutocompleteHandlerExecuted), SubscribeExecuted(ModalCommandExecuted)]
  }

  /** The events of `StartAsync`: a warning when running; otherwise the wiring, the login and the start. */
  function StartEvents(running: bool, token: string): seq<Event> {
    if running then [Logged(Warning)]
    else ClientSubscriptions() + CallbackSubscriptions() + [Login(token), StartClient]
  }

  /** Starting while running makes no platform call. */
  lemma StartWhenRunningOnlyWarns(token: string)
    ensures forall i :: 0 <= i < |StartEvents(true, token)| ==> !IsPlatformCall(StartEvents(true, token)[i])
    ensures StartEvents(true, token) == [Logged(Warning)]
  {
  }

  /**
   * Starting while stopped subscribes every client event and every callback once,
   * all before the single login with the given token, which precedes the single
   * client start.
   */
  lemma StartWiringOrder(token: string)
    ensures |StartEvents(false, token)| == 12
    ensures StartEvents(false, token)[10] == Login(token) && StartEvents(false, token)[11] == StartClient
    ensures forall i :: 0 <= i < 12 && StartEvents(false, token)[i].Login? ==> i == 10
    ensures forall i :: 0 <= i < 12 && StartEvents(false, token)[i].StartClient? ==> i == 11
    ensures forall i :: 0 <= i < 12 && (StartEvents(false, token)[i].Subscribe? || StartEvents(false, token)[i].SubscribeExecuted?) ==> i < 10
    ensures forall c: ClientEvent :: Subscribe(c) in StartEvents(false, token)
    ensures forall cb: ExecutedCallback :: SubscribeExecuted(cb) in StartEvents(false, token)
  {
    var t := StartEvents(false, token);
    forall c: ClientEvent ensures Subscribe(c) in t {
      match c
      case ReadyHandler => assert t[0] == Subscribe(c);
      case LogHandler => assert t[1] == Subscribe(c);
      case JoinedGuildHandler => assert t[2] == Subscribe(c);
      case InteractionCreatedHandler => assert t[3] == Subscribe(c);
    }
    forall cb: ExecutedCallback ensures SubscribeExecuted(cb) in t {
      match cb
      case SlashCommandExecuted => assert t[4] == SubscribeExecuted(cb);
      case ContextCommandExecuted => assert t[5] == SubscribeExecuted(cb);
      case ComponentCommandExecuted => assert t[6] == SubscribeExecuted(cb);
      case AutocompleteCommandExecuted => assert t[7] == SubscribeExecuted(cb);
      case AutocompleteHandlerExecuted => assert t[8] == SubscribeExecuted(cb);
      case ModalCommandExecuted => assert t[9] == SubscribeExecuted(cb);
    }
  }

  /** Starting, in either state, deletes no guild's commands and never logs out. */
  lemma StartDeletesNothing(running: bool, token: string)
    ensures DeletedGuilds(StartEvents(running, token)) == []
    ensures forall i :: 0 <= i < |StartEvents(running, token)| ==> StartEvents(running, token)[i] != Logout
  {
    NoDeletions(StartEvents(running, token));
  }

  // ---------------------------------------------------------------------------
  // Stop
  // ---------------------------------------------------------------------------

  /** Each guild's command deletion followed by the pause, in guild order. */
  function GuildDeletions(guilds: seq<Snowflake>): seq<Event>
    decreases |guilds|
  {
    if guilds == [] then []
    else GuildDeletions(guilds[..|guilds| - 1]) + [DeleteGuildCommands(guilds[|guilds| - 1]), Delay(StopDelayMs)]
  }

  /** The events of `StopAsync`: a warning when not running; otherwise the deletions, the logout and the stop. */
  function StopEvents(running: bool, guilds: seq<Snowflake>): seq<Event> {
    if !running then [Logged(Warning)]
    else GuildDeletions(guilds) + [Logout, StopClient]
  }

  /** Stopping while not running makes no platform call. */
  lemma StopWhenStoppedMakesNoCalls(guilds: seq<Snowflake>)
    ensures forall i :: 0 <= i < |StopEvents(false, guilds)| ==> !IsPlatformCall(StopEvents(false, guilds)[i])
  {
  }

  /** Position 2k deletes the k-th guild's commands and position 2k+1 pauses. */
  lemma {:induction false} GuildDeletionsLayout(guilds: seq<Snowflake>)
    ensures |GuildDeletions(guilds)| == 2 * |guilds|
    ensures forall k :: 0 <= k < |guilds| ==>
              GuildDeletions(guilds)[2 * k] == DeleteGuildCommands(guilds[k]) &&
              GuildDeletions(guilds)[2 * k + 1] == Delay(StopDelayMs)
    ensures forall i :: 0 <= i < |GuildDeletions(guilds)| ==>
              GuildDeletions(guilds)[i].DeleteGuildCommands? || GuildDeletions(guilds)[i] == Delay(StopDelayMs)
    decreases |guilds|
  {
    if guilds != [] {
      var front := guilds[..|guilds| - 1];
      GuildDeletionsLayout(front);
      forall k | 0 <= k < |front| ensures front[k] == guilds[k] { }
    }
  }

  /** The deletions name exactly the joined guilds, in order. */
  lemma {:induction false} GuildDeletionsDeleteEachGuild(guilds: seq<Snowflake>)
    ensures DeletedGuilds(GuildDeletions(guilds)) == guilds
    decreases |guilds|
  {
    if guilds != [] {
      var front := guilds[..|guilds| - 1];
      var last := guilds[|guilds| - 1];
      GuildDeletionsDeleteEachGuild(front);
      DeletedGuildsAppend(GuildDeletions(front), [DeleteGuildCommands(last), Delay(StopDelayMs)]);
      assert [DeleteGuildCommands(last), Delay(StopDelayMs)][..1] == [DeleteGuildCommands(last)];
      assert guilds == front + [last];
    }
  }

  /**
   * Stopping while running deletes each joined guild's commands once, in guild
   * order, each followed by a 1000 ms pause; then logs out; then stops, and
   * nothing else.
   */
  lemma StopWhenRunningSequence(guilds: seq<Snowflake>)
    ensures |StopEvents(true, guilds)| == 2 * |guilds| + 2
    ensures DeletedGuilds(StopEvents(true, guilds)) == guilds
    ensures forall k :: 0 <= k < |guilds| ==>
              StopEvents(true, guilds)[2 * k] == DeleteGuildCommands(guilds[k]) &&
              StopEvents(true, guilds)[2 * k + 1] == Delay(StopDelayMs)
    ensures StopEvents(true, guilds)[2 * |guilds|] == Logout
    ensures StopEvents(true, guilds)[2 * |guilds| + 1] == StopClient
    ensures forall i :: 0 <= i < |StopEvents(true, guilds)| && StopEvents(true, guilds)[i].Logout? ==> i == 2 * |guilds|
    ensures forall i :: 0 <= i < |StopEvents(true, guilds)| && StopEvents(true, guilds)[i].StopClient? ==> i == 2 * |guilds| + 1
  {
    GuildDeletionsLayout(guilds);
    GuildDeletionsDeleteEachGuild(guilds);
    DeletedGuildsAppend(GuildDeletions(guilds), [Logout, StopClient]);
    assert [Logout, StopClient][..1] == [Logout];
  }
}
