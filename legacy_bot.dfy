/**
 * The older `DiscordBot` (namespace TortoiseBot.Discord): on "ready" it registers
 * every module discovered in the entry assembly into every joined guild, pausing
 * after each guild, and makes no global registration. Start, stop, dispatch and
 * failure handling are the same as in the newer class.
 */
module LegacyBot {
  import opened Wrappers
  import opened Platform
  import opened BotPolicy

  /** The pause after each guild's registration on ready, in milliseconds. */
  const RegistrationDelayMs: nat := 1000

  /** Each guild's registration of all modules, followed by the pause, in guild order. */
  function PacedGuildRegistrations(guilds: seq<Snowflake>, modules: seq<ModuleInfo>): seq<Event>
    decreases |guilds|
  {
    if guilds == [] then []
    else
      PacedGuildRegistrations(guilds[..|guilds| - 1], modules) +
      [RegisterGuild(guilds[|guilds| - 1], true, modules), Delay(RegistrationDelayMs)]
  }

  /** The events of `OnClientIsReady`: discovery in the entry assembly, then the paced per-guild registrations. */
  function LegacyReadyEvents(discovered: seq<ModuleInfo>, guilds: seq<Snowflake>): seq<Event> {
    [DiscoverModules(EntryAssembly)] + PacedGuildRegistrations(guilds, discovered)
  }

  /** Position 2k registers into the k-th guild and position 2k+1 pauses. */
  lemma {:induction false} PacedGuildRegistrationsLayout(guilds: seq<Snowflake>, modules: seq<ModuleInfo>)
    ensures |PacedGuildRegistrations(guilds, modules)| == 2 * |guilds|
    ensures forall k :: 0 <= k < |guilds| ==>
              PacedGuildRegistrations(guilds, modules)[2 * k] == RegisterGuild(guilds[k], true, modules) &&
              PacedGuildRegistrations(guilds, modules)[2 * k + 1] == Delay(RegistrationDelayMs)
    ensures forall i :: 0 <= i < |PacedGuildRegistrations(guilds, modules)| ==>
              PacedGuildRegistrations(guilds, modules)[i].RegisterGuild? ||
              PacedGuildRegistrations(guilds, modules)[i] == Delay(RegistrationDelayMs)
    decreases |guilds|
  {
    if guilds != [] {
      var front := guilds[..|guilds| - 1];
      PacedGuildRegistrationsLayout(front, modules);
      forall k | 0 <= k < |front| ensures front[k] == guilds[k] { }
    }
  }

  /** The paced registrations name exactly the joined guilds, in order. */
  lemma {:induction false} PacedGuildRegistrationsRegisterEachGuild(guilds: seq<Snowflake>, modules: seq<ModuleInfo>)
    ensures RegisteredGuilds(PacedGuildRegistrations(guilds, modules)) == guilds
    decreases |guilds|
  {
    if guilds != [] {
      var front := guilds[..|guilds| - 1];
      var pair := [RegisterGuild(guilds[|guilds| - 1], true, modules), Delay(RegistrationDelayMs)];
      PacedGuildRegistrationsRegisterEachGuild(front, modules);
      RegisteredGuildsAppend(PacedGuildRegistrations(front, modules), pair);
      assert pair[..1] == [pair[0]];
      assert pair[..1][..0] == [];
      assert guilds == front + [guilds[|guilds| - 1]];
    }
  }

  /**
   * On ready no global registration is made; every joined guild receives exactly
   * one reconciling registration of the same full module list, in guild order,
   * each followed by a 1000 ms pause.
   */
  lemma LegacyReadyRegistration(discovered: seq<ModuleInfo>, guilds: seq<Snowflake>)
    ensures GlobalRegistrations(LegacyReadyEvents(discovered, guilds)) == 0
    ensures RegisteredGuilds(LegacyReadyEvents(discovered, guilds)) == guilds
    ensures |LegacyReadyEvents(discovered, guilds)| == 2 * |guilds| + 1
    ensures LegacyReadyEvents(discovered, guilds)[0] == DiscoverModules(EntryAssembly)
    ensures forall k :: 0 <= k < |guilds| ==>
              LegacyReadyEvents(discovered, guilds)[2 * k + 1] == RegisterGuild(guilds[k], true, discovered) &&
              LegacyReadyEvents(discovered, guilds)[2 * k + 2] == Delay(RegistrationDelayMs)
  {
    var head := [DiscoverModules(EntryAssembly)];
    var regs := PacedGuildRegistrations(guilds, discovered);
    var t := head + regs;
    PacedGuildRegistrationsLayout(guilds, discovered);
    PacedGuildRegistrationsRegisterEachGuild(guilds, discovered);
    RegisteredGuildsAppend(head, regs);
    assert head[..0] == [];
    forall i | 0 <= i < |t| ensures !t[i].RegisterGlobal? {
      if i > 0 {
        assert t[i] == regs[i - 1];
      }
    }
    NoGlobalRegistrations(t);
    forall k | 0 <= k < |guilds|
      ensures t[2 * k + 1] == RegisterGuild(guilds[k], true, discovered)
      ensures t[2 * k + 2] == Delay(RegistrationDelayMs)
    {
      assert t[2 * k + 1] == regs[2 * k];
      assert t[2 * k + 2] == regs[2 * k + 1];
    }
  }

  /**
   * The lifecycle and interaction handlers of the older bot. `trace` records every
   * external call. Nothing assigns `isRunning`, so it keeps its initial `false`.
   */
  class DiscordBot {
    var isRunning: bool
    ghost var trace: seq<Event>

    constructor ()
      ensures !isRunning && trace == []
    {
      isRunning := false;
      trace := [];
    }

    method StartAsync(token: string)
      modifies this
      ensures isRunning == old(isRunning)
      ensures trace == old(trace) + StartEvents(old(isRunning), token)
    {
      if isRunning {
        trace := trace + [Logged(Warning)];
        return;
      }
      trace := trace + ClientSubscriptions();
      AddInteractionServiceCallbacks();
      trace := trace + [Login(token)];
      trace := trace + [StartClient];
    }

    method AddInteractionServiceCallbacks()
      modifies this
      ensures isRunning == old(isRunning)
      ensures trace == old(trace) + CallbackSubscriptions()
    {
      trace := trace + CallbackSubscriptions();
    }

    method StopAsync(guilds: seq<Snowflake>)
      modifies this
      ensures isRunning == old(isRunning)
      ensures trace == old(trace) + StopEvents(old(isRunning), guilds)
    {
      if !isRunning {
        trace := trace + [Logged(Warning)];
        return;
      }
      for i := 0 to |guilds|
        invariant isRunning == old(isRunning)
        invariant trace == old(trace) + GuildDeletions(guilds[..i])
      {
        assert guilds[..i + 1][..i] == guilds[..i];
        trace := trace + [DeleteGuildCommands(guilds[i])];
        trace := trace + [Delay(StopDelayMs)];
      }
      assert guilds[..|guilds|] == guilds;
      trace := trace + [Logout];
      trace := trace + [StopClient];
    }

    /** Has exactly the effect of `StopAsync`. */
    method DisposeAsync(guilds: seq<Snowflake>)
      modifies this
      ensures isRunning == old(isRunning)
      ensures trace == old(trace) + StopEvents(old(isRunning), guilds)
    {
      StopAsync(guilds);
    }

    method OnClientIsReady(discovered: seq<ModuleInfo>, guilds: seq<Snowflake>)
      modifies this
      ensures isRunning == old(isRunning)
      ensures trace == old(trace) + LegacyReadyEvents(discovered, guilds)
    {
      trace := trace + [DiscoverModules(EntryAssembly)];
      var allModules := discovered;
      for i := 0 to |guilds|
        invariant isRunning == old(isRunning)
        invariant trace == old(trace) + [DiscoverModules(EntryAssembly)] + PacedGuildRegistrations(guilds[..i], allModules)
      {
        assert guilds[..i + 1][..i] == guilds[..i];
        trace := trace + [RegisterGuild(guilds[i], true, allModules)];
        trace := trace + [Delay(RegistrationDelayMs)];
      }
      assert guilds[..|guilds|] == guilds;
    }

    /** Adds the commands to the new guild; the returned task is not awaited. */
    method OnJoinedGuild(guild: Snowflake)
      modifies this
      ensures isRunning == old(isRunning)
      ensures trace == old(trace) + [AddCommandsToGuild(guild)]
    {
      trace := trace + [AddCommandsToGuild(guild)];
    }

    /**
     * `executeThrows` is whether `ExecuteCommandAsync` throws; the exception is caught
     * here. `fetchYieldsMessage` is whether `GetOriginalResponseAsync` completes with a
     * message; only then does the continuation delete it.
     */
    method OnInteractionCreated(interaction: Interaction, executeThrows: bool, fetchYieldsMessage: bool)
      modifies this
      ensures isRunning == old(isRunning)
      ensures trace == old(trace) + DispatchEvents(interaction, executeThrows, fetchYieldsMessage)
    {
      trace := trace + [ExecuteCommand(interaction.id)];
      if executeThrows {
        trace := trace + [Logged(Error)];
        if interaction.kind == ApplicationCommand {
          trace := trace + [GetOriginalResponse(interaction.id)];
          if fetchYieldsMessage {
            trace := trace + [DeleteOriginalResponse(interaction.id)];
          }
        }
      }
    }

    /** `now` is the clock reading in whole seconds. */
    method HandleInteractionExecuted(interaction: Interaction, result: InteractionResult, now: int)
      modifies this
      ensures isRunning == old(isRunning)
      ensures trace == old(trace) + ExecutedEvents(interaction, result, now)
    {
      if result.isSuccess {
        return;
      }
      HandleInteractionError(interaction, result, now);
    }

    method HandleInteractionError(interaction: Interaction, result: InteractionResult, now: int)
      modifies this
      ensures isRunning == old(isRunning)
      ensures trace == old(trace) + FailureEvents(interaction, result, now)
    {
      var resultErrorMessage := GetResultErrorString(result);
      trace := trace + [LoggedFailure(resultErrorMessage)];
      if interaction.hasResponded {
        trace := trace + [Logged(Error)];
        return;
      }
      var seconds := SecondsComponent(now - interaction.createdAt);
      if seconds >= 2 {
        trace := trace + [Logged(Error)];
        return;
      }
      trace := trace + [Respond(interaction.id, FallbackText)];
    }

    /** Forwards a transport log message; an unnamed severity throws out of the handler. */
    method OnClientLog(severity: LogSeverity) returns (outcome: Result<(), SeverityException>)
      modifies this
      ensures isRunning == old(isRunning)
      ensures trace == old(trace) + ClientLogEvents(severity)
      ensures outcome.Ok? <==> IsKnownSeverity(severity)
      ensures outcome.Err? ==> outcome.error == ArgumentOutOfRange("logSeverity", severity)
    {
      var level := GetLogLevelFromDiscordLogSeverity(severity);
      match level
      case Ok(l) =>
        trace := trace + [ForwardedLog(l)];
        outcome := Ok(());
      case Err(e) =>
        outcome := Err(e);
    }
  }

  /**
   * The flag is never set: disposing a stopped bot after a start only warns, so no
   * guild's commands are deleted and the client is not logged out.
   */
  method StartThenDispose(bot: DiscordBot, token: string, guilds: seq<Snowflake>)
    requires !bot.isRunning
    modifies bot
    ensures !bot.isRunning
    ensures bot.trace == old(bot.trace) + StartEvents(false, token) + [Logged(Warning)]
    ensures DeletedGuilds(bot.trace) == DeletedGuilds(old(bot.trace))
    ensures forall i :: |old(bot.trace)| <= i < |bot.trace| ==> bot.trace[i] != Logout
  {
    ghost var before := bot.trace;
    ghost var start := StartEvents(false, token);
    bot.StartAsync(token);
    bot.DisposeAsync(guilds);
    StartDeletesNothing(false, token);
    DeletedGuildsAppend(before, start);
    DeletedGuildsAppend(before + start, [Logged(Warning)]);
    assert [Logged(Warning)][..0] == [];
    forall i | |before| <= i < |bot.trace| ensures bot.trace[i] != Logout {
      if i < |before| + |start| {
        assert bot.trace[i] == start[i - |before|];
      }
    }
  }
}
