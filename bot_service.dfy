/**
 * The newer `DiscordBot` (namespace DiscordBotService.Discord): it splits the
 * discovered command modules into a Global and a Guild set by an exact-type check
 * for the marker attribute, registers the Global set platform-wide on "ready" and
 * then the Guild set into each joined guild.
 */
module BotService {
  import opened Wrappers
  import opened Platform
  import opened BotPolicy

  /** The full name of the marker type `GlobalModuleAttribute` of the command assembly. */
  const GlobalModuleAttributeType: string := "DiscordBotCommands.Attributes.GlobalModuleAttribute"

  /** The Global/Guild pair of module lists (the `DiscordModules` struct). */
  datatype DiscordModules = DiscordModules(Global: seq<ModuleInfo>, Guild: seq<ModuleInfo>)

  /** Some attribute of the module has exactly the marker type (a derived type does not count). */
  predicate HasGlobalMarker(m: ModuleInfo) {
    exists i :: 0 <= i < |m.attributes| && m.attributes[i].typeName == GlobalModuleAttributeType
  }

  // ---------------------------------------------------------------------------
  // Classification
  // ---------------------------------------------------------------------------

  /** The lists `GetDiscordModulesAsync` builds: each module appended to Global or to Guild, in discovery order. */
  function Partition(modules: seq<ModuleInfo>): DiscordModules
    decreases |modules|
  {
    if modules == [] then DiscordModules([], [])
    else
      var p := Partition(modules[..|modules| - 1]);
      var m := modules[|modules| - 1];
      if HasGlobalMarker(m) then DiscordModules(p.Global + [m], p.Guild)
      else DiscordModules(p.Global, p.Guild + [m])
  }

  /** `modules` is an interleaving of `g` and `h`: every position of `modules` goes to exactly one of them, in order. */
  predicate Interleaves(modules: seq<ModuleInfo>, g: seq<ModuleInfo>, h: seq<ModuleInfo>)
    decreases |modules|
  {
    if modules == [] then g == [] && h == []
    else
      var m := modules[|modules| - 1];
      (g != [] && g[|g| - 1] == m && Interleaves(modules[..|modules| - 1], g[..|g| - 1], h)) ||
      (h != [] && h[|h| - 1] == m && Interleaves(modules[..|modules| - 1], g, h[..|h| - 1]))
  }

  /** The partition keeps every discovered module exactly once and keeps discovery order within each list. */
  lemma {:induction false} PartitionInterleaves(modules: seq<ModuleInfo>)
    ensures Interleaves(modules, Partition(modules).Global, Partition(modules).Guild)
    decreases |modules|
  {
    if modules != [] {
      var front := modules[..|modules| - 1];
      PartitionInterleaves(front);
      var p := Partition(front);
      assert (p.Global + [modules[|modules| - 1]])[..|p.Global|] == p.Global;
      assert (p.Guild + [modules[|modules| - 1]])[..|p.Guild|] == p.Guild;
    }
  }

  /** Global holds only marked modules and Guild only unmarked ones. */
  lemma {:induction false} PartitionClassifies(modules: seq<ModuleInfo>)
    ensures forall i :: 0 <= i < |Partition(modules).Global| ==> HasGlobalMarker(Partition(modules).Global[i])
    ensures forall i :: 0 <= i < |Partition(modules).Guild| ==> !HasGlobalMarker(Partition(modules).Guild[i])
    decreases |modules|
  {
    if modules != [] {
      PartitionClassifies(modules[..|modules| - 1]);
    }
  }

  /** An interleaving puts every element into exactly one side. */
  lemma {:induction false} InterleavesMultiset(modules: seq<ModuleInfo>, g: seq<ModuleInfo>, h: seq<ModuleInfo>)
    requires Interleaves(modules, g, h)
    ensures multiset(modules) == multiset(g) + multiset(h)
    decreases |modules|
  {
    if modules != [] {
      var front := modules[..|modules| - 1];
      var m := modules[|modules| - 1];
      assert modules == front + [m];
      if g != [] && g[|g| - 1] == m && Interleaves(front, g[..|g| - 1], h) {
        InterleavesMultiset(front, g[..|g| - 1], h);
        assert g == g[..|g| - 1] + [m];
      } else {
        InterleavesMultiset(front, g, h[..|h| - 1]);
        assert h == h[..|h| - 1] + [m];
      }
    }
  }

  /**
   * Classification is a total partition: a discovered module lies in Global
   * exactly when it is marked and in Guild exactly when it is not, and the two
   * lists together hold each discovered module as often as discovery returned it.
   */
  lemma PartitionIsTotal(modules: seq<ModuleInfo>)
    ensures multiset(modules) == multiset(Partition(modules).Global) + multiset(Partition(modules).Guild)
    ensures forall m :: m in modules ==> (m in Partition(modules).Global <==> HasGlobalMarker(m))
    ensures forall m :: m in modules ==> (m in Partition(modules).Guild <==> !HasGlobalMarker(m))
    ensures forall m :: m in Partition(modules).Global || m in Partition(modules).Guild ==> m in modules
  {
    var p := Partition(modules);
    PartitionInterleaves(modules);
    InterleavesMultiset(modules, p.Global, p.Guild);
    PartitionClassifies(modules);
    forall m | m in modules
      ensures m in p.Global <==> HasGlobalMarker(m)
      ensures m in p.Guild <==> !HasGlobalMarker(m)
    {
      assert m in multiset(modules);
      if m in p.Global {
        var i :| 0 <= i < |p.Global| && p.Global[i] == m;
      }
      if m in p.Guild {
        var i :| 0 <= i < |p.Guild| && p.Guild[i] == m;
      }
    }
    forall m | m in p.Global || m in p.Guild ensures m in modules {
      assert m in multiset(p.Global) || m in multiset(p.Guild);
      assert m in multiset(modules);
    }
  }

  /** Any order-preserving split into marked and unmarked modules is the partition itself. */
  lemma {:induction false} PartitionUnique(modules: seq<ModuleInfo>, g: seq<ModuleInfo>, h: seq<ModuleInfo>)
    requires Interleaves(modules, g, h)
    requires forall i :: 0 <= i < |g| ==> HasGlobalMarker(g[i])
    requires forall i :: 0 <= i < |h| ==> !HasGlobalMarker(h[i])
    ensures Partition(modules) == DiscordModules(g, h)
    decreases |modules|
  {
    if modules != [] {
      var front := modules[..|modules| - 1];
      var m := modules[|modules| - 1];
      if HasGlobalMarker(m) {
        assert !(h != [] && h[|h| - 1] == m);
        PartitionUnique(front, g[..|g| - 1], h);
        assert g == g[..|g| - 1] + [m];
      } else {
        assert !(g != [] && g[|g| - 1] == m);
        PartitionUnique(front, g, h[..|h| - 1]);
        assert h == h[..|h| - 1] + [m];
      }
    }
  }

  // ---------------------------------------------------------------------------
  // Registration on "ready"
  // ---------------------------------------------------------------------------

  /** One reconciling registration of `modules` into each guild, in guild order. */
  function GuildRegistrations(guilds: seq<Snowflake>, modules: seq<ModuleInfo>): seq<Event>
    decreases |guilds|
  {
    if guilds == [] then []
    else GuildRegistrations(guilds[..|guilds| - 1], modules) + [RegisterGuild(guilds[|guilds| - 1], true, modules)]
  }

  /** The events of `AddModulesToGuildsAsync`: discovery, the global registration, then the per-guild ones. */
  function ReadyEvents(discovered: seq<ModuleInfo>, guilds: seq<Snowflake>): seq<Event> {
    [DiscoverModules(CommandAssembly), RegisterGlobal(true, Partition(discovered).Global)] +
    GuildRegistrations(guilds, Partition(discovered).Guild)
  }

  /** Position k registers `modules` into the k-th guild. */
  lemma {:induction false} GuildRegistrationsLayout(guilds: seq<Snowflake>, modules: seq<ModuleInfo>)
    ensures |GuildRegistrations(guilds, modules)| == |guilds|
    ensures forall k :: 0 <= k < |guilds| ==> GuildRegistrations(guilds, modules)[k] == RegisterGuild(guilds[k], true, modules)
    decreases |guilds|
  {
    if guilds != [] {
      var front := guilds[..|guilds| - 1];
      GuildRegistrationsLayout(front, modules);
      forall k | 0 <= k < |front| ensures front[k] == guilds[k] { }
    }
  }

  /** The per-guild registrations name exactly the joined guilds, in order, and register nothing globally. */
  lemma {:induction false} GuildRegistrationsRegisterEachGuild(guilds: seq<Snowflake>, modules: seq<ModuleInfo>)
    ensures RegisteredGuilds(GuildRegistrations(guilds, modules)) == guilds
    ensures GlobalRegistrations(GuildRegistrations(guilds, modules)) == 0
    decreases |guilds|
  {
    if guilds != [] {
      var front := guilds[..|guilds| - 1];
      var e := RegisterGuild(guilds[|guilds| - 1], true, modules);
      GuildRegistrationsRegisterEachGuild(front, modules);
      RegisteredGuildsAppend(GuildRegistrations(front, modules), [e]);
      GlobalRegistrationsAppend(GuildRegistrations(front, modules), [e]);
      assert [e][..0] == [];
      assert guilds == front + [guilds[|guilds| - 1]];
    }
  }

  /** Position 1 is the global registration and position k + 2 registers the Guild set into the k-th guild. */
  lemma ReadyLayout(discovered: seq<ModuleInfo>, guilds: seq<Snowflake>)
    ensures |ReadyEvents(discovered, guilds)| == |guilds| + 2
    ensures ReadyEvents(discovered, guilds)[0] == DiscoverModules(CommandAssembly)
    ensures ReadyEvents(discovered, guilds)[1] == RegisterGlobal(true, Partition(discovered).Global)
    ensures forall k :: 0 <= k < |guilds| ==>
              ReadyEvents(discovered, guilds)[k + 2] == RegisterGuild(guilds[k], true, Partition(discovered).Guild)
  {
    var p := Partition(discovered);
    var head := [DiscoverModules(CommandAssembly), RegisterGlobal(true, p.Global)];
    var regs := GuildRegistrations(guilds, p.Guild);
    GuildRegistrationsLayout(guilds, p.Guild);
    forall k | 0 <= k < |guilds| ensures (head + regs)[k + 2] == regs[k] { }
  }

  /** The ready events register globally once and register the joined guilds in order. */
  lemma ReadyCounts(discovered: seq<ModuleInfo>, guilds: seq<Snowflake>)
    ensures GlobalRegistrations(ReadyEvents(discovered, guilds)) == 1
    ensures RegisteredGuilds(ReadyEvents(discovered, guilds)) == guilds
  {
    var p := Partition(discovered);
    var head := [DiscoverModules(CommandAssembly), RegisterGlobal(true, p.Global)];
    var regs := GuildRegistrations(guilds, p.Guild);
    GuildRegistrationsRegisterEachGuild(guilds, p.Guild);
    RegisteredGuildsAppend(head, regs);
    GlobalRegistrationsAppend(head, regs);
    assert head[..1] == [DiscoverModules(CommandAssembly)];
    assert head[..1][..0] == [];
  }

  /**
   * On ready there is exactly one global registration, of the Global set with
   * deleteMissing, and it comes before every guild registration; then each joined
   * guild receives exactly one registration of the Guild set with deleteMissing,
   * in guild order.
   */
  lemma ReadyRegistrationOrder(discovered: seq<ModuleInfo>, guilds: seq<Snowflake>)
    ensures GlobalRegistrations(ReadyEvents(discovered, guilds)) == 1
    ensures forall i :: 0 <= i < |ReadyEvents(discovered, guilds)| && ReadyEvents(discovered, guilds)[i].RegisterGlobal? ==> i == 1
    ensures forall i :: 0 <= i < |ReadyEvents(discovered, guilds)| && ReadyEvents(discovered, guilds)[i].RegisterGuild? ==> i > 1
    ensures RegisteredGuilds(ReadyEvents(discovered, guilds)) == guilds
  {
    ReadyCounts(discovered, guilds);
    ReadyLayout(discovered, guilds);
    var t := ReadyEvents(discovered, guilds);
    forall i | 2 <= i < |t| ensures t[i].RegisterGuild? {
      var k := i - 2;
      assert t[k + 2] == RegisterGuild(guilds[k], true, Partition(discovered).Guild);
    }
  }

  // ---------------------------------------------------------------------------
  // The bot
  // ---------------------------------------------------------------------------

  /**
   * The lifecycle and interaction handlers. `trace` records every external call;
   * the joined guilds and the discovered modules are given to the handlers that
   * read them. Nothing assigns `isRunning`, so it keeps its initial `false`.
   */
  class DiscordBot {
    var isRunning: bool
    ghost var trace: seq<Event>

    constructor ()
      ensures !isRunning && trace == []
    {
      isRunning := false;
      trace := [];
    }

    method StartAsync(token: string)
      modifies this
      ensures isRunning == old(isRunning)
      ensures trace == old(trace) + StartEvents(old(isRunning), token)
    {
      if isRunning {
        trace := trace + [Logged(Warning)];
        return;
      }
      trace := trace + ClientSubscriptions();
      AddInteractionServiceCallbacks();
      trace := trace + [Login(token)];
      trace := trace + [StartClient];
    }

    method AddInteractionServiceCallbacks()
      modifies this
      ensures isRunning == old(isRunning)
      ensures trace == old(trace) + CallbackSubscriptions()
    {
      trace := trace + CallbackSubscriptions();
    }

    method StopAsync(guilds: seq<Snowflake>)
      modifies this
      ensures isRunning == old(isRunning)
      ensures trace == old(trace) + StopEvents(old(isRunning), guilds)
    {
      if !isRunning {
        trace := trace + [Logged(Warning)];
        return;
      }
      for i := 0 to |guilds|
        invariant isRunning == old(isRunning)
        invariant trace == old(trace) + GuildDeletions(guilds[..i])
      {
        assert guilds[..i + 1][..i] == guilds[..i];
        trace := trace + [DeleteGuildCommands(guilds[i])];
        trace := trace + [Delay(StopDelayMs)];
      }
      assert guilds[..|guilds|] == guilds;
      trace := trace + [Logout];
      trace := trace + [StopClient];
    }

    /** Has exactly the effect of `StopAsync`. */
    method DisposeAsync(guilds: seq<Snowflake>)
      modifies this
      ensures isRunning == old(isRunning)
      ensures trace == old(trace) + StopEvents(old(isRunning), guilds)
    {
      StopAsync(guilds);
    }

    method OnClientIsReadyAsync(discovered: seq<ModuleInfo>, guilds: seq<Snowflake>)
      modifies this
      ensures isRunning == old(isRunning)
      ensures trace == old(trace) + ReadyEvents(discovered, guilds)
    {
      AddModulesToGuildsAsync(discovered, guilds);
    }

    method AddModulesToGuildsAsync(discovered: seq<ModuleInfo>, guilds: seq<Snowflake>)
      modifies this
      ensures isRunning == old(isRunning)
      ensures trace == old(trace) + ReadyEvents(discovered, guilds)
    {
      var discordModules := GetDiscordModulesAsync(discovered);
      trace := trace + [RegisterGlobal(true, discordModules.Global)];
      for i := 0 to |guilds|
        invariant isRunning == old(isRunning)
        invariant trace == old(trace) + [DiscoverModules(CommandAssembly), RegisterGlobal(true, discordModules.Global)] +
                           GuildRegistrations(guilds[..i], discordModules.Guild)
      {
        assert guilds[..i + 1][..i] == guilds[..i];
        trace := trace + [RegisterGuild(guilds[i], true, discordModules.Guild)];
      }
      assert guilds[..|guilds|] == guilds;
    }

    /** Records the discovery call and splits the discovered modules, in order. */
    method GetDiscordModulesAsync(discovered: seq<ModuleInfo>) returns (modules: DiscordModules)
      modifies this
      ensures isRunning == old(isRunning)
      ensures trace == old(trace) + [DiscoverModules(CommandAssembly)]
      ensures modules == Partition(discovered)
    {
      var globalModules: seq<ModuleInfo> := [];
      var guildModules: seq<ModuleInfo> := [];
      trace := trace + [DiscoverModules(CommandAssembly)];
      for i := 0 to |discovered|
        invariant isRunning == old(isRunning)
        invariant trace == old(trace) + [DiscoverModules(CommandAssembly)]
        invariant DiscordModules(globalModules, guildModules) == Partition(discovered[..i])
      {
        assert discovered[..i + 1][..i] == discovered[..i];
        var isGlobal := IsModuleGlobal(discovered[i]);
        if isGlobal {
          globalModules := globalModules + [discovered[i]];
        } else {
          guildModules := guildModules + [discovered[i]];
        }
      }
      assert discovered[..|discovered|] == discovered;
      modules := DiscordModules(globalModules, guildModules);
    }

    /** Scans the attributes and stops at the first one whose exact type is the marker. */
    static method IsModuleGlobal(moduleInfo: ModuleInfo) returns (isGlobal: bool)
      ensures isGlobal == HasGlobalMarker(moduleInfo)
    {
      for i := 0 to |moduleInfo.attributes|
        invariant forall j :: 0 <= j < i ==> moduleInfo.attributes[j].typeName != GlobalModuleAttributeType
      {
        if moduleInfo.attributes[i].typeName == GlobalModuleAttributeType {
          return true;
        }
      }
      return false;
    }

    /** Adds the commands to the new guild; the returned task is not awaited. */
    method OnJoinedGuild(guild: Snowflake)
      modifies this
      ensures isRunning == old(isRunning)
      ensures trace == old(trace) + [AddCommandsToGuild(guild)]
    {
      trace := trace + [AddCommandsToGuild(guild)];
    }

    /**
     * `executeThrows` is whether `ExecuteCommandAsync` throws; the exception is caught
     * here. `fetchYieldsMessage` is whether `GetOriginalResponseAsync` completes with a
     * message; only then does the continuation delete it.
     */
    method OnInteractionCreatedAsync(interaction: Interaction, executeThrows: bool, fetchYieldsMessage: bool)
      modifies this
      ensures isRunning == old(isRunning)
      ensures trace == old(trace) + DispatchEvents(interaction, executeThrows, fetchYieldsMessage)
    {
      trace := trace + [ExecuteCommand(interaction.id)];
      if executeThrows {
        trace := trace + [Logged(Error)];
        if interaction.kind == ApplicationCommand {
          trace := trace + [GetOriginalResponse(interaction.id)];
          if fetchYieldsMessage {
            trace := trace + [DeleteOriginalResponse(interaction.id)];
          }
        }
      }
    }

    /** `now` is the clock reading in whole seconds. */
    method HandleInteractionExecutedAsync(interaction: Interaction, result: InteractionResult, now: int)
      modifies this
      ensures isRunning == old(isRunning)
      ensures trace == old(trace) + ExecutedEvents(interaction, result, now)
    {
      if result.isSuccess {
        return;
      }
      HandleInteractionErrorAsync(interaction, result, now);
    }

    method HandleInteractionErrorAsync(interaction: Interaction, result: InteractionResult, now: int)
      modifies this
      ensures isRunning == old(isRunning)
      ensures trace == old(trace) + FailureEvents(interaction, result, now)
    {
      var resultErrorMessage := GetResultErrorString(result);
      trace := trace + [LoggedFailure(resultErrorMessage)];
      if interaction.hasResponded {
        trace := trace + [Logged(Error)];
        return;
      }
      var seconds := SecondsComponent(now - interaction.createdAt);
      if seconds >= 2 {
        trace := trace + [Logged(Error)];
        return;
      }
      trace := trace + [Respond(interaction.id, FallbackText)];
    }

    /** Forwards a transport log message; an unnamed severity throws out of the handler. */
    method OnClientLog(severity: LogSeverity) returns (outcome: Result<(), SeverityException>)
      modifies this
      ensures isRunning == old(isRunning)
      ensures trace == old(trace) + ClientLogEvents(severity)
      ensures outcome.Ok? <==> IsKnownSeverity(severity)
      ensures outcome.Err? ==> outcome.error == ArgumentOutOfRange("logSeverity", severity)
    {
      var level := GetLogLevelFromDiscordLogSeverity(severity);
      match level
      case Ok(l) =>
        trace := trace + [ForwardedLog(l)];
        outcome := Ok(());
      case Err(e) =>
        outcome := Err(e);
    }
  }

  // ---------------------------------------------------------------------------
  // Concrete cases
  // ---------------------------------------------------------------------------

  /** The `DebugCommands` module: its class carries the marker. */
  const DebugCommands: ModuleInfo := ModuleInfo("DebugCommands", [AttributeInfo(GlobalModuleAttributeType, ["System.Attribute"])])

  lemma DebugCommandsIsGlobal()
    ensures HasGlobalMarker(DebugCommands)
  {
    assert DebugCommands.attributes[0].typeName == GlobalModuleAttributeType;
  }

  /** An attribute derived from the marker, or the older project's marker type of the same simple name, does not make a module global. */
  lemma ExactTypeOnly()
    ensures !HasGlobalMarker(ModuleInfo("Derived", [AttributeInfo("Commands.MyGlobalAttribute", [GlobalModuleAttributeType])]))
    ensures !HasGlobalMarker(ModuleInfo("Legacy", [AttributeInfo("DiscordBotService.Discord.GlobalModuleAttribute", ["System.Attribute"])]))
  {
  }

  /**
   * Three discovered modules, one marked, and two joined guilds: one global
   * registration of the marked module and one registration of the other two per guild.
   */
  lemma ReadyScenario(a: ModuleInfo, b: ModuleInfo, g1: Snowflake, g2: Snowflake)
    requires !HasGlobalMarker(a) && !HasGlobalMarker(b)
    ensures ReadyEvents([DebugCommands, a, b], [g1, g2]) ==
              [DiscoverModules(CommandAssembly), RegisterGlobal(true, [DebugCommands]),
               RegisterGuild(g1, true, [a, b]), RegisterGuild(g2, true, [a, b])]
  {
    DebugCommandsIsGlobal();
    var ms := [DebugCommands, a, b];
    assert ms[..2] == [DebugCommands, a];
    assert ms[..2][..1] == [DebugCommands];
    assert [DebugCommands][..0] == [];
    assert Partition([]) == DiscordModules([], []);
    assert Partition([DebugCommands]) == DiscordModules([DebugCommands], []);
    assert Partition([DebugCommands, a]) == DiscordModules([DebugCommands], [a]);
    assert Partition(ms) == DiscordModules([DebugCommands], [a, b]);
    assert [g1, g2][..1] == [g1];
    assert [g1][..0] == [];
    assert GuildRegistrations([g1], [a, b]) == [RegisterGuild(g1, true, [a, b])];
    assert GuildRegistrations([g1, g2], [a, b]) == [RegisterGuild(g1, true, [a, b]), RegisterGuild(g2, true, [a, b])];
  }

  /**
   * The flag is never set: on a stopped bot a second start wires and logs in again,
   * and a stop after both starts only warns, deleting no guild's commands.
   */
  method StartTwiceThenStop(bot: DiscordBot, token: string, guilds: seq<Snowflake>)
    requires !bot.isRunning
    modifies bot
    ensures !bot.isRunning
    ensures bot.trace == old(bot.trace) + StartEvents(false, token) + StartEvents(false, token) + [Logged(Warning)]
    ensures bot.trace[|old(bot.trace)| + 10] == Login(token) && bot.trace[|old(bot.trace)| + 22] == Login(token)
    ensures DeletedGuilds(bot.trace) == DeletedGuilds(old(bot.trace))
  {
    ghost var before := bot.trace;
    ghost var start := StartEvents(false, token);
    bot.StartAsync(token);
    bot.StartAsync(token);
    bot.StopAsync(guilds);
    StartWiringOrder(token);
    StartDeletesNothing(false, token);
    DeletedGuildsAppend(before, start);
    DeletedGuildsAppend(before + start, start);
    DeletedGuildsAppend(before + start + start, [Logged(Warning)]);
    assert [Logged(Warning)][..0] == [];
  }
}
