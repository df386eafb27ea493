/**
 * The hosted worker that runs the newer bot: it reads the bot token from the
 * secrets manager, starts the bot, waits for cancellation and always stops the
 * bot on the way out. A missing token propagates before the bot is touched.
 */
module Worker {
  import opened Wrappers
  import opened Platform
  import opened BotPolicy
  import opened Secrets
  import BotService

  /** The key of the bot token in the configuration. */
  const TokenStringName: string := "DiscordToken"

  /** The calls one run of the worker makes on the bot when the token is `token`. */
  function WorkerEvents(running: bool, token: string, guilds: seq<Snowflake>): seq<Event> {
    StartEvents(running, token) + StopEvents(running, guilds)
  }

  /**
   * On a bot that is not running, a run logs in with the configured token and then,
   * since the running flag is never set, its stop only warns: no guild's commands
   * are deleted and the client is never logged out.
   */
  lemma WorkerRunOnStoppedBot(token: string, guilds: seq<Snowflake>)
    ensures |WorkerEvents(false, token, guilds)| == 13
    ensures WorkerEvents(false, token, guilds)[10] == Login(token)
    ensures WorkerEvents(false, token, guilds)[12] == Logged(Warning)
    ensures DeletedGuilds(WorkerEvents(false, token, guilds)) == []
    ensures forall i :: 0 <= i < |WorkerEvents(false, token, guilds)| ==> WorkerEvents(false, token, guilds)[i] != Logout
  {
    var start := StartEvents(false, token);
    StartWiringOrder(token);
    StopWhenStoppedMakesNoCalls(guilds);
    var t := WorkerEvents(false, token, guilds);
    assert t == start + [Logged(Warning)];
    forall i | 0 <= i < |t| ensures !t[i].DeleteGuildCommands? && t[i] != Logout {
      if i < 10 {
        assert t[i] == start[i];
      }
    }
    NoDeletions(t);
  }

  /**
   * `ExecuteAsync` with the cancellation wait left out: a missing token is the
   * error it propagates, before any call on the bot; otherwise the bot is started
   * with the token and then stopped.
   */
  method ExecuteAsync(secretsManager: SecretsManager, discordBot: BotService.DiscordBot, guilds: seq<Snowflake>)
    returns (outcome: Result<(), SecretError>)
    modifies discordBot
    ensures outcome.Err? <==> secretsManager.GetSecret(TokenStringName).None?
    ensures outcome.Err? ==> outcome.error == ArgumentNull(MissingSecretMessage(TokenStringName))
    ensures discordBot.isRunning == old(discordBot.isRunning)
    ensures outcome.Err? ==> discordBot.trace == old(discordBot.trace)
    ensures outcome.Ok? ==>
              discordBot.trace ==
              old(discordBot.trace) +
              WorkerEvents(old(discordBot.isRunning), secretsManager.GetSecret(TokenStringName).value, guilds)
  {
    var discordToken := secretsManager.GetRequiredSecret(TokenStringName);
    if discordToken.Err? {
      return Err(discordToken.error);
    }
    discordBot.StartAsync(discordToken.value);
    discordBot.StopAsync(guilds);
    outcome := Ok(());
  }
}
