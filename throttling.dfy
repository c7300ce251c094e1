/**
 * The per-command cooldown throttler of gweebot.
 *
 * A throttler holds a fixed configuration from command to cooldown (in
 * milliseconds) and a usage history from command to the instant it was
 * last used. A command is throttled while the current instant lies before
 * its last use plus its cooldown. The clock is not read here: every
 * operation takes the current epoch-millisecond instant `now` as an argument.
 */
module Throttling {
  import opened Wrappers

  /** A command as the bot sees it, including its leading `!`. */
  type Command = string

  /** Cooldown of the `!time` command, in milliseconds. */
  const TimeCooldown: int := 5000

  /** Cooldown of the `!version` command, in milliseconds. */
  const VersionCooldown: int := 10000

  /** The configuration every throttler is built with. */
  function DefaultConfig(): (config: map<Command, int>)
    ensures config.Keys == {"!time", "!version"}
    ensures config["!time"] == 5000 && config["!version"] == 10000
  {
    map["!time" := TimeCooldown, "!version" := VersionCooldown]
  }

  /** Why an operation of the throttler fails. */
  datatype ThrottleError =
    | NullCommand                       // the command argument is null
    | MissingCooldown(command: Command)  // tracked, but no cooldown is configured

  /**
   * What `throttleCommand` answers for `command` at instant `now`, given the
   * two maps. A command with no history entry is not throttled; one with an
   * entry but no configured cooldown makes the lookup of its cooldown fail.
   */
  function Throttled(config: map<Command, int>, history: map<Command, int>,
                     command: Option<Command>, now: int): (r: Result<bool, ThrottleError>)
    ensures r.Failure? <==> command.None? || (command.value in history && command.value !in config)
    ensures r == Success(true) <==>
              command.Some? && command.value in history && command.value in config &&
              now - history[command.value] < config[command.value]
    ensures r == Success(false) <==>
              command.Some? && (command.value !in history ||
                                (command.value in config && now - history[command.value] >= config[command.value]))
  {
    match command
    case None => Failure(NullCommand)
    case Some(c) =>
      if c !in history then Success(false)
      else if c !in config then Failure(MissingCooldown(c))
      else Success(now < history[c] + config[c])
  }

  /** One successful call of `trackCommandUsage`: which command, and when. */
  datatype Use = Use(command: Command, at: int)

  /** The history reached from `history` by tracking each use of `uses` in order. */
  ghost function Replay(history: map<Command, int>, uses: seq<Use>): map<Command, int>
    decreases |uses|
  {
    if uses == [] then history
    else
      var last := uses[|uses| - 1];
      Replay(history, uses[..|uses| - 1])[last.command := last.at]
  }

  /** The instant of the most recent use of `c` in `uses`, if there is one. */
  function LastUse(uses: seq<Use>, c: Command): Option<int>
    decreases |uses|
  {
    if uses == [] then None
    else if uses[|uses| - 1].command == c then Some(uses[|uses| - 1].at)
    else LastUse(uses[..|uses| - 1], c)
  }

  /**
   * The throttler itself. `uses` is the ghost log of every successful
   * `TrackCommandUsage` since construction; `Valid` says that the history is
   * exactly what that log produces and that the configuration is still the
   * one set up by the constructor.
   */
  class CommandThrottler {
    var config: map<Command, int>
    var history: map<Command, int>
    ghost var uses: seq<Use>

    ghost predicate Valid()
      reads this
    {
      config == DefaultConfig() && history == Replay(map[], uses)
    }

    /** Builds a throttler with the fixed configuration and an empty history. */
    constructor ()
      ensures Valid()
      ensures config == map["!time" := 5000, "!version" := 10000]
      ensures history == map[] && uses == []
    {
      var cooldowns := map["!time" := TimeCooldown];
      cooldowns := cooldowns["!version" := VersionCooldown];
      config := cooldowns;
      history := map[];
      uses := [];
    }

    /**
     * Records that `command` was used at `now`, overwriting any earlier
     * entry. A null command is rejected and changes nothing.
     */
    method TrackCommandUsage(command: Option<Command>, now: int) returns (r: Outcome<ThrottleError>)
      requires Valid()
      modifies this
      ensures Valid()
      ensures config == old(config)
      ensures command.None? ==> r == Fail(NullCommand) && history == old(history) && uses == old(uses)
      ensures command.Some? ==>
                r == Pass && history == old(history)[command.value := now] &&
                uses == old(uses) + [Use(command.value, now)]
    {
      if command.None? {
        return Fail(NullCommand);
      }
      ReplayStep(map[], uses, Use(command.value, now));
      history := history[command.value := now];
      uses := uses + [Use(command.value, now)];
      r := Pass;
    }

    /**
     * Whether `command` is throttled at `now`. It only reads the two maps,
     * so repeated calls with the same `now` give the same answer.
     */
    method ThrottleCommand(command: Option<Command>, now: int) returns (r: Result<bool, ThrottleError>)
      ensures r == Throttled(config, history, command, now)
    {
      if command.None? {
        return Failure(NullCommand);
      }
      var c := command.value;
      var throttle := false;
      if c in history {
        if c !in config {
          return Failure(MissingCooldown(c));
        }
        var throttleUntil := history[c] + config[c];
        throttle := now < throttleUntil;
      }
      r := Success(throttle);
    }
  }

  /** Tracking one more use extends the replayed history by one overwrite. */
  lemma ReplayStep(history: map<Command, int>, uses: seq<Use>, u: Use)
    ensures Replay(history, uses + [u]) == Replay(history, uses)[u.command := u.at]
  {
    assert (uses + [u])[..|uses|] == uses;
  }

  /**
   * After any sequence of uses, a command's history entry is the instant of
   * its most recent use; a command never used keeps its earlier entry, or
   * has none.
   */
  lemma {:induction false} ReplayLastUse(history: map<Command, int>, uses: seq<Use>, c: Command)
    ensures c in Replay(history, uses) <==> c in history || LastUse(uses, c).Some?
    ensures LastUse(uses, c).Some? ==> Replay(history, uses)[c] == LastUse(uses, c).value
    ensures LastUse(uses, c).None? && c in history ==> Replay(history, uses)[c] == history[c]
    decreases |uses|
  {
    if uses != [] {
      ReplayLastUse(history, uses[..|uses| - 1], c);
    }
  }

  /** A command that has no history entry is never throttled, configured or not. */
  lemma NoHistoryNotThrottled(config: map<Command, int>, history: map<Command, int>, c: Command, now: int)
    requires c !in history
    ensures Throttled(config, history, Some(c), now) == Success(false)
  {
  }

  /** The query rejects a null command (tracking rejects it too, see `TrackCommandUsage`). */
  lemma NullCommandRejected(config: map<Command, int>, history: map<Command, int>, now: int)
    ensures Throttled(config, history, None, now) == Failure(NullCommand)
  {
  }

  /**
   * A command with a history entry but no configured cooldown makes the
   * query fail rather than answer.
   */
  lemma UnconfiguredTrackedFails(config: map<Command, int>, history: map<Command, int>, c: Command, now: int)
    requires c in history && c !in config
    ensures Throttled(config, history, Some(c), now) == Failure(MissingCooldown(c))
  {
  }

  /** After tracking `c` at `t0`, `c` is throttled at `now` exactly when `now < t0 + cooldown`. */
  lemma TrackedThrottledIff(config: map<Command, int>, history: map<Command, int>, c: Command, t0: int, now: int)
    requires c in config
    ensures Throttled(config, history[c := t0], Some(c), now) == Success(now < t0 + config[c])
  {
  }

  /** Tracking one command does not change the answer for any other command. */
  lemma TrackLeavesOthers(config: map<Command, int>, history: map<Command, int>,
                          c: Command, t0: int, d: Option<Command>, now: int)
    requires d != Some(c)
    ensures Throttled(config, history[c := t0], d, now) == Throttled(config, history, d, now)
  {
  }

  /**
   * The cooldown window: after a use at `t0` with cooldown `T`, the command
   * is throttled at every instant before `t0 + T` (in particular on
   * `[t0, t0 + T)`) and free from `t0 + T` on.
   */
  lemma CooldownWindow(config: map<Command, int>, history: map<Command, int>, c: Command, t0: int, now: int)
    requires c in config
    ensures Throttled(config, history[c := t0], Some(c), now) == Success(true) <==> now < t0 + config[c]
    ensures Throttled(config, history[c := t0], Some(c), now) == Success(false) <==> t0 + config[c] <= now
  {
  }

  /**
   * The boundary instants of a cooldown of at least one millisecond:
   * throttled at `t0` and at `t0 + T - 1`, free at `t0 + T` and `t0 + T + 1`.
   */
  lemma CooldownBoundary(config: map<Command, int>, history: map<Command, int>, c: Command, t0: int)
    requires c in config && config[c] >= 1
    ensures Throttled(config, history[c := t0], Some(c), t0) == Success(true)
    ensures Throttled(config, history[c := t0], Some(c), t0 + config[c] - 1) == Success(true)
    ensures Throttled(config, history[c := t0], Some(c), t0 + config[c]) == Success(false)
    ensures Throttled(config, history[c := t0], Some(c), t0 + config[c] + 1) == Success(false)
  {
  }

  /**
   * From a freshly built throttler, after any sequence of uses, the answer
   * for `c` depends only on its most recent use: none means not throttled,
   * otherwise the cooldown rule applies to that instant, and a command
   * outside the configuration fails.
   */
  lemma {:induction false} ThrottledAfterUses(uses: seq<Use>, c: Command, now: int)
    ensures LastUse(uses, c).None? ==>
              Throttled(DefaultConfig(), Replay(map[], uses), Some(c), now) == Success(false)
    ensures LastUse(uses, c).Some? && c in DefaultConfig() ==>
              Throttled(DefaultConfig(), Replay(map[], uses), Some(c), now)
                == Success(now < LastUse(uses, c).value + DefaultConfig()[c])
    ensures LastUse(uses, c).Some? && c !in DefaultConfig() ==>
              Throttled(DefaultConfig(), Replay(map[], uses), Some(c), now) == Failure(MissingCooldown(c))
  {
    ReplayLastUse(map[], uses, c);
  }

  /** A fresh throttler throttles nothing. */
  lemma FreshNotThrottled(c: Command, now: int)
    ensures Throttled(DefaultConfig(), map[], Some(c), now) == Success(false)
  {
  }

  /**
   * The scenario of the unit tests with the built-in `!time` command: used at
   * `t0`, it is throttled at `t0`, `t0 + 1` and `t0 + 4999`, and free at
   * `t0 + 5000` and `t0 + 5001`.
   */
  method TimeCommandScenario(t0: int)
    returns (atUse: Result<bool, ThrottleError>, justAfter: Result<bool, ThrottleError>,
             lastMs: Result<bool, ThrottleError>, atExpiry: Result<bool, ThrottleError>,
             wellAfter: Result<bool, ThrottleError>)
    ensures atUse == justAfter == lastMs == Success(true)
    ensures atExpiry == wellAfter == Success(false)
  {
    var t := new CommandThrottler();
    var _ := t.TrackCommandUsage(Some("!time"), t0);
    atUse := t.ThrottleCommand(Some("!time"), t0);
    justAfter := t.ThrottleCommand(Some("!time"), t0 + 1);
    lastMs := t.ThrottleCommand(Some("!time"), t0 + 4999);
    atExpiry := t.ThrottleCommand(Some("!time"), t0 + 5000);
    wellAfter := t.ThrottleCommand(Some("!time"), t0 + 5001);
  }

  /**
   * A command outside the configuration: a fresh throttler answers `false`
   * for it, and once it has been tracked the query fails.
   */
  method UnconfiguredCommandScenario(t0: int, now: int)
    returns (before: Result<bool, ThrottleError>, after: Result<bool, ThrottleError>)
    ensures before == Success(false)
    ensures after == Failure(MissingCooldown("!unknown"))
  {
    var t := new CommandThrottler();
    before := t.ThrottleCommand(Some("!unknown"), t0);
    var _ := t.TrackCommandUsage(Some("!unknown"), t0);
    after := t.ThrottleCommand(Some("!unknown"), now);
  }

  /**
   * Querying twice with no tracking in between gives the same answer and
   * leaves both maps as they were.
   */
  method ThrottleCommandRepeatable(t: CommandThrottler, command: Option<Command>, now: int)
    returns (first: Result<bool, ThrottleError>, second: Result<bool, ThrottleError>)
    ensures first == second
    ensures first == Throttled(t.config, t.history, command, now)
  {
    first := t.ThrottleCommand(command, now);
    second := t.ThrottleCommand(command, now);
  }
}
