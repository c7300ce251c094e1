# gweebot command throttler and listener, modelled in Dafny

gweebot is a chat bot that answers two commands on a channel, `!time` and
`!version`. This project models its two pieces of logic:

- **The command throttler** (`CommandThrottler`). It keeps a fixed map from
  command to cooldown in milliseconds (`!time` 5000 ms, `!version` 10000 ms)
  and a usage history from command to the instant it was last used.
  `trackCommandUsage` overwrites a command's history entry with the current
  instant. `throttleCommand` answers whether the current instant is strictly
  before last use plus cooldown. So a command used at `t0` with cooldown `T`
  is throttled on `[t0, t0 + T)` and free from `t0 + T` on.
  `Throttling.CommandThrottler` is a class with the two maps as fields and a
  ghost log `uses` of every tracked use. Its invariant `Valid` says that the
  configuration is still the constructor's and that the history is what the
  log replays to (`Replay`). The pure function `Throttling.Throttled` states
  the query over the two maps; the lemmas beside it state the cooldown rule.
- **The message decision** of the listener (`CommandListener.onMessage`).
  A message equal to `!time` ignoring case selects a plain message with the
  formatted time. A message equal to `!version` ignoring case selects an
  action `v` followed by the bot's version. Anything else selects nothing.
  `Listener.OnMessage` is a pure function from the message text to an
  optional `Reply`. The formatted time and the package version are inputs.
  `GweeBot.GetVersion` gives the fallback `0.0.0+DEFAULT`.

Inputs that the source reads from its environment:

- the current instant (`System.currentTimeMillis()`) is the `now` parameter of
  both throttler operations;
- the formatted date of the `!time` reply is the opaque `time` parameter;
- the package's implementation version is the `packageVersion` parameter,
  `None` when the metadata has none.

A Java `null` command is `None` of `Option<Command>`. The throttler rejects it
with `NullCommand`: the map raises on a null key. The exception type is not
modelled.

Two behaviours of the code that the model keeps as they are:

- A tracked command with no configured cooldown makes `config.get` return
  `null`, and unboxing it fails. The model returns
  `Failure(MissingCooldown(c))` in that case (`UnconfiguredTrackedFails`,
  `UnconfiguredCommandScenario`).
- The empty string `""` is an ordinary key of both maps.

The listener compares the whole message against two literals and never calls
the throttler. No first-word dispatcher exists, and none is modelled.

## Model

| member | source | states |
|---|---|---|
| Throttling.DefaultConfig | src/main/java/ca/jessewebb/gweebot/CommandThrottler.java:32-34 | the configuration has exactly the keys `!time` and `!version`, with cooldowns 5000 and 10000 ms |
| Throttling.Throttled | src/main/java/ca/jessewebb/gweebot/CommandThrottler.java:42-49 | the query fails exactly for a null command or a tracked command with no cooldown; it answers `true` exactly when the time elapsed since the last use is below the cooldown, and `false` exactly when there is no entry or the elapsed time has reached the cooldown |
| Throttling.CommandThrottler.constructor | src/main/java/ca/jessewebb/gweebot/CommandThrottler.java:31-36 | a new throttler has config exactly `{!time: 5000, !version: 10000}`, an empty history and the invariant |
| Throttling.CommandThrottler.TrackCommandUsage | src/main/java/ca/jessewebb/gweebot/CommandThrottler.java:38-40 | sets `history[c] := now`, overwriting any earlier entry; nothing else changes; config is untouched; a null command fails and changes nothing; the invariant is kept |
| Throttling.CommandThrottler.ThrottleCommand | src/main/java/ca/jessewebb/gweebot/CommandThrottler.java:42-49 | changes no state (no modifies clause) and answers exactly `Throttled` of the current maps |
| Throttling.ReplayStep | src/main/java/ca/jessewebb/gweebot/CommandThrottler.java:39 | one more tracked use overwrites one entry of the replayed history |
| Throttling.ReplayLastUse | src/main/java/ca/jessewebb/gweebot/CommandThrottler.java:38-40 | after any sequence of uses, the history entry of `c` is the instant of its most recent use; unused commands keep their earlier entry, or have none |
| Throttling.NoHistoryNotThrottled | src/main/java/ca/jessewebb/gweebot/CommandThrottler.java:43-44 | a command with no history entry is not throttled, configured or not |
| Throttling.FreshNotThrottled | src/test/java/ca/jessewebb/gweebot/CommandThrottlerTest.java:68-77 | a freshly built throttler throttles no command |
| Throttling.NullCommandRejected | src/test/java/ca/jessewebb/gweebot/CommandThrottlerTest.java:58-66 | the query rejects a null command with `NullCommand` |
| Throttling.UnconfiguredTrackedFails | src/main/java/ca/jessewebb/gweebot/CommandThrottler.java:44-45 | a command in history but not in config makes the query fail with `MissingCooldown`, never answer `false` |
| Throttling.TrackedThrottledIff | src/main/java/ca/jessewebb/gweebot/CommandThrottler.java:45-46 | after tracking `c` at `t0`, the query at `now` answers exactly `now < t0 + config[c]` |
| Throttling.TrackLeavesOthers | src/main/java/ca/jessewebb/gweebot/CommandThrottler.java:38-40 | tracking `c` does not change the answer for any other command, including null |
| Throttling.CooldownWindow | src/test/java/ca/jessewebb/gweebot/CommandThrottlerTest.java:80-129 | after a use at `t0`, throttled iff `now < t0 + T` (so on all of `[t0, t0 + T)`), free iff `now >= t0 + T` |
| Throttling.CooldownBoundary | src/test/java/ca/jessewebb/gweebot/CommandThrottlerTest.java:98-129 | for `T >= 1`: throttled at `t0` and `t0 + T - 1`, free at `t0 + T` and `t0 + T + 1` |
| Throttling.ThrottledAfterUses | src/main/java/ca/jessewebb/gweebot/CommandThrottler.java:31-49 | from a fresh throttler and any uses: no use of `c` means not throttled; otherwise the cooldown rule applies to its last use; an unconfigured used command fails |
| Throttling.TimeCommandScenario | src/test/java/ca/jessewebb/gweebot/CommandThrottlerTest.java:80-129 | with the real `!time` cooldown, used at `t0`: throttled at `t0`, `t0+1`, `t0+4999`; free at `t0+5000`, `t0+5001` |
| Throttling.UnconfiguredCommandScenario | src/main/java/ca/jessewebb/gweebot/CommandThrottler.java:43-45 | `!unknown` is not throttled on a fresh throttler, and once tracked its query fails with `MissingCooldown` |
| Throttling.ThrottleCommandRepeatable | src/main/java/ca/jessewebb/gweebot/CommandThrottler.java:42-49 | two queries with the same `now` and no tracking between give the same answer |
| GweeBot.GetVersion | src/main/java/ca/jessewebb/gweebot/GweeBot.java:89-102 | the version is the package version when present, else `0.0.0+DEFAULT` |
| Listener.LowerAt | src/main/java/ca/jessewebb/gweebot/CommandListener.java:32 | ASCII lower-casing keeps the length and maps each character |
| Listener.CharEqualsIgnoreCaseIffLower | src/main/java/ca/jessewebb/gweebot/CommandListener.java:32 | two characters match ignoring case iff their lower-case forms are equal |
| Listener.EqualsIgnoreCase | src/main/java/ca/jessewebb/gweebot/CommandListener.java:32-37 | two strings match ignoring case (same length, each character pair matching) iff their lower-case forms are equal |
| Listener.LowerOfLowerCase | src/main/java/ca/jessewebb/gweebot/CommandListener.java:32-37 | a string with no capitals, such as `!time`, is its own lower-case form |
| Listener.OnMessage | src/main/java/ca/jessewebb/gweebot/CommandListener.java:31-40 | the time message is chosen iff the message lower-cases to `!time`; the action `v` + version iff it lower-cases to `!version`; nothing iff it lower-cases to neither |
| Listener.CommandsExclusive | src/main/java/ca/jessewebb/gweebot/CommandListener.java:32-37 | no message matches both commands, so at most one reply is chosen |
| Listener.WholeMessageOnly | src/main/java/ca/jessewebb/gweebot/CommandListener.java:32-37 | a message whose length is neither 5 nor 8 selects nothing |
| Listener.VersionReplyText | src/main/java/ca/jessewebb/gweebot/CommandListener.java:38 | the version action is `v` + package version, or `v0.0.0+DEFAULT` when there is none |
| Listener.RecognisedExamples | src/main/java/ca/jessewebb/gweebot/CommandListener.java:32-38 | `!TIME` and `!Time` select the time message, `!VeRsIoN` the version action |
| Listener.RejectedExamples | src/main/java/ca/jessewebb/gweebot/CommandListener.java:31-40 | `!time now`, ` !time`, `!versions` and the empty message select nothing |

`Listener.OnMessage` decides on its arguments alone. It takes no throttler and
no state. Identical messages always get the same reply kind, and the same
reply for the same `time` and version.

## Left out

- Concurrency: the history is a `ConcurrentHashMap`; interleaved calls are
  not modelled.
- Real time: the clock is the `now` parameter.
- Java `long` overflow in `history.get(command) + config.get(command)`: the
  model uses unbounded integers and assumes timestamp plus cooldown stays in
  range.
- The exception types: a null command and a missing cooldown are both
  `NullPointerException`s in the code, and the unit tests expect
  `IllegalArgumentException` for a null command. The model only says that
  the operation fails, with a `ThrottleError` naming why.
- The two-argument constructor, `CommandThrottlerConfiguration` and
  `EpochClock`, which only the unit tests use: their source is not part of
  this model, and their null-argument checks have no counterpart here.
- Listener.OnMessage: case-insensitive matching is modelled for ASCII letters
  only, not Java's full Unicode case mapping in `equalsIgnoreCase`.
- The date format `yyyy-MM-dd HH:mm:ss` of the `!time` reply depends on the
  calendar and time zone; the formatted string is an input.
- Sending the reply to the channel: network output. The model only chooses
  the reply.
- Logging: the warning `getVersion` logs when it falls back to the default
  version, and the bot's other log output.
- Reading the version from the package metadata is a reflective call; the
  result is an input.
- The rest of the bot's startup: command-line parsing, the properties
  file, the password prompt, the IRC connection and `System.exit`. This is
  I/O over libraries.
