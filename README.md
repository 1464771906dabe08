# Gatekeeper moderation core in Dafny

Gatekeeper is a Discord moderation bot. This project models three of its
decision procedures and proves properties about them:

- the `message` event handler. It drops bot messages, runs the bad-words
  filter over the configuration rows of the guild, checks the prefix, splits
  the rest of the message into tokens, answers `help` and `usage` itself, and
  otherwise executes every registered command whose syntax is the first token;
- the `filter` command. It turns a guild's bad-words filter on or off in the
  `guildconfiguration` table;
- the `unmute` command. It removes the "Muted" role from the first mentioned
  member, posts a moderation notice to each configured logs channel, and
  announces success.

Each procedure returns the ordered list of platform calls it makes, as
`Platform.Effect` values: failed check, delete, warning, help listing, info,
command execution, error, success, role removal and log post. The inputs are given as
parameters:

- the message: is the author a bot, the author's name, the guild id, the content;
- the configuration rows, held in a `Config.ConfigTable` object;
- the prefix;
- the command registry, in load order;
- the verdicts of the permission check, the argument check and the profanity
  filter, as booleans;
- for `unmute`: the members the message mentions, the guild's roles, and the
  ids of the text channels the client knows.

Modules, one per file:

- `Text` (`text.dfy`): the JavaScript string operations the bot uses. These
  are `startsWith`, `split(" ")`, `join`, reading an array element past its
  end, and `parseInt` without a radix.
- `Platform` (`platform.dfy`): the effect datatype and command descriptors.
- `Config` (`config.dfy`): the configuration rows and the table class.
- `MessageEvent` (`message_event.dfy`): the message handler. `DispatchEffects`
  specifies it. `Override` is the handler written loop by loop and proved equal
  to `DispatchEffects`.
- `FilterCommand` (`filter_command.dfy`): the `filter` command.
- `UnmuteCommand` (`unmute_command.dfy`): the `unmute` command.

The model follows the code in these details:

- every command whose syntax matches the first token is executed, not only the
  first one;
- `usage` reports the last matching command;
- tokens come from splitting on one space character, so two spaces in a row
  give an empty token;
- the `filter` command's update is a plain `UPDATE`, not an upsert. A guild
  without a configuration row still has none afterwards;
- in `unmute`, a logs channel the client does not know makes the send throw.
  The remaining notices and the success message are then skipped;
- in the message handler, a guild may have several configuration rows with the
  filter on, since `guildid` is not a unique key. The first such row deletes
  a profane message and warns its author. The second row's delete is
  rejected because the message is already gone, and the `await` then ends the
  loop before a second warning.

## Model

| member | source | states |
|---|---|---|
| `MessageEvent.Override` | src/event/impl/message.ts:14-72 | The handler's effects are exactly `DispatchEffects` of the message, the table's rows, the prefix and the registry. The loops carry invariants for the filter rows, the help lines, the last usage match and the executed commands. |
| `MessageEvent.BotMessageIgnored` | src/event/impl/message.ts:15 | A message from a bot causes no effect at all. |
| `MessageEvent.FilterEffectsShape` | src/event/impl/message.ts:17-26 | Counting the rows with the message's guild id and `filter == 1`: a clean message, or no such row, gets nothing. One such row gives one delete and then one warning naming the author. Two or more give that pair and then a second delete, which is rejected and ends the loop. |
| `MessageEvent.FilterWalkStopped` | src/event/impl/message.ts:18-25 | Once the rejected delete has ended the loop, later rows add nothing. |
| `MessageEvent.FilterPass` | src/event/impl/message.ts:17-26 | The query callback's loop, with a flag for the deleted message and a `break` at the rejected delete, causes exactly `FilterEffects` of the rows. |
| `MessageEvent.FilterEffectsOnlyModerate` | src/event/impl/message.ts:17-26 | The filter loop causes only deletes and warnings. |
| `MessageEvent.UnprefixedOnlyFiltered` | src/event/impl/message.ts:28 | Without the prefix, only filter effects appear. There are none when the message is clean or no row of its guild has the filter on. |
| `MessageEvent.TokensRoundTrip` | src/event/impl/message.ts:30 | Joining the tokens with single spaces gives back the content after the prefix. No token contains a space. |
| `MessageEvent.DispatchSplits` | src/event/impl/message.ts:17-71 | For a prefixed message from a person, the effects are the filter's deletes and warnings followed by what the tokens route to. |
| `MessageEvent.HelpLines` | src/event/impl/message.ts:33-36 | The help listing has one line per registered command, in registry order, formatted as the syntax in backticks, ` - `, then the description in asterisks. |
| `MessageEvent.HelpShortCircuit` | src/event/impl/message.ts:32-46 | `help` sends exactly one help listing as the last effect. Everything before it is a filter effect, so no command executes, not even one named `help`. |
| `MessageEvent.UsageOfHelp` | src/event/impl/message.ts:48-54 | `usage help` sends only the fixed easter-egg info after the filter effects. |
| `MessageEvent.LastUsageSpec` | src/event/impl/message.ts:56-61 | The usage lookup gives nothing exactly when no command has the asked-for syntax. Otherwise it gives `syntax + " " + args` of the last command with that syntax. |
| `MessageEvent.UsageReport` | src/event/impl/message.ts:48-64 | `usage X` sends exactly one "Command usage" info and executes nothing. Its body is the last match's usage string, or undefined when X is missing or matches no command. |
| `MessageEvent.CommandExecution` | src/event/impl/message.ts:67-71 | For any other first token, the filter effects are followed by the command loop's executions and nothing else. |
| `MessageEvent.ExecutionsExact` | src/event/impl/message.ts:67-71 | Exactly the commands whose syntax equals the first token are executed. Each runs once, in registry order, with the whole token list. No match means no execution. |
| `Text.Split` | src/event/impl/message.ts:30 | `split(" ")` always gives at least one token, and no token contains the separator. |
| `Text.JoinSplit` | src/event/impl/message.ts:30 | Joining the tokens of a split with the separator gives back the original string. |
| `Text.SplitJoin` | src/event/impl/message.ts:30 | Splitting a join of separator-free parts gives back the parts, so tokenising loses nothing. |
| `Text.SplitSingle` | src/event/impl/message.ts:30 | `split(" ")` gives a single token exactly when the text holds no space. |
| `MessageEvent.SecondTokenAbsent` | src/event/impl/message.ts:48-58 | `args[1]` is undefined exactly when no space follows the prefix. `usage` then asks for no command. |
| `Text.TrimStartSpec` | src/command/impl/filter.ts:26 | `parseInt` drops exactly the leading JavaScript white space and line terminators. What is left is empty or starts with another character. |
| `Text.LeadingDigits` | src/command/impl/filter.ts:26 | `parseInt` reads the longest prefix of digits of its base, and only such digits. |
| `Text.DigitTable` | src/command/impl/filter.ts:26 | Each digit is worth its position in the table `0123456789abcdef`, or `0123456789ABCDEF` in upper case. The decimal digits are the first ten. |
| `Text.ParseShowHex` | src/command/impl/filter.ts:26 | `parseInt` reads back every natural number written in base 16 after `0x`. |
| `Text.ParseInt` | src/command/impl/filter.ts:26 | `parseInt` gives NaN exactly when no digit follows the white space, the optional sign and an optional `0x`. A missing argument also gives NaN. A negative result needs a `-` after the white space. |
| `Text.ParseIntSkipsSpace` | src/command/impl/filter.ts:26 | White space in front of a number does not change what `parseInt` reads, so a tab before the value is ignored. |
| `Text.ParseShowInt` | src/command/impl/filter.ts:26 | `parseInt` reads back every integer written in decimal. |
| `Config.WithFilter` | src/command/impl/filter.ts:33 | After the update, rows of this guild have the new `filter`. Every other field, every other guild's row, and the number and order of rows are unchanged. |
| `Config.WithFilterIdempotent` | src/command/impl/filter.ts:33 | Setting the same filter value twice leaves the same table as setting it once. |
| `Config.ConfigTable.SetFilter` | src/command/impl/filter.ts:33 | The table's new rows are `WithFilter` of its old rows. |
| `FilterCommand.Decide` | src/command/impl/filter.ts:22-31 | The permission check ("ADMINISTRATOR") refuses exactly when it fails. The argument check refuses exactly when the permission check passes and the argument check fails, so it is never consulted after a permission failure. It applies a value exactly when `parseInt` of the second token is 0 or 1, and that value is what it applies. Anything else is out of range. |
| `FilterCommand.Action` | src/command/impl/filter.ts:20-39 | A failed check gives only that check's answer and changes nothing. An out-of-range value or NaN sends the range error and changes nothing. A valid value updates only this guild's `filter` and sends one success message saying "enabled" for 1 and "disabled" for 0. |
| `FilterCommand.FilteringAfterSet` | src/command/impl/filter.ts:33 | After `filter 1`, every row of the guild turns the filter on. After `filter 0`, none does. |
| `FilterCommand.FilterToggle` | src/command/impl/filter.ts:33 | As the message handler sees it: after `filter 1`, a profane message in a guild with a configuration row is deleted and its author warned. A second row of the guild adds a rejected delete. After `filter 0` the message is left alone. |
| `FilterCommand.HexArgumentApplies` | src/command/impl/filter.ts:26-33 | `filter 0x1` and `filter 0x0` switch the filter on and off, as `parseInt` reads them in base 16. |
| `FilterCommand.InvocationParses` | src/command/impl/filter.ts:26 | A message `<prefix>filter 1` or `<prefix>filter 0` tokenises to `["filter", v]`, and the command then applies `v`. |
| `FilterCommand.RegisteredFilterRuns` | src/command/impl/filter.ts:10-14 | With the `filter` descriptor registered, the message `<prefix>filter v` from a person executes that registry entry with `["filter", v]`, and the command applies `v`. |
| `UnmuteCommand.FindRole` | src/command/impl/unmute.ts:29 | The role found is the first one named exactly "Muted". No role is found exactly when none has that name. |
| `UnmuteCommand.LogPostsSpec` | src/command/impl/unmute.ts:35-50 | One notice goes to each row with this guild id and a logs channel other than `"none"`, to that row's channel, in table order. Every channel posted to is known to the client. The walk completes exactly when every such channel is known. Otherwise it stops at the first unknown one: the channel right after the last post is unknown. |
| `UnmuteCommand.LogPostsStopped` | src/command/impl/unmute.ts:47-48 | Once sending to an unknown channel has thrown, later rows post nothing. |
| `UnmuteCommand.Action` | src/command/impl/unmute.ts:22-57 | The command's effects are exactly `UnmuteEffects` of the table's rows and inputs. It has no `modifies` clause, so the configuration table is only read. |
| `UnmuteCommand.ChecksGate` | src/command/impl/unmute.ts:24-26 | When a check fails, only that check answers: there is no role removal, no log post and no success message. The permission check ("MANAGE_MESSAGES") comes first, so the argument check never answers after a permission failure. |
| `UnmuteCommand.UnmuteOrder` | src/command/impl/unmute.ts:28-53 | The first effect removes the first "Muted" role from the first mentioned member. One notice per logging row follows, in table order. When all those channels are known, the success message naming the member comes last. |
| `UnmuteCommand.UnmuteStopsAtUnknownChannel` | src/command/impl/unmute.ts:47-53 | When some logs channel is unknown, the role is still removed. Notices go to the known channels before the first unknown one and stop there. Success is never announced. |
| `UnmuteCommand.RegisteredUnmuteRuns` | src/command/impl/unmute.ts:12-16 | With the `unmute` descriptor registered, the message `<prefix>unmute target` from a person executes that registry entry with `["unmute", target]`. |

## Left out

- `src/bootstrapper.ts` is not part of this model. It covers directory scanning, dynamic `require`, binding events to the client, `CREATE DATABASE/TABLE` with logging, login and the unhandled-rejection hook. The command registry is an input instead.
- `Checks.permissionCheck`, `Checks.argsCheck`, the profanity filter's `isProfane` and the `Announcements` helpers are not part of this model. Their verdicts are boolean parameters. A failed check is recorded as one `CheckFailed` effect naming the check; its wording is not recorded.
- `MessageEvent.Override`: an executed command is recorded as one `Execute` effect. What that command then does is modelled separately, for `filter` and `unmute` only.
- Embed details are not recorded: colours, author lines, avatar URLs, footers, titles of log embeds and timestamps. The model keeps only which kind of message is sent and the text the code fixes.
- Asynchronous timing is not modelled. The filter query in the message handler runs in a callback and may finish after dispatch. The unmute notices run in a promise chain. Each procedure is one sequential list, with the filter's effects first.
- Failures of platform calls are not modelled beyond the two certain ones above: the repeated delete, and a send to an unknown logs channel. Other rejected deletes, sends or role removals are not modelled, except a removal that fails for a missing member or role. Neither is `loggerInstance.fatal`, which only logs.
- SQL NULL values in `filter` or `logschannelid`, and messages outside a guild (a null `message.guild`), are not modelled. The rows are an in-memory sequence rather than a query over a database.
- `Text.ParseInt` gives an exact integer where JavaScript gives a double. A value too large for a double is rounded in JavaScript but not here; any such value is far outside 0 to 1, so the range test decides the same. JavaScript's `-0` is read as 0, which the range test, the update and the success text treat alike.
- `Config.WithFilter` matches rows whose guild id equals the given one as a string. In the source, `src/command/impl/filter.ts:33` puts the id into the SQL unquoted while `guildid` is a `TEXT` column, so MySQL compares them as doubles. Ids that differ only beyond 2^53, or a stored id with leading zeros such as `"0123"`, would also match there. The message handler compares the ids as strings, as the model does.
- The mute store, the mute scheduler, the last-message cache, reading a configuration with defaults, and setting the logs channel are not modelled. None of them has code in the files this model covers.
- `MessageEvent.HelpShortCircuit` promises a help listing for any registry. The embed library used, discord.js v11, refuses a description longer than 2048 characters. A registry whose listing is that long would get no listing there; the model has no length limit.
