/**
 * The handler of the platform's `message` event: every incoming message goes
 * through it once. It drops messages written by bots, deletes and warns about
 * profane messages in guilds whose filter is on, and then, for messages that
 * start with the prefix, answers `help` and `usage` itself or runs every
 * registered command whose syntax is the first token.
 *
 * `DispatchEffects` says what the handler does, part by part; `Override` is
 * the handler itself, loop by loop, proved to do exactly that.
 */
module MessageEvent {
  import opened Text
  import opened Config
  import opened Platform

  /** What the handler reads of a message; `guildId` is the id of the guild it was posted in. */
  datatype Message = Message(authorIsBot: bool, authorName: string, guildId: string, content: string)

  const HelpToken: string := "help"
  const UsageToken: string := "usage"
  const UsageTitle: string := "Command usage"
  const EasterEggTitle: string := "7 billion neurons user detected."
  const EasterEggBody: string :=
    "It seems that you have 200IQ.\n\n                Feel free to contribute to https://github.com/zxvnme/Gatekeeper :)\n\n                I am waiting for you - Gatekeeper dev"

  /** The warning posted after a profane message is deleted. */
  function ProfanityWarning(msg: Message): string
  {
    msg.authorName + ", you've used one of the bad words! Keep your language nice..."
  }

  /** A configuration row that switches the filter on for the guild. */
  predicate Filters(row: ConfigRow, guildId: string)
  {
    row.guildId == guildId && row.filter == 1
  }

  /** True of the two effects the profanity filter can cause. */
  predicate IsFilterEffect(e: Effect)
  {
    e.DeleteMessage? || e.Warning?
  }

  // ---------------------------------------------------------------------------
  // The profanity filter

  /**
   * The calls the filter loop has issued, and whether it is still running.
   * Each row that switches the filter on for a profane message deletes the
   * message; once it is gone, a further delete is rejected by the platform,
   * the `await` throws inside the query callback, and the loop ends there.
   */
  datatype FilterRun = FilterRun(calls: seq<Effect>, running: bool)

  /** The filter loop over the first `n` configuration rows. */
  function FilterWalk(rows: seq<ConfigRow>, msg: Message, profane: bool, n: nat): FilterRun
    requires n <= |rows|
  {
    if n == 0 then FilterRun([], true)
    else
      var run := FilterWalk(rows, msg, profane, n - 1);
      if !run.running || !(Filters(rows[n - 1], msg.guildId) && profane) then run
      else if run.calls == [] then FilterRun([DeleteMessage, Warning(ProfanityWarning(msg))], true)
      else FilterRun(run.calls + [DeleteMessage], false)
  }

  /** The effects of the filter loop over the first `n` configuration rows. */
  function FilterEffects(rows: seq<ConfigRow>, msg: Message, profane: bool, n: nat): seq<Effect>
    requires n <= |rows|
  {
    FilterWalk(rows, msg, profane, n).calls
  }

  /** How many of the first `n` rows switch the filter on for the guild. */
  function FilteringRows(rows: seq<ConfigRow>, guildId: string, n: nat): nat
    requires n <= |rows|
  {
    if n == 0 then 0
    else FilteringRows(rows, guildId, n - 1) + (if Filters(rows[n - 1], guildId) then 1 else 0)
  }

  /** What the filter does with `c` rows switching it on: nothing, one delete and warning, or a second, rejected delete. */
  function FilterOutcome(msg: Message, profane: bool, c: nat): seq<Effect>
  {
    if !profane || c == 0 then []
    else if c == 1 then [DeleteMessage, Warning(ProfanityWarning(msg))]
    else [DeleteMessage, Warning(ProfanityWarning(msg)), DeleteMessage]
  }

  /**
   * A clean message, or one in a guild no row filters, gets nothing. A
   * profane message in a guild with one filtering row is deleted and its
   * author warned. With two or more such rows, the second row's delete is
   * issued and rejected, and the loop stops before its warning.
   */
  lemma {:induction false} FilterEffectsShape(rows: seq<ConfigRow>, msg: Message, profane: bool, n: nat)
    requires n <= |rows|
    ensures FilterEffects(rows, msg, profane, n) == FilterOutcome(msg, profane, FilteringRows(rows, msg.guildId, n))
    ensures FilterWalk(rows, msg, profane, n).running <==> !profane || FilteringRows(rows, msg.guildId, n) <= 1
  {
    if n > 0 {
      FilterEffectsShape(rows, msg, profane, n - 1);
      var run := FilterWalk(rows, msg, profane, n - 1);
      var c := FilteringRows(rows, msg.guildId, n - 1);
      if Filters(rows[n - 1], msg.guildId) && profane {
        assert FilteringRows(rows, msg.guildId, n) == c + 1;
        if c == 0 {
          assert run == FilterRun([], true);
        } else if c == 1 {
          assert run == FilterRun([DeleteMessage, Warning(ProfanityWarning(msg))], true);
        } else {
          assert !run.running;
        }
      } else {
        assert FilterWalk(rows, msg, profane, n) == run;
        assert FilteringRows(rows, msg.guildId, n) == c || !profane;
      }
    }
  }

  /** Every outcome of the filter is made of deletes and warnings. */
  lemma FilterOutcomeModerate(msg: Message, profane: bool, c: nat)
    ensures var e := FilterOutcome(msg, profane, c);
      forall k :: 0 <= k < |e| ==> IsFilterEffect(e[k])
  {
  }

  /** Once the filter loop has stopped, the remaining rows add nothing. */
  lemma {:induction false} FilterWalkStopped(rows: seq<ConfigRow>, msg: Message, profane: bool, i: nat, n: nat)
    requires i <= n <= |rows|
    requires !FilterWalk(rows, msg, profane, i).running
    ensures FilterWalk(rows, msg, profane, n) == FilterWalk(rows, msg, profane, i)
  {
    if i < n {
      FilterWalkStopped(rows, msg, profane, i, n - 1);
    }
  }

  /** The filter loop causes deletes and warnings and nothing else. */
  lemma FilterEffectsOnlyModerate(rows: seq<ConfigRow>, msg: Message, profane: bool)
    ensures var e := FilterEffects(rows, msg, profane, |rows|);
      forall k :: 0 <= k < |e| ==> IsFilterEffect(e[k])
  {
    FilterEffectsShape(rows, msg, profane, |rows|);
    FilterOutcomeModerate(msg, profane, FilteringRows(rows, msg.guildId, |rows|));
  }

  // ---------------------------------------------------------------------------
  // The built-in `help` and `usage` answers and command execution

  /** One line of the help listing: the syntax in code style, then the description in italics. */
  function HelpLine(c: CommandDescriptor): string
  {
    "`" + c.syntax + "` - *" + c.description + "*"
  }

  /** The help lines of the first `n` registered commands: one per command, in registry order. */
  function HelpLines(cmds: seq<CommandDescriptor>, n: nat): (lines: seq<string>)
    requires n <= |cmds|
    ensures |lines| == n
    ensures forall i :: 0 <= i < n ==> lines[i] == HelpLine(cmds[i])
  {
    if n == 0 then [] else HelpLines(cmds, n - 1) + [HelpLine(cmds[n - 1])]
  }

  /** The usage string `usage` reports for a command. */
  function UsageText(c: CommandDescriptor): string
  {
    c.syntax + " " + c.args
  }

  /** The usage string of the last of the first `n` commands whose syntax is `name`, if any. */
  function LastUsage(cmds: seq<CommandDescriptor>, name: Option<string>, n: nat): Option<string>
    requires n <= |cmds|
  {
    if n == 0 then None
    else if name == Some(cmds[n - 1].syntax) then Some(UsageText(cmds[n - 1]))
    else LastUsage(cmds, name, n - 1)
  }

  /** Command `i` is the last of the first `n` commands whose syntax is `name`. */
  predicate IsLastMatch(cmds: seq<CommandDescriptor>, name: Option<string>, i: nat, n: nat)
    requires n <= |cmds|
  {
    i < n && name == Some(cmds[i].syntax) &&
    forall j :: i < j < n ==> name != Some(cmds[j].syntax)
  }

  /** `usage` finds nothing exactly when no command has the asked-for syntax. */
  lemma {:induction false} LastUsageNone(cmds: seq<CommandDescriptor>, name: Option<string>, n: nat)
    requires n <= |cmds|
    ensures LastUsage(cmds, name, n).None? <==> forall i :: 0 <= i < n ==> name != Some(cmds[i].syntax)
  {
    if n > 0 {
      LastUsageNone(cmds, name, n - 1);
    }
  }

  /** What `usage` finds is the usage string of the LAST command with the asked-for syntax. */
  lemma {:induction false} LastUsageLast(cmds: seq<CommandDescriptor>, name: Option<string>, n: nat)
    requires n <= |cmds|
    ensures LastUsage(cmds, name, n).Some? ==>
      exists i: nat :: IsLastMatch(cmds, name, i, n) && LastUsage(cmds, name, n).value == UsageText(cmds[i])
  {
    if n > 0 {
      if name == Some(cmds[n - 1].syntax) {
        assert LastUsage(cmds, name, n) == Some(UsageText(cmds[n - 1]));
        assert IsLastMatch(cmds, name, n - 1, n);
      } else {
        LastUsageLast(cmds, name, n - 1);
        assert LastUsage(cmds, name, n) == LastUsage(cmds, name, n - 1);
        if LastUsage(cmds, name, n - 1).Some? {
          var i: nat :| IsLastMatch(cmds, name, i, n - 1) && LastUsage(cmds, name, n - 1).value == UsageText(cmds[i]);
          assert IsLastMatch(cmds, name, i, n);
        }
      }
    }
  }

  /**
   * `usage` reports nothing exactly when no command has the asked-for syntax,
   * and otherwise the usage string of the LAST command that has it.
   */
  lemma LastUsageSpec(cmds: seq<CommandDescriptor>, name: Option<string>, n: nat)
    requires n <= |cmds|
    ensures LastUsage(cmds, name, n).None? <==> forall i :: 0 <= i < n ==> name != Some(cmds[i].syntax)
    ensures LastUsage(cmds, name, n).Some? ==>
      exists i: nat :: IsLastMatch(cmds, name, i, n) && LastUsage(cmds, name, n).value == UsageText(cmds[i])
  {
    LastUsageNone(cmds, name, n);
    LastUsageLast(cmds, name, n);
  }

  /** The executions of the command loop over the first `n` registered commands. */
  function Executions(cmds: seq<CommandDescriptor>, args: seq<string>, n: nat): seq<Effect>
    requires n <= |cmds| && |args| >= 1
  {
    if n == 0 then []
    else
      Executions(cmds, args, n - 1) +
      (if cmds[n - 1].syntax == args[0] then [Execute(n - 1, args)] else [])
  }

  /**
   * The commands executed are exactly those whose syntax is the first token,
   * each once, in registry order, each given the whole token list.
   */
  lemma {:induction false} ExecutionsExact(cmds: seq<CommandDescriptor>, args: seq<string>, n: nat)
    requires n <= |cmds| && |args| >= 1
    ensures var e := Executions(cmds, args, n);
      forall k :: 0 <= k < |e| ==>
        e[k].Execute? && e[k].args == args && e[k].command < n && cmds[e[k].command].syntax == args[0]
    ensures var e := Executions(cmds, args, n);
      forall k, l :: 0 <= k < l < |e| ==> e[k].command < e[l].command
    ensures var e := Executions(cmds, args, n);
      forall i :: 0 <= i < n && cmds[i].syntax == args[0] ==> Execute(i, args) in e
  {
    if n > 0 {
      ExecutionsExact(cmds, args, n - 1);
    }
  }

  // ---------------------------------------------------------------------------
  // The whole handler

  /** The tokens after the prefix: the rest of the content split at every single space. */
  function Tokens(content: string, prefix: string): (args: seq<string>)
    requires StartsWith(content, prefix)
    ensures |args| >= 1
  {
    Split(content[|prefix|..], ' ')
  }

  /** What a prefixed message whose tokens are `args` causes after the filter. */
  function RouteEffects(args: seq<string>, cmds: seq<CommandDescriptor>): seq<Effect>
    requires |args| >= 1
  {
    if args[0] == HelpToken then
      [HelpListing(Join(HelpLines(cmds, |cmds|), '\n'))]
    else if args[0] == UsageToken then
      if At(args, 1) == Some(HelpToken) then [Info(EasterEggTitle, Some(EasterEggBody))]
      else [Info(UsageTitle, LastUsage(cmds, At(args, 1), |cmds|))]
    else
      Executions(cmds, args, |cmds|)
  }

  /** Everything the handler causes for one message, in order. */
  function DispatchEffects(msg: Message, rows: seq<ConfigRow>, prefix: string,
                           cmds: seq<CommandDescriptor>, profane: bool): seq<Effect>
  {
    if msg.authorIsBot then []
    else
      FilterEffects(rows, msg, profane, |rows|) +
      (if StartsWith(msg.content, prefix) then RouteEffects(Tokens(msg.content, prefix), cmds) else [])
  }

  /**
   * The query callback of the handler: the loop over the configuration rows
   * that deletes a profane message and warns its author.
   */
  method FilterPass(rows: seq<ConfigRow>, msg: Message, profane: bool) returns (effects: seq<Effect>)
    ensures effects == FilterEffects(rows, msg, profane, |rows|)
  {
    effects := [];
    var messageGone := false;
    for i := 0 to |rows|
      invariant FilterWalk(rows, msg, profane, i) == FilterRun(effects, true)
      invariant messageGone <==> effects != []
    {
      if rows[i].guildId == msg.guildId && rows[i].filter == 1 {
        if profane {
          if messageGone {
            // deleting it again is rejected, and the rejection ends the loop
            effects := effects + [DeleteMessage];
            FilterWalkStopped(rows, msg, profane, i + 1, |rows|);
            break;
          }
          effects := effects + [DeleteMessage, Warning(ProfanityWarning(msg))];
          messageGone := true;
        }
      }
    }
  }

  /**
   * The `message` event handler. `profane` is what the profanity filter says
   * of the message's content; `cmds` is the command registry in load order.
   */
  method Override(table: ConfigTable, msg: Message, prefix: string,
                  cmds: seq<CommandDescriptor>, profane: bool) returns (effects: seq<Effect>)
    ensures effects == DispatchEffects(msg, table.rows, prefix, cmds, profane)
  {
    effects := [];
    if msg.authorIsBot {
      return;
    }

    effects := FilterPass(table.rows, msg, profane);

    if !StartsWith(msg.content, prefix) {
      return;
    }
    var args := Split(msg.content[|prefix|..], ' ');

    if args[0] == HelpToken {
      var helpArray: seq<string> := [];
      for i := 0 to |cmds|
        invariant helpArray == HelpLines(cmds, i)
      {
        helpArray := helpArray + [HelpLine(cmds[i])];
      }
      effects := effects + [HelpListing(Join(helpArray, '\n'))];
      return;
    }

    if args[0] == UsageToken {
      var asked := At(args, 1);
      if asked == Some(HelpToken) {
        effects := effects + [Info(EasterEggTitle, Some(EasterEggBody))];
        return;
      }
      var temp: Option<string> := None;
      for i := 0 to |cmds|
        invariant temp == LastUsage(cmds, asked, i)
      {
        if asked == Some(cmds[i].syntax) {
          temp := Some(UsageText(cmds[i]));
        }
      }
      effects := effects + [Info(UsageTitle, temp)];
      return;
    }

    ghost var filtered := effects;
    for i := 0 to |cmds|
      invariant effects == filtered + Executions(cmds, args, i)
    {
      if cmds[i].syntax == args[0] {
        effects := effects + [Execute(i, args)];
      }
    }
  }

  // ---------------------------------------------------------------------------
  // Properties of the handler

  /** A message written by a bot causes nothing at all. */
  lemma BotMessageIgnored(msg: Message, rows: seq<ConfigRow>, prefix: string,
                          cmds: seq<CommandDescriptor>, profane: bool)
    requires msg.authorIsBot
    ensures DispatchEffects(msg, rows, prefix, cmds, profane) == []
  {
  }

  /**
   * A message without the prefix causes only what the filter does: deletes
   * and warnings, and none at all when it is clean or no row of its guild
   * switches the filter on.
   */
  lemma UnprefixedOnlyFiltered(msg: Message, rows: seq<ConfigRow>, prefix: string,
                               cmds: seq<CommandDescriptor>, profane: bool)
    requires !StartsWith(msg.content, prefix)
    ensures var e := DispatchEffects(msg, rows, prefix, cmds, profane);
      forall k :: 0 <= k < |e| ==> IsFilterEffect(e[k])
    ensures !profane || FilteringRows(rows, msg.guildId, |rows|) == 0 ==>
      DispatchEffects(msg, rows, prefix, cmds, profane) == []
  {
    FilterEffectsShape(rows, msg, profane, |rows|);
    FilterEffectsOnlyModerate(rows, msg, profane);
    if !msg.authorIsBot {
      assert DispatchEffects(msg, rows, prefix, cmds, profane) == FilterEffects(rows, msg, profane, |rows|);
    }
  }

  /** The tokens joined back with single spaces give the content after the prefix. */
  lemma TokensRoundTrip(content: string, prefix: string)
    requires StartsWith(content, prefix)
    ensures Join(Tokens(content, prefix), ' ') == content[|prefix|..]
    ensures forall k :: 0 <= k < |Tokens(content, prefix)| ==> ' ' !in Tokens(content, prefix)[k]
  {
    JoinSplit(content[|prefix|..], ' ');
  }

  /**
   * The token after the first is `undefined` exactly when no space follows
   * the prefix: `usage` then asks for no command, and `filter` reads `NaN`.
   */
  lemma SecondTokenAbsent(content: string, prefix: string)
    requires StartsWith(content, prefix)
    ensures At(Tokens(content, prefix), 1).None? <==> ' ' !in content[|prefix|..]
  {
    SplitSingle(content[|prefix|..], ' ');
  }

  /**
   * After the filter's effects, a prefixed message from a person causes what
   * its tokens route to, and nothing else.
   */
  lemma {:induction false} DispatchSplits(msg: Message, rows: seq<ConfigRow>, prefix: string,
                                          cmds: seq<CommandDescriptor>, profane: bool)
    requires !msg.authorIsBot && StartsWith(msg.content, prefix)
    ensures var e := DispatchEffects(msg, rows, prefix, cmds, profane);
      var f := FilterEffects(rows, msg, profane, |rows|);
      e == f + RouteEffects(Tokens(msg.content, prefix), cmds) &&
      forall k :: 0 <= k < |f| ==> IsFilterEffect(e[k])
  {
    var f := FilterEffects(rows, msg, profane, |rows|);
    var e := DispatchEffects(msg, rows, prefix, cmds, profane);
    FilterEffectsOnlyModerate(rows, msg, profane);
    assert e == f + RouteEffects(Tokens(msg.content, prefix), cmds);
    assert forall k :: 0 <= k < |f| ==> e[k] == f[k];
  }

  /**
   * `help` sends exactly one help listing, with one line per registered
   * command in registry order, and executes no command, not even one whose
   * syntax is `help`.
   */
  lemma HelpShortCircuit(msg: Message, rows: seq<ConfigRow>, prefix: string,
                         cmds: seq<CommandDescriptor>, profane: bool)
    requires !msg.authorIsBot && StartsWith(msg.content, prefix)
    requires Tokens(msg.content, prefix)[0] == HelpToken
    ensures var e := DispatchEffects(msg, rows, prefix, cmds, profane);
      |e| >= 1 && e[|e| - 1] == HelpListing(Join(HelpLines(cmds, |cmds|), '\n')) &&
      forall k :: 0 <= k < |e| - 1 ==> IsFilterEffect(e[k])
  {
    DispatchSplits(msg, rows, prefix, cmds, profane);
  }

  /** `usage help` sends the fixed easter-egg answer and nothing else. */
  lemma UsageOfHelp(msg: Message, rows: seq<ConfigRow>, prefix: string,
                    cmds: seq<CommandDescriptor>, profane: bool)
    requires !msg.authorIsBot && StartsWith(msg.content, prefix)
    requires Tokens(msg.content, prefix)[0] == UsageToken
    requires At(Tokens(msg.content, prefix), 1) == Some(HelpToken)
    ensures var e := DispatchEffects(msg, rows, prefix, cmds, profane);
      |e| >= 1 && e[|e| - 1] == Info(EasterEggTitle, Some(EasterEggBody)) &&
      forall k :: 0 <= k < |e| - 1 ==> IsFilterEffect(e[k])
  {
    DispatchSplits(msg, rows, prefix, cmds, profane);
  }

  /**
   * `usage X` sends exactly one info message and executes nothing. Its body
   * is the usage string of the last command whose syntax is X, or undefined
   * when there is none (or no X at all).
   */
  lemma UsageReport(msg: Message, rows: seq<ConfigRow>, prefix: string,
                    cmds: seq<CommandDescriptor>, profane: bool)
    requires !msg.authorIsBot && StartsWith(msg.content, prefix)
    requires Tokens(msg.content, prefix)[0] == UsageToken
    requires At(Tokens(msg.content, prefix), 1) != Some(HelpToken)
    ensures var e := DispatchEffects(msg, rows, prefix, cmds, profane);
      var asked := At(Tokens(msg.content, prefix), 1);
      |e| >= 1 && e[|e| - 1].Info? && e[|e| - 1].title == UsageTitle &&
      (e[|e| - 1].body.None? <==> forall i :: 0 <= i < |cmds| ==> asked != Some(cmds[i].syntax)) &&
      (e[|e| - 1].body.Some? ==>
        exists i: nat :: IsLastMatch(cmds, asked, i, |cmds|) && e[|e| - 1].body.value == UsageText(cmds[i])) &&
      forall k :: 0 <= k < |e| - 1 ==> IsFilterEffect(e[k])
  {
    DispatchSplits(msg, rows, prefix, cmds, profane);
    LastUsageSpec(cmds, At(Tokens(msg.content, prefix), 1), |cmds|);
  }

  /**
   * Any other first token leads, after the filter's deletes and warnings, to
   * the command loop and nothing else; `ExecutionsExact` says which commands
   * that loop executes.
   */
  lemma CommandExecution(msg: Message, rows: seq<ConfigRow>, prefix: string,
                         cmds: seq<CommandDescriptor>, profane: bool)
    requires !msg.authorIsBot && StartsWith(msg.content, prefix)
    requires Tokens(msg.content, prefix)[0] != HelpToken
    requires Tokens(msg.content, prefix)[0] != UsageToken
    ensures var e := DispatchEffects(msg, rows, prefix, cmds, profane);
      var f := FilterEffects(rows, msg, profane, |rows|);
      e == f + Executions(cmds, Tokens(msg.content, prefix), |cmds|) &&
      forall k :: 0 <= k < |f| ==> IsFilterEffect(e[k])
  {
    var args := Tokens(msg.content, prefix);
    assert RouteEffects(args, cmds) == Executions(cmds, args, |cmds|);
    DispatchSplits(msg, rows, prefix, cmds, profane);
  }
}
