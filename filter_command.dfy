/**
 * The `filter` command: an administrator turns the guild's bad-words filter
 * on (1) or off (0). The permission check and the argument check are the
 * bot's shared checks, given here as their verdicts; the one that fails is
 * recorded as a `CheckFailed` effect, and the command then does nothing more.
 */
module FilterCommand {
  import opened Text
  import opened Config
  import opened Platform
  import MessageEvent

  const Descriptor: CommandDescriptor :=
    CommandDescriptor("filter", "Toggles bad words filter on the server.", "[filterState: number(0-1)]")

  /** The permission `filter` asks for. */
  const RequiredPermission: string := "ADMINISTRATOR"

  const RangeError: string := "The value must be number between 0 (for false) and 1 (for true)"

  /** The announcement after a successful update. */
  function SuccessText(v: int): string
  {
    "Successfully " + (if v == 1 then "enabled" else "disabled") + " bad words filter on this server."
  }

  /** What `action` decides before it touches the table. */
  datatype Decision =
    | Refused(check: Check)  // a check failed and has answered
    | OutOfRange             // the argument is not a number, or not 0 or 1
    | Apply(value: int)      // set the guild's filter to `value`

  /**
   * The permission gate, then the argument gate, then `parseInt` of the
   * second token and the range test `value > 1 || value < 0 || isNaN(value)`.
   * The argument check is only consulted once the permission check passes.
   */
  function Decide(permitted: bool, argsValid: bool, args: seq<string>): (d: Decision)
    ensures d == Refused(PermissionCheck(RequiredPermission)) <==> !permitted
    ensures d == Refused(ArgsCheck) <==> permitted && !argsValid
    ensures d.Refused? ==> d.check == PermissionCheck(RequiredPermission) || d.check == ArgsCheck
    ensures d.Apply? <==>
      permitted && argsValid && (ParseInt(At(args, 1)) == Some(0) || ParseInt(At(args, 1)) == Some(1))
    ensures d.Apply? ==> ParseInt(At(args, 1)) == Some(d.value) && (d.value == 0 || d.value == 1)
  {
    if !permitted then Refused(PermissionCheck(RequiredPermission))
    else if !argsValid then Refused(ArgsCheck)
    else
      var state := ParseInt(At(args, 1));
      if state.None? || state.value > 1 || state.value < 0 then OutOfRange
      else Apply(state.value)
  }

  /**
   * `FilterCommand.action`: after a failed check, only that check's answer;
   * on an invalid value, the range error; on a valid one, the update of the
   * guild's rows and the announcement that the filter is now enabled or
   * disabled. The table changes only in the last case.
   */
  method Action(table: ConfigTable, permitted: bool, argsValid: bool, guildId: string, args: seq<string>)
    returns (effects: seq<Effect>)
    modifies table
    ensures match Decide(permitted, argsValid, args)
      case Refused(check) => effects == [CheckFailed(check)] && table.rows == old(table.rows)
      case OutOfRange => effects == [Error(RangeError)] && table.rows == old(table.rows)
      case Apply(v) =>
        effects == [Success(SuccessText(v), None)] && table.rows == WithFilter(old(table.rows), guildId, v)
  {
    if !permitted {
      effects := [CheckFailed(PermissionCheck(RequiredPermission))];
      return;
    }
    if !argsValid {
      effects := [CheckFailed(ArgsCheck)];
      return;
    }
    var filterState := ParseInt(At(args, 1));
    if filterState.None? || filterState.value > 1 || filterState.value < 0 {
      effects := [Error(RangeError)];
      return;
    }
    table.SetFilter(guildId, filterState.value);
    effects := [Success(SuccessText(filterState.value), None)];
  }

  /** How many of the first `n` rows belong to the guild. */
  function GuildRows(rows: seq<ConfigRow>, guildId: string, n: nat): nat
    requires n <= |rows|
  {
    if n == 0 then 0
    else GuildRows(rows, guildId, n - 1) + (if rows[n - 1].guildId == guildId then 1 else 0)
  }

  /**
   * After `filter 1` every row of the guild switches the filter on; after
   * `filter 0`, none does.
   */
  lemma {:induction false} FilteringAfterSet(rows: seq<ConfigRow>, guildId: string, v: int, n: nat)
    requires n <= |rows| && (v == 0 || v == 1)
    ensures MessageEvent.FilteringRows(WithFilter(rows, guildId, v), guildId, n) ==
      if v == 1 then GuildRows(rows, guildId, n) else 0
  {
    if n > 0 {
      FilteringAfterSet(rows, guildId, v, n - 1);
    }
  }

  /**
   * The toggle as the message handler sees it: once `filter 1` has run, a
   * profane message in a guild with a configuration row is deleted and its
   * author warned (with a second row, a second delete follows and is
   * rejected); once `filter 0` has run, it is left alone.
   */
  lemma FilterToggle(rows: seq<ConfigRow>, msg: MessageEvent.Message, v: int)
    requires v == 0 || v == 1
    ensures MessageEvent.FilterEffects(WithFilter(rows, msg.guildId, v), msg, true, |rows|) ==
      MessageEvent.FilterOutcome(msg, true, if v == 1 then GuildRows(rows, msg.guildId, |rows|) else 0)
  {
    var after := WithFilter(rows, msg.guildId, v);
    MessageEvent.FilterEffectsShape(after, msg, true, |rows|);
    FilteringAfterSet(rows, msg.guildId, v, |rows|);
  }

  /** `<prefix>filter 1` reaches this command with the value 1, and `<prefix>filter 0` with 0. */
  lemma InvocationParses(prefix: string, v: int)
    requires v == 0 || v == 1
    ensures var content := prefix + "filter " + ShowInt(v);
      StartsWith(content, prefix) &&
      MessageEvent.Tokens(content, prefix) == ["filter", ShowInt(v)] &&
      Decide(true, true, MessageEvent.Tokens(content, prefix)) == Apply(v)
  {
    var content := prefix + "filter " + ShowInt(v);
    assert content[..|prefix|] == prefix;
    assert content[|prefix|..] == "filter " + ShowInt(v);
    assert ' ' !in ShowInt(v);
    SplitJoin(["filter", ShowInt(v)], ' ');
    assert Join(["filter", ShowInt(v)], ' ') == "filter " + ShowInt(v);
    ParseShowInt(v);
  }

  /**
   * With `filter` registered at index `i`, the message `<prefix>filter v`
   * from a person runs it with the tokens `["filter", v]`, and it applies `v`.
   */
  lemma {:induction false} RegisteredFilterRuns(msg: MessageEvent.Message, rows: seq<ConfigRow>, prefix: string,
                                                cmds: seq<CommandDescriptor>, profane: bool, i: nat, v: int)
    requires i < |cmds| && cmds[i] == Descriptor && (v == 0 || v == 1)
    requires !msg.authorIsBot && msg.content == prefix + "filter " + ShowInt(v)
    ensures Execute(i, ["filter", ShowInt(v)]) in MessageEvent.DispatchEffects(msg, rows, prefix, cmds, profane)
    ensures Decide(true, true, ["filter", ShowInt(v)]) == Apply(v)
  {
    InvocationParses(prefix, v);
    var args := MessageEvent.Tokens(msg.content, prefix);
    MessageEvent.CommandExecution(msg, rows, prefix, cmds, profane);
    MessageEvent.ExecutionsExact(cmds, args, |cmds|);
  }

  /** `parseInt` reads `0x1` and `0x0` in base 16, so they switch the filter on and off too. */
  lemma HexArgumentApplies()
    ensures Decide(true, true, ["filter", "0x1"]) == Apply(1)
    ensures Decide(true, true, ["filter", "0x0"]) == Apply(0)
  {
    assert "0x" + [HexDigits[1]] == "0x1" && "0x" + [HexDigits[0]] == "0x0";
    HexDigitApplies(1);
    HexDigitApplies(0);
  }

  /** `filter 0x<v>` applies `v` for a single hexadecimal digit 0 or 1. */
  lemma HexDigitApplies(v: nat)
    requires v == 0 || v == 1
    ensures Decide(true, true, ["filter", "0x" + [HexDigits[v]]]) == Apply(v)
  {
    ParseShowHex(v);
    assert ShowHex(v) == [HexDigits[v]];
    assert At(["filter", "0x" + [HexDigits[v]]], 1) == Some("0x" + ShowHex(v));
  }
}
