/**
 * The `unmute` command: a member allowed to manage messages takes the
 * "Muted" role off the first member the message mentions, a moderation
 * notice goes to every logs channel configured for the guild, and the
 * command then announces success.
 *
 * The configuration table is only read here: `Action` has no `modifies`
 * clause, so it cannot change it.
 */
module UnmuteCommand {
  import opened Text
  import opened Config
  import opened Platform
  import MessageEvent

  const Descriptor: CommandDescriptor :=
    CommandDescriptor("unmute", "Unmutes an user.", "[memberToUnmute: mention]")

  /** The permission `unmute` asks for. */
  const RequiredPermission: string := "MANAGE_MESSAGES"

  const MutedRoleName: string := "Muted"
  const SuccessTitle: string := "Successfully unmuted"

  /** A guild member as the command uses it: the user's id and tag. */
  datatype Member = Member(id: string, tag: string)

  /** A guild role. */
  datatype Role = Role(id: string, name: string)

  /** `roles.find(role => role.name == name)`: the first role with that name, if any. */
  function FindRole(roles: seq<Role>, name: string): (r: Option<Role>)
    ensures r.None? <==> forall i :: 0 <= i < |roles| ==> roles[i].name != name
    ensures r.Some? ==>
      exists i :: 0 <= i < |roles| && roles[i] == r.value && r.value.name == name &&
                  forall j :: 0 <= j < i ==> roles[j].name != name
  {
    if roles == [] then None
    else if roles[0].name == name then Some(roles[0])
    else
      var r := FindRole(roles[1..], name);
      assert forall i :: 1 <= i < |roles| ==> roles[i] == roles[1..][i - 1];
      r
  }

  /** A configuration row that asks for moderation notices of the guild to be posted. */
  predicate PostsLog(row: ConfigRow, guildId: string)
  {
    row.guildId == guildId && row.logsChannelId != NoLogsChannel
  }

  /** The logs channels of the first `n` rows that ask for notices, in table order. */
  function LogChannels(rows: seq<ConfigRow>, guildId: string, n: nat): seq<string>
    requires n <= |rows|
  {
    if n == 0 then []
    else
      LogChannels(rows, guildId, n - 1) +
      (if PostsLog(rows[n - 1], guildId) then [rows[n - 1].logsChannelId] else [])
  }

  /**
   * The notices sent while walking the rows, and whether the walk got to the
   * end. A row whose channel is not a text channel the client knows stops
   * it: looking the channel up gives `undefined` (or a channel without
   * `send`), and sending on that throws.
   */
  datatype LogRun = LogRun(posts: seq<Effect>, complete: bool)

  /** The log-posting loop over the first `n` rows. */
  function LogPosts(rows: seq<ConfigRow>, guildId: string, channels: set<string>,
                    memberTag: string, invoker: string, n: nat): LogRun
    requires n <= |rows|
  {
    if n == 0 then LogRun([], true)
    else
      var run := LogPosts(rows, guildId, channels, memberTag, invoker, n - 1);
      if !run.complete || !PostsLog(rows[n - 1], guildId) then run
      else if rows[n - 1].logsChannelId in channels then
        LogRun(run.posts + [LogPost(rows[n - 1].logsChannelId, memberTag, invoker)], true)
      else LogRun(run.posts, false)
  }

  /**
   * One notice per row that asks for it, to that row's channel, in table
   * order, up to the first unknown channel; the walk completes exactly when
   * every such row names a channel the client knows.
   */
  lemma {:induction false} LogPostsSpec(rows: seq<ConfigRow>, guildId: string, channels: set<string>,
                                        memberTag: string, invoker: string, n: nat)
    requires n <= |rows|
    ensures var run := LogPosts(rows, guildId, channels, memberTag, invoker, n);
      var wanted := LogChannels(rows, guildId, n);
      |run.posts| <= |wanted| &&
      (forall k :: 0 <= k < |run.posts| ==> run.posts[k] == LogPost(wanted[k], memberTag, invoker)) &&
      (forall k :: 0 <= k < |run.posts| ==> wanted[k] in channels) &&
      (run.complete <==> forall k :: 0 <= k < |wanted| ==> wanted[k] in channels) &&
      (run.complete ==> |run.posts| == |wanted|) &&
      (!run.complete ==> |run.posts| < |wanted| && wanted[|run.posts|] !in channels)
  {
    if n > 0 {
      LogPostsSpec(rows, guildId, channels, memberTag, invoker, n - 1);
      var before := LogChannels(rows, guildId, n - 1);
      var wanted := LogChannels(rows, guildId, n);
      var prev := LogPosts(rows, guildId, channels, memberTag, invoker, n - 1);
      var row := rows[n - 1];
      if PostsLog(row, guildId) {
        assert wanted == before + [row.logsChannelId];
        assert wanted[|before|] == row.logsChannelId;
        assert forall k :: 0 <= k < |before| ==> wanted[k] == before[k];
        if !prev.complete {
          var k :| 0 <= k < |before| && before[k] !in channels;
          assert wanted[k] !in channels;
        }
      } else {
        assert wanted == before;
      }
    }
  }

  /** Once a walk has stopped, the remaining rows add nothing. */
  lemma {:induction false} LogPostsStopped(rows: seq<ConfigRow>, guildId: string, channels: set<string>,
                                           memberTag: string, invoker: string, i: nat, n: nat)
    requires i <= n <= |rows|
    requires !LogPosts(rows, guildId, channels, memberTag, invoker, i).complete
    ensures LogPosts(rows, guildId, channels, memberTag, invoker, n) ==
      LogPosts(rows, guildId, channels, memberTag, invoker, i)
  {
    if i < n {
      LogPostsStopped(rows, guildId, channels, memberTag, invoker, i, n - 1);
    }
  }

  /** The success announcement, naming the unmuted member. */
  function SuccessAnnouncement(member: Member): Effect
  {
    Success(SuccessTitle, Some(Mention(member.id) + "."))
  }

  /**
   * Everything the command causes, in order. A failed check answers and ends
   * the command; the argument check is only consulted once the permission
   * check passes. Without a mentioned member, or without a role named
   * "Muted", the role removal throws before anything is sent, and the
   * command's error handler only logs.
   */
  function UnmuteEffects(rows: seq<ConfigRow>, permitted: bool, argsValid: bool, guildId: string,
                         invokerId: string, mentions: seq<Member>, roles: seq<Role>,
                         channels: set<string>): seq<Effect>
  {
    if !permitted then [CheckFailed(PermissionCheck(RequiredPermission))]
    else if !argsValid then [CheckFailed(ArgsCheck)]
    else if |mentions| == 0 then []
    else
      match FindRole(roles, MutedRoleName)
      case None => []
      case Some(role) =>
        var run := LogPosts(rows, guildId, channels, mentions[0].tag, Mention(invokerId), |rows|);
        [RemoveRole(mentions[0].id, role.id)] + run.posts +
        (if run.complete then [SuccessAnnouncement(mentions[0])] else [])
  }

  /**
   * `UnmuteCommand.action`. `mentions` are the members the message mentions,
   * `roles` the guild's roles and `channels` the ids of the text channels
   * the client knows (a channel it does not know, or one that cannot take
   * messages, makes the send throw).
   */
  method Action(table: ConfigTable, permitted: bool, argsValid: bool, guildId: string, invokerId: string,
                mentions: seq<Member>, roles: seq<Role>, channels: set<string>) returns (effects: seq<Effect>)
    ensures effects == UnmuteEffects(table.rows, permitted, argsValid, guildId, invokerId, mentions, roles, channels)
  {
    if !permitted {
      effects := [CheckFailed(PermissionCheck(RequiredPermission))];
      return;
    }
    if !argsValid {
      effects := [CheckFailed(ArgsCheck)];
      return;
    }
    effects := [];
    if |mentions| == 0 {
      return;
    }
    var memberToUnmute := mentions[0];
    var muteRole := FindRole(roles, MutedRoleName);
    if muteRole.None? {
      return;
    }
    effects := [RemoveRole(memberToUnmute.id, muteRole.value.id)];
    ghost var removal := effects;

    var rows := table.rows;
    var invoker := Mention(invokerId);
    var complete := true;
    for i := 0 to |rows|
      invariant complete
      invariant LogPosts(rows, guildId, channels, memberToUnmute.tag, invoker, i).complete
      invariant effects == removal + LogPosts(rows, guildId, channels, memberToUnmute.tag, invoker, i).posts
    {
      if rows[i].guildId == guildId && rows[i].logsChannelId != NoLogsChannel {
        if rows[i].logsChannelId !in channels {
          complete := false;
          LogPostsStopped(rows, guildId, channels, memberToUnmute.tag, invoker, i + 1, |rows|);
          break;
        }
        effects := effects + [LogPost(rows[i].logsChannelId, memberToUnmute.tag, invoker)];
      }
    }
    if complete {
      effects := effects + [SuccessAnnouncement(memberToUnmute)];
    }
  }

  /**
   * A failed permission or argument check means no removal, no notice and no
   * announcement: only the failed check answers, and the argument check is
   * not consulted when the permission check fails.
   */
  lemma ChecksGate(rows: seq<ConfigRow>, permitted: bool, argsValid: bool, guildId: string,
                   invokerId: string, mentions: seq<Member>, roles: seq<Role>, channels: set<string>)
    requires !permitted || !argsValid
    ensures var e := UnmuteEffects(rows, permitted, argsValid, guildId, invokerId, mentions, roles, channels);
      e == [CheckFailed(if permitted then ArgsCheck else PermissionCheck(RequiredPermission))]
  {
  }

  /** Once both checks pass and there is a member and a "Muted" role: the removal, then the walk. */
  lemma {:induction false} UnmuteEffectsStarted(rows: seq<ConfigRow>, guildId: string, invokerId: string,
                                                mentions: seq<Member>, roles: seq<Role>, channels: set<string>)
    requires |mentions| >= 1 && FindRole(roles, MutedRoleName).Some?
    ensures var run := LogPosts(rows, guildId, channels, mentions[0].tag, Mention(invokerId), |rows|);
      UnmuteEffects(rows, true, true, guildId, invokerId, mentions, roles, channels) ==
        [RemoveRole(mentions[0].id, FindRole(roles, MutedRoleName).value.id)] + run.posts +
        (if run.complete then [SuccessAnnouncement(mentions[0])] else [])
  {
  }

  /**
   * When the command gets going, it first removes the first "Muted" role from
   * the first mentioned member, then posts one notice per row that asks for
   * one, to that row's channel; when every such channel is known it then
   * announces success, naming the member, as its last effect.
   */
  lemma {:induction false} UnmuteOrder(rows: seq<ConfigRow>, guildId: string, invokerId: string,
                                       mentions: seq<Member>, roles: seq<Role>, channels: set<string>)
    requires |mentions| >= 1 && FindRole(roles, MutedRoleName).Some?
    requires forall k :: 0 <= k < |LogChannels(rows, guildId, |rows|)| ==> LogChannels(rows, guildId, |rows|)[k] in channels
    ensures var e := UnmuteEffects(rows, true, true, guildId, invokerId, mentions, roles, channels);
      var wanted := LogChannels(rows, guildId, |rows|);
      |e| == |wanted| + 2 &&
      e[0] == RemoveRole(mentions[0].id, FindRole(roles, MutedRoleName).value.id) &&
      (forall k :: 0 <= k < |wanted| ==> e[k + 1] == LogPost(wanted[k], mentions[0].tag, Mention(invokerId))) &&
      e[|e| - 1] == SuccessAnnouncement(mentions[0])
  {
    var invoker := Mention(invokerId);
    var run := LogPosts(rows, guildId, channels, mentions[0].tag, invoker, |rows|);
    LogPostsSpec(rows, guildId, channels, mentions[0].tag, invoker, |rows|);
    UnmuteEffectsStarted(rows, guildId, invokerId, mentions, roles, channels);
    var removal := RemoveRole(mentions[0].id, FindRole(roles, MutedRoleName).value.id);
    var e := UnmuteEffects(rows, true, true, guildId, invokerId, mentions, roles, channels);
    assert run.complete;
    assert e == [removal] + run.posts + [SuccessAnnouncement(mentions[0])];
    forall k | 0 <= k < |run.posts|
      ensures e[k + 1] == run.posts[k]
    {
    }
  }

  /**
   * When some logs channel is unknown to the client, the notices go to the
   * known channels before the first unknown one, stop there, and success is
   * never announced.
   */
  lemma {:induction false} UnmuteStopsAtUnknownChannel(rows: seq<ConfigRow>, guildId: string, invokerId: string,
                                                       mentions: seq<Member>, roles: seq<Role>, channels: set<string>)
    requires |mentions| >= 1 && FindRole(roles, MutedRoleName).Some?
    requires exists k :: 0 <= k < |LogChannels(rows, guildId, |rows|)| && LogChannels(rows, guildId, |rows|)[k] !in channels
    ensures var e := UnmuteEffects(rows, true, true, guildId, invokerId, mentions, roles, channels);
      var wanted := LogChannels(rows, guildId, |rows|);
      1 <= |e| <= |wanted| &&
      e[0] == RemoveRole(mentions[0].id, FindRole(roles, MutedRoleName).value.id) &&
      (forall k :: 1 <= k < |e| ==>
        wanted[k - 1] in channels && e[k] == LogPost(wanted[k - 1], mentions[0].tag, Mention(invokerId))) &&
      wanted[|e| - 1] !in channels
  {
    var invoker := Mention(invokerId);
    var run := LogPosts(rows, guildId, channels, mentions[0].tag, invoker, |rows|);
    LogPostsSpec(rows, guildId, channels, mentions[0].tag, invoker, |rows|);
    UnmuteEffectsStarted(rows, guildId, invokerId, mentions, roles, channels);
    var e := UnmuteEffects(rows, true, true, guildId, invokerId, mentions, roles, channels);
    assert !run.complete;
    assert e == [e[0]] + run.posts;
    forall k | 1 <= k < |e|
      ensures e[k] == run.posts[k - 1]
    {
    }
  }

  /**
   * With `unmute` registered at index `i`, the message `<prefix>unmute target`
   * from a person runs it with the tokens `["unmute", target]`.
   */
  lemma {:induction false} RegisteredUnmuteRuns(msg: MessageEvent.Message, rows: seq<ConfigRow>, prefix: string,
                                                cmds: seq<CommandDescriptor>, profane: bool, i: nat, target: string)
    requires i < |cmds| && cmds[i] == Descriptor && ' ' !in target
    requires !msg.authorIsBot && msg.content == prefix + "unmute " + target
    ensures Execute(i, ["unmute", target]) in MessageEvent.DispatchEffects(msg, rows, prefix, cmds, profane)
  {
    var content := msg.content;
    assert StartsWith(content, prefix) by { assert content[..|prefix|] == prefix; }
    assert content[|prefix|..] == "unmute " + target;
    SplitJoin(["unmute", target], ' ');
    assert Join(["unmute", target], ' ') == "unmute " + target;
    var args := MessageEvent.Tokens(content, prefix);
    assert args == ["unmute", target];
    MessageEvent.CommandExecution(msg, rows, prefix, cmds, profane);
    MessageEvent.ExecutionsExact(cmds, args, |cmds|);
  }
}
