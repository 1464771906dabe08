/**
 * What the bot asks the chat platform to do, and what it knows of a command.
 * Every decision procedure in this model returns the list of these effects
 * in the order the bot issues them; embed colours, avatars, footers and
 * timestamps are not recorded, only which kind of message goes out and the
 * text the bot fixes for it.
 */
module Platform {
  import opened Text

  /** One of the shared checks a command runs before acting. */
  datatype Check =
    | PermissionCheck(permission: string)  // `Checks.permissionCheck(message, permission)`
    | ArgsCheck                            // `Checks.argsCheck(message, command, args)`

  datatype Effect =
    | CheckFailed(check: Check)                         // a check said no; what it reports is its own
    | DeleteMessage                                     // `message.delete()`
    | Warning(text: string)                             // `Announcements.warning`
    | HelpListing(listing: string)                      // the help embed's description
    | Info(title: string, body: Option<string>)         // `Announcements.info`
    | Execute(command: nat, args: seq<string>)          // `command.action(...)` of the registry entry at that index
    | Error(text: string)                               // `Announcements.error`
    | Success(title: string, body: Option<string>)      // `Announcements.success`
    | RemoveRole(memberId: string, roleId: string)      // `member.removeRole(role)`
    | LogPost(channelId: string, memberTag: string, invoker: string)  // moderation notice sent to a logs channel

  /** A loaded command: the token that invokes it, its description and its usage string. */
  datatype CommandDescriptor = CommandDescriptor(syntax: string, description: string, args: string)

  /** A mention of a user as the platform renders it, `<@id>`. */
  function Mention(userId: string): string
  {
    "<@" + userId + ">"
  }
}
