/** What a slash-command invocation carries that the server commands look
    at: the guild it came from and the invoking member's permissions. */
module Guild {
  import opened Rows

  datatype Permissions = Permissions(manageGuild: bool)

  datatype Member = Member(permissions: Option<Permissions>)

  datatype Invocation = Invocation(guild: Option<EntityId>, member: Option<Member>)

  /** The "Manage Server" guard: it refuses only when the member and its
      permissions are both present and lack manage_guild; when either is
      absent the check is skipped. */
  predicate MayManage(inv: Invocation)
  {
    inv.member.None? || inv.member.value.permissions.None? || inv.member.value.permissions.value.manageGuild
  }
}
