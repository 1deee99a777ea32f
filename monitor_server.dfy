/** /monitorserver: start tracking the icon of the server the command was
    used in. */
module MonitorServer {
  import opened Rows
  import opened Repository
  import opened Guild

  datatype Reply =
    | NotInGuild                        // "This command can only be used in a server."
    | MissingPermission                 // "You need 'Manage Server' permission …"
    | AlreadyTrackedSince(since: Timestamp)  // "… is already being tracked since <t:…:F>"
    | AlreadyTracked                    // trackedSince NULL or out of range: "… is already being tracked."
    | AddFailed                         // "Failed to add server to monitoring list. …"
    | Added                             // "Successfully added … to the server monitoring list."

  /** run: guards, then the lookup, then the insert of (guild id, now). A
      failing lookup is treated like a missing row, so with the database
      down the insert fails too and the failure reply is given. A start
      time chrono cannot represent gets the reply without a date. */
  method Run(db: Database, inv: Invocation, now: Timestamp) returns (reply: Reply)
    requires db.Valid()
    modifies db
    ensures db.Valid()
    ensures reply == NotInGuild <==> inv.guild.None?
    ensures reply == MissingPermission <==> inv.guild.Some? && !MayManage(inv)
    ensures (reply.AlreadyTrackedSince? || reply == AlreadyTracked) <==>
      inv.guild.Some? && MayManage(inv) && db.available && inv.guild.value in IdsOf(old(db.servers))
    ensures reply.AlreadyTrackedSince? ==>
      && FindTracked(old(db.servers), inv.guild.value) == Some(TrackedRow(inv.guild.value, Some(reply.since)))
      && Representable(reply.since)
    ensures reply == AlreadyTracked ==>
      && FindTracked(old(db.servers), inv.guild.value).Some?
      && var since := FindTracked(old(db.servers), inv.guild.value).value.trackedSince;
         since.None? || !Representable(since.value)
    ensures reply == AddFailed <==> inv.guild.Some? && MayManage(inv) && !db.available
    ensures reply == Added <==>
      inv.guild.Some? && MayManage(inv) && db.available && inv.guild.value !in IdsOf(old(db.servers))
    ensures db.servers == if reply == Added then old(db.servers) + [TrackedRow(inv.guild.value, Some(now))] else old(db.servers)
    ensures db.users == old(db.users) && db.profilePictures == old(db.profilePictures)
    ensures db.serverPictures == old(db.serverPictures) && db.usernameChanges == old(db.usernameChanges)
  {
    if inv.guild.None? {
      return NotInGuild;
    }
    var guildId := inv.guild.value;
    if !MayManage(inv) {
      return MissingPermission;
    }
    var entry := if db.available then FindTracked(db.servers, guildId) else None;
    if entry.Some? {
      if entry.value.trackedSince.Some? && Representable(entry.value.trackedSince.value) {
        return AlreadyTrackedSince(entry.value.trackedSince.value);
      }
      return AlreadyTracked;
    }
    var result := db.InsertTracked(Community, TrackedRow(guildId, Some(now)));
    if result.Failed? {
      return AddFailed;
    }
    reply := Added;
  }
}
