/** /removemonitorserver: stop tracking the server the command was used in;
    the icon history goes with it by ON DELETE CASCADE. */
module RemoveMonitorServer {
  import opened Rows
  import opened Repository
  import opened Guild

  datatype Reply =
    | NotInGuild          // "This command can only be used in a server."
    | MissingPermission   // "You need 'Manage Server' permission …"
    | Removed             // "Successfully removed … from monitoring."
    | NotFound            // "Unable to find server. Server may not be tracked."
    | DeleteFailed        // "Unable to delete server. Server may not be tracked."

  method Run(db: Database, inv: Invocation) returns (reply: Reply)
    requires db.Valid()
    modifies db
    ensures db.Valid()
    ensures reply == NotInGuild <==> inv.guild.None?
    ensures reply == MissingPermission <==> inv.guild.Some? && !MayManage(inv)
    ensures reply == Removed <==>
      inv.guild.Some? && MayManage(inv) && db.available && inv.guild.value in IdsOf(old(db.servers))
    ensures reply == NotFound <==>
      inv.guild.Some? && MayManage(inv) && db.available && inv.guild.value !in IdsOf(old(db.servers))
    ensures reply == DeleteFailed <==> inv.guild.Some? && MayManage(inv) && !db.available
    ensures reply == Removed || reply == NotFound ==>
      && db.servers == TrackedWithout(old(db.servers), inv.guild.value)
      && db.serverPictures == RowsNotOf(old(db.serverPictures), inv.guild.value)
      && inv.guild.value !in IdsOf(db.servers)
      && (forall r :: r in db.serverPictures ==> r.owner != inv.guild.value)
    ensures reply != Removed && reply != NotFound ==>
      db.servers == old(db.servers) && db.serverPictures == old(db.serverPictures)
    ensures db.users == old(db.users) && db.profilePictures == old(db.profilePictures)
    ensures db.usernameChanges == old(db.usernameChanges)
  {
    if inv.guild.None? {
      return NotInGuild;
    }
    var guildId := inv.guild.value;
    if !MayManage(inv) {
      return MissingPermission;
    }
    var result := db.DeleteTracked(Community, guildId);
    TrackedWithoutIds(old(db.servers), guildId);
    match result {
      case Done(affected) =>
        reply := if affected > 0 then Removed else NotFound;
      case Failed =>
        reply := DeleteFailed;
    }
  }
}
