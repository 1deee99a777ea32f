/** /removemonitor: stop tracking a user; the picture and display-name
    history goes with it by ON DELETE CASCADE. */
module RemoveMonitor {
  import opened Rows
  import opened Repository

  datatype Reply =
    | InvalidUser     // "Invalid User ID."
    | Deleted         // "Sucessfully deleted user."
    | NotFound        // "Unable to find user. User may not be tracked."
    | DeleteFailed    // "Unable to delete User. User may not be tracked."

  /** `user` is the first resolved option when it is a user, None otherwise. */
  method Run(db: Database, user: Option<EntityId>) returns (reply: Reply)
    requires db.Valid()
    modifies db
    ensures db.Valid()
    ensures reply == InvalidUser <==> user.None?
    ensures reply == Deleted <==> user.Some? && db.available && user.value in IdsOf(old(db.users))
    ensures reply == NotFound <==> user.Some? && db.available && user.value !in IdsOf(old(db.users))
    ensures reply == DeleteFailed <==> user.Some? && !db.available
    ensures reply == Deleted || reply == NotFound ==>
      && db.users == TrackedWithout(old(db.users), user.value)
      && db.profilePictures == RowsNotOf(old(db.profilePictures), user.value)
      && db.usernameChanges == NamesNotOf(old(db.usernameChanges), user.value)
      && user.value !in IdsOf(db.users)
      && (forall r :: r in db.profilePictures ==> r.owner != user.value)
      && (forall n :: n in db.usernameChanges ==> n.userId != user.value)
    ensures reply != Deleted && reply != NotFound ==>
      db.users == old(db.users) && db.profilePictures == old(db.profilePictures) &&
      db.usernameChanges == old(db.usernameChanges)
    ensures db.servers == old(db.servers) && db.serverPictures == old(db.serverPictures)
  {
    if user.None? {
      return InvalidUser;
    }
    var result := db.DeleteTracked(Account, user.value);
    TrackedWithoutIds(old(db.users), user.value);
    match result {
      case Done(affected) =>
        reply := if affected > 0 then Deleted else NotFound;
      case Failed =>
        reply := DeleteFailed;
    }
  }
}
