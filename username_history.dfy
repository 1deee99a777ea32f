/** /usernamehistory: a tracked user's recorded display names, one embed
    field per UsernameChange row in table order, ten to a page. */
module UsernameHistory {
  import opened Rows
  import opened Repository
  import opened Pagination

  datatype Reply =
    | NoReply                  // the first option is not a user: nothing is sent
    | UserNotFound             // the "User not found" embed
    | Aborted                  // resolving the Discord user failed: the error is returned, nothing is sent
    | NoEntries                // "No Username entries found. …"
    | FirstPage(page: Page<Entry>)

  /** into_iter().map(…).collect(): one field per row, in order, whose
      text is the username and whose title shows the time stamp. */
  function NameEntries(rows: seq<NameRow>): (r: seq<Entry>)
    ensures |r| == |rows|
    ensures forall i :: 0 <= i < |rows| ==> r[i].content == rows[i].username && r[i].recordedAt == rows[i].changedAt
  {
    seq(|rows|, i requires 0 <= i < |rows| => Entry(rows[i].changedAt, rows[i].username))
  }

  method Run(db: Database, user: Option<EntityId>, resolves: bool) returns (reply: Reply)
    ensures reply == NoReply <==> user.None?
    ensures reply == UserNotFound <==> user.Some? && (!db.available || user.value !in IdsOf(db.users))
    ensures reply == Aborted <==> user.Some? && db.available && user.value in IdsOf(db.users) && !resolves
    ensures reply == NoEntries <==>
      user.Some? && db.available && user.value in IdsOf(db.users) && resolves &&
      NamesOf(db.usernameChanges, user.value) == []
    ensures reply.FirstPage? ==>
      var entries := NameEntries(NamesOf(db.usernameChanges, user.value));
      entries != [] && PageOf(entries, 0) == Some(reply.page)
  {
    if user.None? {
      return NoReply;
    }
    if !db.available || user.value !in IdsOf(db.users) {
      return UserNotFound;
    }
    var entries := NamesOf(db.usernameChanges, user.value);
    if !resolves {
      return Aborted;
    }
    var names := NameEntries(entries);
    if names == [] {
      return NoEntries;
    }
    PageBounds(names, 0);
    reply := FirstPage(PageOf(names, 0).value);
  }
}
