/** /history: a tracked user's profile pictures, one embed field per
    ProfilePicture row in table order, ten to a page. */
module History {
  import opened Rows
  import opened Repository
  import opened Pagination

  datatype Reply =
    | NoReply                  // the first option is not a user: nothing is sent
    | UserNotFound             // the "User not found" embed
    | Aborted                  // resolving the Discord user failed: the error is returned, nothing is sent
    | NoEntries                // "No Profile picture entries found. …"
    | FirstPage(page: Page<Entry>)

  /** The field for one row: titled with its time stamp, and showing the
      archived link and the checksum. */
  function HistoryEntry(row: ImageRow): Entry
  {
    Entry(row.changedAt, "Link: [Look at the previous picture](" + row.link + ")\nChecksum: " + row.checksum)
  }

  /** Each field shows its row's time stamp, link and checksum. */
  lemma HistoryEntryShowsRow(row: ImageRow)
    ensures HistoryEntry(row).recordedAt == row.changedAt
    ensures Contains(HistoryEntry(row).content, row.link)
    ensures Contains(HistoryEntry(row).content, row.checksum)
  {
    var content := HistoryEntry(row).content;
    assert OccursAt(content, row.link, 37);
    assert OccursAt(content, row.checksum, 37 + |row.link| + 12);
  }

  /** into_iter().map(…).collect(): one field per row, in order. */
  function HistoryEntries(rows: seq<ImageRow>): (r: seq<Entry>)
    ensures |r| == |rows|
    ensures forall i :: 0 <= i < |rows| ==> r[i] == HistoryEntry(rows[i])
  {
    seq(|rows|, i requires 0 <= i < |rows| => HistoryEntry(rows[i]))
  }

  /** run, for the first option `user` (None when it is not a user), where
      `resolves` says whether the Discord user can be fetched. */
  method Run(db: Database, user: Option<EntityId>, resolves: bool) returns (reply: Reply)
    ensures reply == NoReply <==> user.None?
    ensures reply == UserNotFound <==> user.Some? && (!db.available || user.value !in IdsOf(db.users))
    ensures reply == Aborted <==> user.Some? && db.available && user.value in IdsOf(db.users) && !resolves
    ensures reply == NoEntries <==>
      user.Some? && db.available && user.value in IdsOf(db.users) && resolves &&
      RowsOf(db.profilePictures, user.value) == []
    ensures reply.FirstPage? ==>
      var entries := HistoryEntries(RowsOf(db.profilePictures, user.value));
      entries != [] && PageOf(entries, 0) == Some(reply.page)
  {
    if user.None? {
      return NoReply;
    }
    if !db.available || user.value !in IdsOf(db.users) {
      return UserNotFound;
    }
    var entries := RowsOf(db.profilePictures, user.value);
    if !resolves {
      return Aborted;
    }
    var pfps := HistoryEntries(entries);
    if pfps == [] {
      return NoEntries;
    }
    PageBounds(pfps, 0);
    reply := FirstPage(PageOf(pfps, 0).value);
  }
}
