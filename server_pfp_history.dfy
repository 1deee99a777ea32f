/** /serverpfphistory: the server's recorded icons, newest first, one embed
    field per ServerPicture row, ten to a page. */
module ServerPfpHistory {
  import opened Rows
  import opened Repository
  import opened Pagination

  datatype Reply =
    | NotInGuild               // "This command can only be used in a server."
    | NoHistory                // "… has no recorded server icon history."
    | FetchFailed              // "Failed to fetch server icon history."
    | FirstPage(page: Page<Entry>)

  /** The field for one record: titled with its time stamp, and showing the
      archived link and the checksum. */
  function IconEntry(record: ImageRow): Entry
  {
    Entry(record.changedAt, "[Link](" + record.link + ")\nChecksum: " + record.checksum)
  }

  lemma IconEntryShowsRecord(record: ImageRow)
    ensures IconEntry(record).recordedAt == record.changedAt
    ensures Contains(IconEntry(record).content, record.link)
    ensures Contains(IconEntry(record).content, record.checksum)
  {
    var content := IconEntry(record).content;
    assert OccursAt(content, record.link, 7);
    assert OccursAt(content, record.checksum, 7 + |record.link| + 12);
  }

  /** One field per record, in order. */
  function IconEntriesOf(records: seq<ImageRow>): (r: seq<Entry>)
    ensures |r| == |records|
    ensures forall i :: 0 <= i < |records| ==> r[i] == IconEntry(records[i]) && r[i].recordedAt == records[i].changedAt
  {
    seq(|records|, i requires 0 <= i < |records| => IconEntry(records[i]))
  }

  /** Field i shows the time, the link and the checksum of record i. */
  lemma IconEntriesShowRecords(records: seq<ImageRow>)
    ensures var entries := IconEntriesOf(records);
      forall i :: 0 <= i < |records| ==>
        && entries[i].recordedAt == records[i].changedAt
        && Contains(entries[i].content, records[i].link)
        && Contains(entries[i].content, records[i].checksum)
  {
    forall i | 0 <= i < |records| {
      IconEntryShowsRecord(records[i]);
    }
  }

  /** The push loop over the records. */
  method IconEntries(records: seq<ImageRow>) returns (entries: seq<Entry>)
    ensures entries == IconEntriesOf(records)
  {
    entries := [];
    for i := 0 to |records|
      invariant entries == IconEntriesOf(records[..i])
    {
      assert records[..i + 1][..i] == records[..i];
      entries := entries + [IconEntry(records[i])];
    }
    assert records[..|records|] == records;
  }

  /** The fields come out newest first, each showing its record's link and
      checksum. */
  lemma EntriesNewestFirst(rows: seq<ImageRow>, id: EntityId)
    ensures var entries := IconEntriesOf(NewestFirst(RowsOf(rows, id)));
      forall i, j :: 0 <= i < j < |entries| ==> entries[i].recordedAt >= entries[j].recordedAt
  {
    var records := NewestFirst(RowsOf(rows, id));
    var entries := IconEntriesOf(records);
    NewestFirstIsOrdered(RowsOf(rows, id));
    forall i, j | 0 <= i < j < |entries| ensures entries[i].recordedAt >= entries[j].recordedAt {
      assert entries[i].recordedAt == records[i].changedAt && entries[j].recordedAt == records[j].changedAt;
    }
  }

  method Run(db: Database, guild: Option<EntityId>) returns (reply: Reply)
    ensures reply == NotInGuild <==> guild.None?
    ensures reply == FetchFailed <==> guild.Some? && !db.available
    ensures reply == NoHistory <==> guild.Some? && db.available && RowsOf(db.serverPictures, guild.value) == []
    ensures reply.FirstPage? ==>
      var records := db.PicturesNewestFirst(Community, guild.value);
      records != [] && PageOf(IconEntriesOf(records), 0) == Some(reply.page)
  {
    if guild.None? {
      return NotInGuild;
    }
    if !db.available {
      return FetchFailed;
    }
    var records := db.PicturesNewestFirst(Community, guild.value);
    NewestFirstHeadIsLatest(db.serverPictures, guild.value);
    if records == [] {
      return NoHistory;
    }
    var entries := IconEntries(records);
    PageBounds(entries, 0);
    reply := FirstPage(PageOf(entries, 0).value);
  }
}
