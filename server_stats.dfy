/** /serverstats: how often the server's icon changes, from the gaps
    between consecutive ServerPicture rows listed newest first. */
module ServerStats {
  import opened Rows
  import opened Repository
  import opened Durations

  datatype Reply =
    | NotInGuild                               // "This command can only be used in a server."
    | NotTracked                               // "… is not currently being tracked. …"
    | NotEnoughData                            // "Not enough data to calculate average server icon changes."
    | Panicked                                 // trackedSince is NULL: unwrap() panics
    | Averages(average: Average, changes: nat) // the Hours, Days and "Changes since …" fields

  /** The windows(2) loop over newest-first rows: each window adds the newer
      time stamp minus the older one. */
  method WindowSum(entries: seq<ImageRow>) returns (total: int)
    ensures |entries| >= 2 ==> total == entries[0].changedAt - entries[|entries| - 1].changedAt
    ensures |entries| < 2 ==> total == 0
  {
    total := 0;
    if |entries| < 2 {
      return;
    }
    var i := 0;
    while i < |entries| - 1
      invariant 0 <= i <= |entries| - 1
      invariant total == entries[0].changedAt - entries[i].changedAt
    {
      var newer, older := entries[i], entries[i + 1];
      total := total + (newer.changedAt - older.changedAt);
      i := i + 1;
    }
  }

  /** Over rows listed newest first, the span from the oldest row to the
      newest is never negative, and it reaches from the entity's latest row
      to a row no later than any other. */
  lemma {:induction false} SpanOfNewestFirst(rows: seq<ImageRow>, id: EntityId)
    requires |NewestFirst(RowsOf(rows, id))| >= 2
    ensures var e := NewestFirst(RowsOf(rows, id));
      && e[0] == Latest(rows, id).value
      && e[0].changedAt - e[|e| - 1].changedAt >= 0
      && forall x :: x in rows && x.owner == id ==> e[|e| - 1].changedAt <= x.changedAt <= e[0].changedAt
  {
    var e := NewestFirst(RowsOf(rows, id));
    NewestFirstHeadIsLatest(rows, id);
    NewestFirstIsOrdered(RowsOf(rows, id));
    forall x | x in rows && x.owner == id ensures e[|e| - 1].changedAt <= x.changedAt {
      assert x in RowsOf(rows, id);
      assert x in multiset(RowsOf(rows, id));
      assert x in multiset(e);
      assert x in e;
      var k :| 0 <= k < |e| && e[k] == x;
      OrderedLast(e, k);
    }
  }

  lemma OrderedLast(e: seq<ImageRow>, k: nat)
    requires NewestFirstOrdered(e) && k < |e|
    ensures e[|e| - 1].changedAt <= e[k].changedAt
  {
  }

  /** The average gap between consecutive icons: the span from the oldest
      to the newest row over the number of gaps. */
  function SpanAverage(entries: seq<ImageRow>): Average
    requires |entries| > 1
  {
    Split(AverageSeconds(entries[0].changedAt - entries[|entries| - 1].changedAt, |entries| - 1))
  }

  /** The statistics for a tracked server's rows, newest first. */
  method Report(trackedSince: Option<Timestamp>, entries: seq<ImageRow>) returns (reply: Reply)
    ensures reply == NotEnoughData <==> |entries| <= 1
    ensures reply == Panicked <==> |entries| > 1 && trackedSince.None?
    ensures reply != NotInGuild && reply != NotTracked
    ensures reply.Averages? ==>
      && reply.changes == |entries| > 1
      && reply.average == SpanAverage(entries)
  {
    var changeCount := |entries|;
    if changeCount > 1 {
      var total := WindowSum(entries);
      var intervals := changeCount - 1;
      var seconds := AverageSeconds(total, intervals);
      if trackedSince.None? {
        return Panicked;
      }
      reply := Averages(Split(seconds), changeCount);
    } else {
      reply := NotEnoughData;
    }
  }

  /** run, for the guild the command was used in. */
  method Run(db: Database, guild: Option<EntityId>) returns (reply: Reply)
    ensures reply == NotInGuild <==> guild.None?
    ensures reply == NotTracked <==> guild.Some? && (!db.available || guild.value !in IdsOf(db.servers))
    ensures reply == NotEnoughData <==>
      guild.Some? && db.available && guild.value in IdsOf(db.servers) &&
      |db.PicturesNewestFirst(Community, guild.value)| <= 1
    ensures reply == Panicked <==>
      guild.Some? && db.available && guild.value in IdsOf(db.servers) &&
      |db.PicturesNewestFirst(Community, guild.value)| > 1 &&
      FindTracked(db.servers, guild.value).value.trackedSince.None?
    ensures reply.Averages? ==>
      var e := db.PicturesNewestFirst(Community, guild.value);
      && reply.changes == |e| > 1
      && reply.average == SpanAverage(e)
  {
    if guild.None? {
      return NotInGuild;
    }
    var record := if db.available then FindTracked(db.servers, guild.value) else None;
    if record.None? {
      return NotTracked;
    }
    assert record.value.id == guild.value;
    var entries := db.PicturesNewestFirst(Community, guild.value);
    reply := Report(record.value.trackedSince, entries);
  }
}
