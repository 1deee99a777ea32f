/** /stats: how often a tracked user changes profile picture, from the gaps
    between consecutive ProfilePicture rows in table order. */
module Stats {
  import opened Rows
  import opened Repository
  import opened Durations

  datatype Reply =
    | NoReply                                  // the first option is not a user: nothing is sent
    | NotTracked                               // "User is not currently being tracked. …"
    | NotEnoughData                            // "Not enough data to calculate an average time …"
    | Panicked                                 // trackedSince is NULL: unwrap() panics
    | Averages(average: Average, changes: nat) // the Hours, Days and "Changes since …" fields

  /** The sum of the gaps between consecutive rows. */
  function GapSum(entries: seq<ImageRow>): int
  {
    if |entries| < 2 then 0
    else GapSum(entries[..|entries| - 1]) + (entries[|entries| - 1].changedAt - entries[|entries| - 2].changedAt)
  }

  /** The gaps telescope: their sum is the last time stamp minus the first. */
  lemma {:induction false} GapSumTelescopes(entries: seq<ImageRow>)
    requires entries != []
    ensures GapSum(entries) == entries[|entries| - 1].changedAt - entries[0].changedAt
  {
    if |entries| >= 2 {
      var init := entries[..|entries| - 1];
      GapSumTelescopes(init);
      assert init[0] == entries[0] && init[|init| - 1] == entries[|entries| - 2];
    }
  }

  /** The loop over the rows: count them, and add each row's distance to
      the row before it. */
  method Accumulate(entries: seq<ImageRow>) returns (total: int, count: nat)
    ensures count == |entries|
    ensures total == GapSum(entries)
  {
    total, count := 0, 0;
    while count < |entries|
      invariant count <= |entries|
      invariant total == GapSum(entries[..count])
    {
      if count > 0 {
        var prev := entries[count - 1];
        total := total + (entries[count].changedAt - prev.changedAt);
      }
      assert entries[..count + 1][..count] == entries[..count];
      count := count + 1;
    }
    assert entries[..count] == entries;
  }

  /** The average gap between pictures: the span from the first row to the
      last over the number of rows. */
  function SpanAverage(entries: seq<ImageRow>): Average
    requires |entries| > 1
  {
    Split(AverageSeconds(entries[|entries| - 1].changedAt - entries[0].changedAt, |entries|))
  }

  /** The statistics for the rows of a tracked user whose trackedSince is
      the given value. */
  method Report(trackedSince: Option<Timestamp>, entries: seq<ImageRow>) returns (reply: Reply)
    ensures reply == NotEnoughData <==> |entries| <= 1
    ensures reply == Panicked <==> |entries| > 1 && trackedSince.None?
    ensures reply != NoReply && reply != NotTracked
    ensures reply.Averages? ==>
      && reply.changes == |entries| > 1
      && reply.average == SpanAverage(entries)
  {
    var total, count := Accumulate(entries);
    if count > 1 {
      GapSumTelescopes(entries);
      var seconds := AverageSeconds(total, count);
      if trackedSince.None? {
        return Panicked;
      }
      reply := Averages(Split(seconds), count);
    } else {
      reply := NotEnoughData;
    }
  }

  /** run, for the first option `user` (None when it is not a user). */
  method Run(db: Database, user: Option<EntityId>) returns (reply: Reply)
    ensures reply == NoReply <==> user.None?
    ensures reply == NotTracked <==> user.Some? && (!db.available || user.value !in IdsOf(db.users))
    ensures reply == NotEnoughData <==>
      user.Some? && db.available && user.value in IdsOf(db.users) && |RowsOf(db.profilePictures, user.value)| <= 1
    ensures reply == Panicked <==>
      user.Some? && db.available && user.value in IdsOf(db.users) && |RowsOf(db.profilePictures, user.value)| > 1 &&
      FindTracked(db.users, user.value).value.trackedSince.None?
    ensures reply.Averages? ==>
      var rows := RowsOf(db.profilePictures, user.value);
      && reply.changes == |rows| > 1
      && reply.average == SpanAverage(rows)
  {
    if user.None? {
      return NoReply;
    }
    var record := if db.available then FindTracked(db.users, user.value) else None;
    if record.None? {
      return NotTracked;
    }
    assert record.value.id == user.value;
    var entries := RowsOf(db.profilePictures, user.value);
    reply := Report(record.value.trackedSince, entries);
  }
}
