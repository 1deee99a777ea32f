/** The periodic update pass. For every tracked user or server it resolves
    the current image, hashes it and decides between three outcomes: a
    checksum never seen for this entity is uploaded to the image host and
    recorded; a checksum equal to the newest row's is ignored; a checksum
    seen before but not the newest is recorded again without an upload,
    reusing the link of the entity's newest row. A second pass over users
    records a display name the first time that name is ever seen for the
    user. Network, hashing, the clock and the image host are inputs:
    `probe` says what resolving and downloading an entity yields in this
    pass, `hash` is the checksum function, and each probe carries the time
    stamp and the host's answer should the pass ask for them. */
module ChronUpdate {
  import opened Rows
  import opened Repository

  type Bytes = seq<bv8>

  /** What the image host answers when asked to store the bytes. */
  datatype Upload = Uploaded(link: Link) | UploadRejected

  /** What resolving and downloading one entity's image yields. */
  datatype Probe =
    | NoImage            // no image URL: no avatar or icon, or the entity could not be resolved
    | DownloadFailed     // the GET request failed
    | BodyFailed         // reading the response body failed
    | Fetched(bytes: Bytes, now: Timestamp, upload: Upload)

  /** What the pass did for one entity. */
  datatype Outcome =
    | SkippedNoImage
    | SkippedDownload
    | SkippedBody
    | Unchanged
    | Archived(row: ImageRow)
    | Reused(row: ImageRow)

  /** Why a pass stopped: unwrap() on a failed upload or insert panics and
      ends the whole pass; rows written before it stay. */
  datatype Halt = UploadFailed | InsertFailed

  /** The three-way decision on a downloaded checksum. */
  datatype Decision = FirstSight | SameAsLatest | Reappeared(link: Link)

  datatype Step = Continue(rows: seq<ImageRow>, outcome: Outcome) | Stop(halt: Halt)

  datatype Pass = Pass(rows: seq<ImageRow>, outcomes: seq<Outcome>, halt: Option<Halt>)

  lemma HasChecksumHasLatest(rows: seq<ImageRow>, id: EntityId, c: Checksum)
    requires HasChecksum(rows, id, c)
    ensures Latest(rows, id).Some?
  {
    var i :| 0 <= i < |rows| && rows[i].owner == id && rows[i].checksum == c;
    assert rows[i] in rows;
  }

  /** The checksum query, then the "newest row equals" query, then (when it
      does not) the link of the newest row of the entity overall. */
  function Decide(rows: seq<ImageRow>, id: EntityId, c: Checksum): Decision
  {
    if !HasChecksum(rows, id, c) then FirstSight
    else
      HasChecksumHasLatest(rows, id, c);
      var newest := Latest(rows, id).value;
      if newest.checksum == c then SameAsLatest else Reappeared(newest.link)
  }

  /** INSERT … .unwrap(): a key violation ends the pass. */
  function Append(rows: seq<ImageRow>, row: ImageRow, outcome: Outcome): Step
  {
    if HasImageKey(rows, KeyOf(row)) then Stop(InsertFailed) else Continue(rows + [row], outcome)
  }

  /** One iteration of the loop over entity ids. */
  function StepSpec(rows: seq<ImageRow>, id: EntityId, p: Probe, hash: Bytes -> Checksum): Step
  {
    match p
    case NoImage => Continue(rows, SkippedNoImage)
    case DownloadFailed => Continue(rows, SkippedDownload)
    case BodyFailed => Continue(rows, SkippedBody)
    case Fetched(bytes, now, upload) =>
      var c := hash(bytes);
      match Decide(rows, id, c)
      case SameAsLatest => Continue(rows, Unchanged)
      case FirstSight =>
        if upload.UploadRejected? then Stop(UploadFailed)
        else
          var row := ImageRow(c, id, now, upload.link);
          Append(rows, row, Archived(row))
      case Reappeared(link) =>
        var row := ImageRow(c, id, now, link);
        Append(rows, row, Reused(row))
  }

  /** The whole loop over the ids, in order, stopping at the first panic. */
  function RunPass(rows: seq<ImageRow>, ids: seq<EntityId>, probe: EntityId -> Probe, hash: Bytes -> Checksum): Pass
    decreases |ids|
  {
    if ids == [] then Pass(rows, [], None)
    else
      match StepSpec(rows, ids[0], probe(ids[0]), hash)
      case Stop(h) => Pass(rows, [], Some(h))
      case Continue(next, o) =>
        var rest := RunPass(next, ids[1..], probe, hash);
        Pass(rest.rows, [o] + rest.outcomes, rest.halt)
  }

  lemma RunPassUnfold(rows: seq<ImageRow>, ids: seq<EntityId>, i: nat, probe: EntityId -> Probe, hash: Bytes -> Checksum)
    requires i < |ids|
    ensures var s := StepSpec(rows, ids[i], probe(ids[i]), hash);
      RunPass(rows, ids[i..], probe, hash) ==
        if s.Stop? then Pass(rows, [], Some(s.halt))
        else
          var rest := RunPass(s.rows, ids[i + 1..], probe, hash);
          Pass(rest.rows, [s.outcome] + rest.outcomes, rest.halt)
  {
    assert ids[i..][0] == ids[i] && ids[i..][1..] == ids[i + 1..];
  }

  /** The loop invariant of UpdateMonitoredEntity: the outcomes gathered
      over ids[..i], followed by a run over the remaining ids from the
      current rows, make up the run over all ids from the rows at the start. */
  ghost predicate PassSoFar(start: seq<ImageRow>, rows: seq<ImageRow>, ids: seq<EntityId>, i: nat, outcomes: seq<Outcome>,
                            probe: EntityId -> Probe, hash: Bytes -> Checksum)
    requires i <= |ids|
  {
    var rest := RunPass(rows, ids[i..], probe, hash);
    RunPass(start, ids, probe, hash) == Pass(rest.rows, outcomes + rest.outcomes, rest.halt)
  }

  /** The invariant survives an iteration that continues. */
  lemma PassAdvances(start: seq<ImageRow>, rows: seq<ImageRow>, ids: seq<EntityId>, i: nat, outcomes: seq<Outcome>,
                     probe: EntityId -> Probe, hash: Bytes -> Checksum)
    requires i < |ids| && PassSoFar(start, rows, ids, i, outcomes, probe, hash)
    requires StepSpec(rows, ids[i], probe(ids[i]), hash).Continue?
    ensures var s := StepSpec(rows, ids[i], probe(ids[i]), hash);
      PassSoFar(start, s.rows, ids, i + 1, outcomes + [s.outcome], probe, hash)
  {
    RunPassUnfold(rows, ids, i, probe, hash);
    var s := StepSpec(rows, ids[i], probe(ids[i]), hash);
    var rest := RunPass(s.rows, ids[i + 1..], probe, hash);
    assert outcomes + ([s.outcome] + rest.outcomes) == outcomes + [s.outcome] + rest.outcomes;
  }

  /** An iteration that panics fixes the result of the whole pass. */
  lemma PassStops(start: seq<ImageRow>, rows: seq<ImageRow>, ids: seq<EntityId>, i: nat, outcomes: seq<Outcome>,
                  probe: EntityId -> Probe, hash: Bytes -> Checksum)
    requires i < |ids| && PassSoFar(start, rows, ids, i, outcomes, probe, hash)
    requires StepSpec(rows, ids[i], probe(ids[i]), hash).Stop?
    ensures RunPass(start, ids, probe, hash) == Pass(rows, outcomes, Some(StepSpec(rows, ids[i], probe(ids[i]), hash).halt))
  {
    RunPassUnfold(rows, ids, i, probe, hash);
    assert outcomes + [] == outcomes;
  }

  /** The invariant holds before the first iteration, and gives the result
      after the last. */
  lemma PassBounds(start: seq<ImageRow>, rows: seq<ImageRow>, ids: seq<EntityId>, outcomes: seq<Outcome>,
                   probe: EntityId -> Probe, hash: Bytes -> Checksum)
    ensures PassSoFar(start, start, ids, 0, [], probe, hash)
    ensures PassSoFar(start, rows, ids, |ids|, outcomes, probe, hash) ==>
      RunPass(start, ids, probe, hash) == Pass(rows, outcomes, None)
  {
    assert ids[0..] == ids;
    assert [] + RunPass(start, ids, probe, hash).outcomes == RunPass(start, ids, probe, hash).outcomes;
    assert ids[|ids|..] == [];
    assert outcomes + [] == outcomes;
  }

  /** INSERT … .unwrap() for one new row: the row is appended, or the pass
      stops on a key violation. */
  method InsertStep(db: Database, kind: EntityKind, row: ImageRow, o: Outcome)
    returns (outcome: Outcome, halt: Option<Halt>)
    requires db.Valid() && db.available && row.owner in IdsOf(db.Tracked(kind))
    modifies db
    ensures db.Valid()
    ensures var s := Append(old(db.Images(kind)), row, o);
      if s.Stop? then halt == Some(s.halt) && db.Images(kind) == old(db.Images(kind))
      else halt == None && outcome == s.outcome && db.Images(kind) == s.rows
    ensures db.Others(kind) == old(db.Others(kind))
  {
    var ok := db.InsertImage(kind, row);
    if ok {
      outcome, halt := o, None;
    } else {
      outcome, halt := o, Some(InsertFailed);
    }
  }

  /** The body of the loop for one entity id. */
  method UpdateEntity(db: Database, kind: EntityKind, id: EntityId, p: Probe, hash: Bytes -> Checksum)
    returns (outcome: Outcome, halt: Option<Halt>)
    requires db.Valid() && db.available && id in IdsOf(db.Tracked(kind))
    modifies db
    ensures db.Valid()
    ensures var s := StepSpec(old(db.Images(kind)), id, p, hash);
      if s.Stop? then halt == Some(s.halt) && db.Images(kind) == old(db.Images(kind))
      else halt == None && outcome == s.outcome && db.Images(kind) == s.rows
    ensures db.Others(kind) == old(db.Others(kind))
  {
    ghost var rows := db.Images(kind);
    outcome, halt := SkippedNoImage, None;
    match p {
      case NoImage =>
      case DownloadFailed =>
        outcome := SkippedDownload;
      case BodyFailed =>
        outcome := SkippedBody;
      case Fetched(bytes, now, upload) =>
        var c := hash(bytes);
        if !HasChecksum(db.Images(kind), id, c) {
          assert Decide(rows, id, c) == FirstSight;
          if upload.UploadRejected? {
            halt := Some(UploadFailed);
            return;
          }
          var row := ImageRow(c, id, now, upload.link);
          assert StepSpec(rows, id, p, hash) == Append(rows, row, Archived(row));
          outcome, halt := InsertStep(db, kind, row, Archived(row));
        } else {
          HasChecksumHasLatest(db.Images(kind), id, c);
          var newest := db.LatestPicture(kind, id).value;
          if newest.checksum == c {
            assert Decide(rows, id, c) == SameAsLatest;
            outcome := Unchanged;
          } else {
            var row := ImageRow(c, id, now, newest.link);
            assert Decide(rows, id, c) == Reappeared(newest.link);
            assert StepSpec(rows, id, p, hash) == Append(rows, row, Reused(row));
            outcome, halt := InsertStep(db, kind, row, Reused(row));
          }
        }
    }
  }

  /** update_monitored_entity: one pass over the User or the Server table. */
  method UpdateMonitoredEntity(db: Database, kind: EntityKind, probe: EntityId -> Probe, hash: Bytes -> Checksum)
    returns (outcomes: seq<Outcome>, halt: Option<Halt>)
    requires db.Valid()
    modifies db
    ensures db.Valid()
    ensures db.available ==>
      RunPass(old(db.Images(kind)), IdsOf(old(db.Tracked(kind))), probe, hash) == Pass(db.Images(kind), outcomes, halt)
    ensures !db.available ==> outcomes == [] && halt == None && db.Images(kind) == old(db.Images(kind))
    ensures db.Others(kind) == old(db.Others(kind))
  {
    outcomes, halt := [], None;
    if !db.available {
      // fetching the ids fails, and the pass does nothing
      return;
    }
    var ids := IdsOf(db.Tracked(kind));
    ghost var start := db.Images(kind);
    PassBounds(start, start, ids, [], probe, hash);
    var i := 0;
    while i < |ids|
      invariant 0 <= i <= |ids|
      invariant db.Valid()
      invariant db.Others(kind) == old(db.Others(kind))
      invariant ids == IdsOf(db.Tracked(kind))
      invariant PassSoFar(start, db.Images(kind), ids, i, outcomes, probe, hash)
    {
      ghost var before := db.Images(kind);
      assert ids[i] in IdsOf(db.Tracked(kind));
      var outcome, stop := UpdateEntity(db, kind, ids[i], probe(ids[i]), hash);
      if stop != None {
        PassStops(start, before, ids, i, outcomes, probe, hash);
        halt := stop;
        return;
      }
      PassAdvances(start, before, ids, i, outcomes, probe, hash);
      outcomes := outcomes + [outcome];
      i := i + 1;
    }
    PassBounds(start, db.Images(kind), ids, outcomes, probe, hash);
  }

  // ---------------------------------------------------------------------
  // Display names

  /** What resolving one user yields for the display-name pass. */
  datatype NameProbe = UserUnresolved | NoGlobalName | GlobalName(name: string, now: Timestamp)

  datatype NameOutcome = Unresolved | NoName | AlreadyRecorded | Recorded(row: NameRow)

  datatype NamePass = NamePass(names: seq<NameRow>, outcomes: seq<NameOutcome>)

  /** One iteration: append the name only if (name, user) was never recorded. */
  function NameStep(names: seq<NameRow>, id: EntityId, p: NameProbe): (seq<NameRow>, NameOutcome)
  {
    match p
    case UserUnresolved => (names, Unresolved)
    case NoGlobalName => (names, NoName)
    case GlobalName(name, now) =>
      if HasName(names, id, name) then (names, AlreadyRecorded)
      else
        var row := NameRow(now, name, id);
        (names + [row], Recorded(row))
  }

  function RunNamePass(names: seq<NameRow>, ids: seq<EntityId>, probe: EntityId -> NameProbe): NamePass
    decreases |ids|
  {
    if ids == [] then NamePass(names, [])
    else
      var (next, o) := NameStep(names, ids[0], probe(ids[0]));
      var rest := RunNamePass(next, ids[1..], probe);
      NamePass(rest.names, [o] + rest.outcomes)
  }

  /** The loop invariant of UpdateUsernames, as PassSoFar for pictures. */
  ghost predicate NamesSoFar(start: seq<NameRow>, names: seq<NameRow>, ids: seq<EntityId>, i: nat,
                             outcomes: seq<NameOutcome>, probe: EntityId -> NameProbe)
    requires i <= |ids|
  {
    var rest := RunNamePass(names, ids[i..], probe);
    RunNamePass(start, ids, probe) == NamePass(rest.names, outcomes + rest.outcomes)
  }

  lemma NamesAdvance(start: seq<NameRow>, names: seq<NameRow>, ids: seq<EntityId>, i: nat,
                     outcomes: seq<NameOutcome>, probe: EntityId -> NameProbe)
    requires i < |ids| && NamesSoFar(start, names, ids, i, outcomes, probe)
    ensures var (next, o) := NameStep(names, ids[i], probe(ids[i]));
      NamesSoFar(start, next, ids, i + 1, outcomes + [o], probe)
  {
    assert ids[i..][0] == ids[i] && ids[i..][1..] == ids[i + 1..];
    var (next, o) := NameStep(names, ids[i], probe(ids[i]));
    var rest := RunNamePass(next, ids[i + 1..], probe);
    assert outcomes + ([o] + rest.outcomes) == outcomes + [o] + rest.outcomes;
  }

  lemma NamesBounds(start: seq<NameRow>, names: seq<NameRow>, ids: seq<EntityId>,
                    outcomes: seq<NameOutcome>, probe: EntityId -> NameProbe)
    ensures NamesSoFar(start, start, ids, 0, [], probe)
    ensures NamesSoFar(start, names, ids, |ids|, outcomes, probe) ==>
      RunNamePass(start, ids, probe) == NamePass(names, outcomes)
  {
    assert ids[0..] == ids;
    assert [] + RunNamePass(start, ids, probe).outcomes == RunNamePass(start, ids, probe).outcomes;
    assert ids[|ids|..] == [];
    assert outcomes + [] == outcomes;
  }

  /** The body of the display-name loop for one user id. */
  method UpdateUsername(db: Database, id: EntityId, p: NameProbe) returns (outcome: NameOutcome)
    requires db.Valid() && db.available && id in IdsOf(db.users)
    modifies db
    ensures db.Valid()
    ensures NameStep(old(db.usernameChanges), id, p) == (db.usernameChanges, outcome)
    ensures db.users == old(db.users) && db.servers == old(db.servers)
    ensures db.profilePictures == old(db.profilePictures) && db.serverPictures == old(db.serverPictures)
  {
    match p {
      case UserUnresolved =>
        outcome := Unresolved;
      case NoGlobalName =>
        outcome := NoName;
      case GlobalName(name, now) =>
        if HasName(db.usernameChanges, id, name) {
          outcome := AlreadyRecorded;
        } else {
          var row := NameRow(now, name, id);
          var ok := db.InsertName(row);
          // the user is tracked and the database reachable, so the insert succeeds
          assert ok;
          outcome := Recorded(row);
        }
    }
  }

  /** The display-name loop of update_monitored_users. */
  method UpdateUsernames(db: Database, probe: EntityId -> NameProbe) returns (outcomes: seq<NameOutcome>)
    requires db.Valid()
    modifies db
    ensures db.Valid()
    ensures db.available ==> RunNamePass(old(db.usernameChanges), IdsOf(old(db.users)), probe) == NamePass(db.usernameChanges, outcomes)
    ensures !db.available ==> outcomes == [] && db.usernameChanges == old(db.usernameChanges)
    ensures db.users == old(db.users) && db.servers == old(db.servers)
    ensures db.profilePictures == old(db.profilePictures) && db.serverPictures == old(db.serverPictures)
  {
    outcomes := [];
    if !db.available {
      return;
    }
    var ids := IdsOf(db.users);
    ghost var start := db.usernameChanges;
    NamesBounds(start, start, ids, [], probe);
    var i := 0;
    while i < |ids|
      invariant 0 <= i <= |ids|
      invariant db.Valid()
      invariant db.users == old(db.users) && db.servers == old(db.servers)
      invariant db.profilePictures == old(db.profilePictures) && db.serverPictures == old(db.serverPictures)
      invariant ids == IdsOf(db.users)
      invariant NamesSoFar(start, db.usernameChanges, ids, i, outcomes, probe)
    {
      assert ids[i] in IdsOf(db.users);
      NamesAdvance(start, db.usernameChanges, ids, i, outcomes, probe);
      var outcome := UpdateUsername(db, ids[i], probe(ids[i]));
      outcomes := outcomes + [outcome];
      i := i + 1;
    }
    NamesBounds(start, db.usernameChanges, ids, outcomes, probe);
  }

  /** update_monitored_users: the profile-picture pass, then the display-name
      pass; a panic in the first ends the task before the second runs. */
  method UpdateMonitoredUsers(db: Database, probe: EntityId -> Probe, hash: Bytes -> Checksum, names: EntityId -> NameProbe)
    returns (outcomes: seq<Outcome>, halt: Option<Halt>, nameOutcomes: seq<NameOutcome>)
    requires db.Valid()
    modifies db
    ensures db.Valid()
    ensures db.available ==>
      RunPass(old(db.profilePictures), IdsOf(old(db.users)), probe, hash) == Pass(db.profilePictures, outcomes, halt)
    ensures db.available && halt == None ==>
      RunNamePass(old(db.usernameChanges), IdsOf(old(db.users)), names) == NamePass(db.usernameChanges, nameOutcomes)
    ensures halt != None || !db.available ==> nameOutcomes == [] && db.usernameChanges == old(db.usernameChanges)
    ensures !db.available ==> db.profilePictures == old(db.profilePictures)
    ensures db.users == old(db.users) && db.servers == old(db.servers) && db.serverPictures == old(db.serverPictures)
  {
    outcomes, halt := UpdateMonitoredEntity(db, Account, probe, hash);
    nameOutcomes := [];
    if halt == None {
      nameOutcomes := UpdateUsernames(db, names);
    }
  }

  /** update_monitored_servers: the generic pass over Server/ServerPicture. */
  method UpdateMonitoredServers(db: Database, probe: EntityId -> Probe, hash: Bytes -> Checksum)
    returns (outcomes: seq<Outcome>, halt: Option<Halt>)
    requires db.Valid()
    modifies db
    ensures db.Valid()
    ensures db.available ==>
      RunPass(old(db.serverPictures), IdsOf(old(db.servers)), probe, hash) == Pass(db.serverPictures, outcomes, halt)
    ensures !db.available ==> outcomes == [] && halt == None && db.serverPictures == old(db.serverPictures)
    ensures db.users == old(db.users) && db.servers == old(db.servers)
    ensures db.profilePictures == old(db.profilePictures) && db.usernameChanges == old(db.usernameChanges)
  {
    outcomes, halt := UpdateMonitoredEntity(db, Community, probe, hash);
  }
}
