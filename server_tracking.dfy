/** The Server and ServerPicture table contract, as the integration tests of
    the server-tracking schema exercise it: each scenario starts from a
    freshly migrated, reachable database and runs the same statements the
    test runs, for any server id and any timestamps rather than the test's
    fixed values. */
module ServerTracking {
  import opened Rows
  import opened Repository

  /** A freshly migrated database tracking one server and no pictures. */
  method NewServer(id: EntityId, since: Timestamp) returns (db: Database)
    ensures fresh(db) && db.Valid() && db.available
    ensures db.servers == [TrackedRow(id, Some(since))] && db.serverPictures == []
  {
    db := new Database(true, []);
    var inserted := db.InsertTracked(Community, TrackedRow(id, Some(since)));
  }

  /** INSERT INTO ServerPicture for a row of a tracked server. */
  method AddServerPicture(db: Database, row: ImageRow) returns (ok: bool)
    requires db.Valid() && db.available && row.owner in IdsOf(db.servers)
    modifies db
    ensures db.Valid() && db.servers == old(db.servers)
    ensures ok <==> !HasImageKey(old(db.serverPictures), KeyOf(row))
    ensures db.serverPictures == if ok then old(db.serverPictures) + [row] else old(db.serverPictures)
  {
    ok := db.InsertImage(Community, row);
  }

  /** DELETE FROM Server WHERE serverId = ?, cascading to ServerPicture. */
  method RemoveServer(db: Database, id: EntityId) returns (deleted: Exec)
    requires db.Valid() && db.available
    modifies db
    ensures deleted == Done(if id in IdsOf(old(db.servers)) then 1 else 0)
    ensures db.servers == TrackedWithout(old(db.servers), id)
    ensures db.serverPictures == RowsNotOf(old(db.serverPictures), id)
  {
    deleted := db.DeleteTracked(Community, id);
  }

  /** Inserting a server affects one row, and looking the server up again
      returns its id and tracking start. */
  method InsertAndRetrieveServer(id: EntityId, since: Timestamp) returns (inserted: Exec, found: Option<TrackedRow>)
    ensures inserted == Done(1)
    ensures found == Some(TrackedRow(id, Some(since)))
  {
    var db := new Database(true, []);
    inserted := db.InsertTracked(Community, TrackedRow(id, Some(since)));
    assert db.servers == [TrackedRow(id, Some(since))];
    found := FindTracked(db.servers, id);
  }

  /** Deleting a tracked server affects exactly one row, after which the
      server is no longer found. */
  method DeleteServer(id: EntityId, since: Timestamp) returns (deleted: Exec, found: Option<TrackedRow>)
    ensures deleted == Done(1)
    ensures found == None
  {
    var db := NewServer(id, since);
    OnlyRowDeleted(TrackedRow(id, Some(since)));
    deleted := RemoveServer(db, id);
    assert db.servers == [];
    found := FindTracked(db.servers, id);
  }

  /** A picture of a tracked server is stored as its only row. */
  method InsertServerPicture(id: EntityId, since: Timestamp, checksum: Checksum, link: Link)
    returns (ok: bool, pictures: seq<ImageRow>)
    ensures ok
    ensures pictures == [ImageRow(checksum, id, since, link)]
  {
    var db := NewServer(id, since);
    assert IdsOf(db.servers) == [id];
    ok := AddServerPicture(db, ImageRow(checksum, id, since, link));
    pictures := RowsOf(db.serverPictures, id);
  }

  /** A tracked server with three pictures recorded 100 seconds apart. */
  method ServerWithThreePictures(id: EntityId, t: Timestamp, r1: ImageRow, r2: ImageRow, r3: ImageRow)
    returns (db: Database)
    requires r1.owner == id && r2.owner == id && r3.owner == id
    requires r2.changedAt == r1.changedAt + 100 && r3.changedAt == r1.changedAt + 200
    ensures db.serverPictures == [r1, r2, r3]
  {
    db := NewServer(id, t);
    assert IdsOf(db.servers) == [id];
    KeysInTimeOrder(r1, r2, r3);
    var ok1 := AddServerPicture(db, r1);
    var ok2 := AddServerPicture(db, r2);
    var ok3 := AddServerPicture(db, r3);
  }

  /** Three pictures recorded 100 seconds apart come back, all three,
      newest first. */
  method RetrieveServerPictures(id: EntityId, t: Timestamp, c1: Checksum, c2: Checksum, c3: Checksum,
                                l1: Link, l2: Link, l3: Link)
    returns (listing: seq<ImageRow>)
    ensures |listing| == 3
    ensures listing == [ImageRow(c3, id, t + 200, l3), ImageRow(c2, id, t + 100, l2), ImageRow(c1, id, t, l1)]
    ensures listing[0].checksum == c3 && listing[1].checksum == c2 && listing[2].checksum == c1
  {
    var r1, r2, r3 := ImageRow(c1, id, t, l1), ImageRow(c2, id, t + 100, l2), ImageRow(c3, id, t + 200, l3);
    var db := ServerWithThreePictures(id, t, r1, r2, r3);
    RowsOfSingleOwner([r1, r2, r3], id);
    ThreeNewestFirst(r1, r2, r3);
    listing := db.PicturesNewestFirst(Community, id);
  }

  /** Deleting a server cascades to its pictures. */
  method CascadeDeleteServerPictures(id: EntityId, since: Timestamp, checksum: Checksum, link: Link)
    returns (deleted: Exec, pictures: seq<ImageRow>)
    ensures deleted == Done(1)
    ensures pictures == []
  {
    var db := NewServer(id, since);
    assert IdsOf(db.servers) == [id];
    var ok := AddServerPicture(db, ImageRow(checksum, id, since, link));
    deleted := RemoveServer(db, id);
    assert db.serverPictures == [];
    pictures := RowsOf(db.serverPictures, id);
  }

  /** A second server with an existing id is rejected by the primary key. */
  method UniqueServerId(id: EntityId, since: Timestamp) returns (first: Exec, duplicate: Exec)
    ensures first == Done(1)
    ensures duplicate == Failed
  {
    var db := new Database(true, []);
    first := db.InsertTracked(Community, TrackedRow(id, Some(since)));
    assert IdsOf(db.servers) == [id];
    duplicate := db.InsertTracked(Community, TrackedRow(id, Some(since + 1000)));
  }

  /** (checksum, serverId, changedAt) is the key of ServerPicture: the same
      picture at the same time is rejected, at a later time it is accepted. */
  method ServerPictureCompositeKey(id: EntityId, since: Timestamp, checksum: Checksum, link: Link)
    returns (first: bool, duplicate: bool, differentTime: bool)
    ensures first && !duplicate && differentTime
  {
    var db := NewServer(id, since);
    assert IdsOf(db.servers) == [id];
    var row := ImageRow(checksum, id, since, link);
    assert !HasImageKey([], KeyOf(row));
    first := AddServerPicture(db, row);
    assert db.serverPictures == [row];
    OneRowKey(row, KeyOf(row));
    duplicate := AddServerPicture(db, row);
    assert db.serverPictures == [row];
    var later := ImageRow(checksum, id, since + 100, link);
    OneRowKey(row, KeyOf(later));
    differentTime := AddServerPicture(db, later);
  }

  /** Of two pictures, the later one is the server's latest picture. */
  method QueryLatestServerPicture(id: EntityId, t: Timestamp, oldChecksum: Checksum, oldLink: Link,
                                  newChecksum: Checksum, newLink: Link)
    returns (latest: Option<ImageRow>)
    ensures latest.Some?
    ensures latest.value.checksum == newChecksum && latest.value.link == newLink
  {
    var db := NewServer(id, t);
    assert IdsOf(db.servers) == [id];
    var older, newer := ImageRow(oldChecksum, id, t, oldLink), ImageRow(newChecksum, id, t + 1000, newLink);
    assert !HasImageKey([], KeyOf(older));
    var ok1 := AddServerPicture(db, older);
    assert ok1;
    assert db.serverPictures == [older];
    assert !HasImageKey([older], KeyOf(newer));
    var ok2 := AddServerPicture(db, newer);
    assert ok2;
    assert db.serverPictures == [older] + [newer];
    assert Latest([older], id) == Some(older) by {
      assert [] + [older] == [older];
      LatestAppend([], older);
    }
    LatestAppend([older], newer);
    latest := db.LatestPicture(Community, id);
    assert latest == Some(newer);
  }

  /** Rows recorded at increasing times never collide with the keys of
      the rows before them. */
  lemma KeysInTimeOrder(r1: ImageRow, r2: ImageRow, r3: ImageRow)
    requires r1.changedAt < r2.changedAt < r3.changedAt
    ensures !HasImageKey([], KeyOf(r1)) && [] + [r1] == [r1]
    ensures !HasImageKey([r1], KeyOf(r2)) && [r1] + [r2] == [r1, r2]
    ensures !HasImageKey([r1, r2], KeyOf(r3)) && [r1, r2] + [r3] == [r1, r2, r3]
  {
    OneRowKey(r1, KeyOf(r2));
    assert [r1, r2][0] == r1 && [r1, r2][1] == r2;
  }

  /** Deleting the id of the only row empties the table. */
  lemma OnlyRowDeleted(row: TrackedRow)
    ensures IdsOf([row]) == [row.id]
    ensures TrackedWithout([row], row.id) == []
  {
    assert [row][..0] == [];
  }

  /** A single row holds exactly its own key. */
  lemma OneRowKey(r: ImageRow, k: ImageKey)
    ensures HasImageKey([r], k) <==> KeyOf(r) == k
  {
    assert [r][0] == r;
  }

  /** Rows that all belong to one owner are that owner's rows. */
  lemma {:induction false} RowsOfSingleOwner(rows: seq<ImageRow>, id: EntityId)
    requires forall i :: 0 <= i < |rows| ==> rows[i].owner == id
    ensures RowsOf(rows, id) == rows
  {
    if rows != [] {
      var init := rows[..|rows| - 1];
      RowsOfSingleOwner(init, id);
      assert rows == init + [rows[|rows| - 1]];
      RowsOfAppend(init, rows[|rows| - 1], id);
    }
  }

  /** Three rows inserted in time order list newest first. */
  lemma ThreeNewestFirst(r1: ImageRow, r2: ImageRow, r3: ImageRow)
    requires r1.changedAt < r2.changedAt < r3.changedAt
    ensures NewestFirst([r1, r2, r3]) == [r3, r2, r1]
  {
    assert [r1, r2, r3][..2] == [r1, r2];
    assert [r1, r2][..1] == [r1];
    assert [r1][..0] == [];
    assert NewestFirst([r1]) == [r1];
    assert NewestFirst([r1, r2]) == InsertByTime(r2, [r1]) == [r2, r1];
    assert [r2, r1][1..] == [r1];
    assert InsertByTime(r3, [r2, r1]) == [r3, r2, r1];
  }
}
