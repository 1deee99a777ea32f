/** Rows of the bot's SQLite tables, as values, and the read queries the
    rest of the model runs over them: "rows of this owner", "does this owner
    have a row with this checksum", "newest row" (ORDER BY changedAt DESC
    LIMIT 1) and "all rows newest first" (ORDER BY changedAt DESC). */
module Rows {

  datatype Option<T> = None | Some(value: T)

  /** A platform snowflake id, stored as i64. */
  type EntityId = int
  /** Seconds since the Unix epoch, stored as i64. */
  type Timestamp = int

  /** The first and last second chrono's DateTime<Utc> can represent
      (-262143-01-01T00:00:00Z and +262142-12-31T23:59:59Z). */
  const MinUtcSeconds: int := -8334601315200
  const MaxUtcSeconds: int := 8210266876799

  /** DateTime::from_timestamp(t, 0) returns Some exactly for these. */
  predicate Representable(t: Timestamp)
  {
    MinUtcSeconds <= t <= MaxUtcSeconds
  }
  /** Lower-case hexadecimal SHA-1 digest of the image bytes. */
  type Checksum = string
  /** Address of the archived copy on the image host. */
  type Link = string

  /** One row of ProfilePicture (owner = userId) or of ServerPicture
      (owner = serverId); the two tables have the same shape. */
  datatype ImageRow = ImageRow(checksum: Checksum, owner: EntityId, changedAt: Timestamp, link: Link)

  /** The composite primary key (checksum, owner, changedAt). */
  datatype ImageKey = ImageKey(checksum: Checksum, owner: EntityId, changedAt: Timestamp)

  function KeyOf(r: ImageRow): ImageKey
  {
    ImageKey(r.checksum, r.owner, r.changedAt)
  }

  /** One row of UsernameChange. */
  datatype NameRow = NameRow(changedAt: Timestamp, username: string, userId: EntityId)

  /** One row of User (id = discordId) or of Server (id = serverId); the id
      is the primary key and trackedSince is a nullable column. */
  datatype TrackedRow = TrackedRow(id: EntityId, trackedSince: Option<Timestamp>)

  // ---------------------------------------------------------------------
  // Keys

  predicate ImageKeysUnique(rows: seq<ImageRow>)
  {
    forall i, j :: 0 <= i < j < |rows| ==> KeyOf(rows[i]) != KeyOf(rows[j])
  }

  predicate HasImageKey(rows: seq<ImageRow>, k: ImageKey)
  {
    exists i :: 0 <= i < |rows| && KeyOf(rows[i]) == k
  }

  lemma AppendFreshKey(rows: seq<ImageRow>, r: ImageRow)
    requires ImageKeysUnique(rows) && !HasImageKey(rows, KeyOf(r))
    ensures ImageKeysUnique(rows + [r])
  {
    var s := rows + [r];
    forall i, j | 0 <= i < j < |s| ensures KeyOf(s[i]) != KeyOf(s[j]) {
      if j == |rows| {
        assert s[i] == rows[i];
      }
    }
  }

  /** A row with the same key carries the same checksum and owner. */
  lemma KeyHasChecksum(rows: seq<ImageRow>, r: ImageRow)
    ensures HasImageKey(rows, KeyOf(r)) ==> HasChecksum(rows, r.owner, r.checksum)
  {
    if HasImageKey(rows, KeyOf(r)) {
      var k :| 0 <= k < |rows| && KeyOf(rows[k]) == KeyOf(r);
      assert rows[k].owner == r.owner && rows[k].checksum == r.checksum;
    }
  }

  // ---------------------------------------------------------------------
  // WHERE owner = ?

  /** The rows of one owner, in table order. */
  function RowsOf(rows: seq<ImageRow>, id: EntityId): (r: seq<ImageRow>)
    ensures |r| <= |rows|
    ensures forall x :: x in r <==> x in rows && x.owner == id
  {
    if rows == [] then []
    else
      var last := rows[|rows| - 1];
      RowsOf(rows[..|rows| - 1], id) + (if last.owner == id then [last] else [])
  }

  lemma RowsOfAppend(rows: seq<ImageRow>, x: ImageRow, id: EntityId)
    ensures RowsOf(rows + [x], id) == RowsOf(rows, id) + (if x.owner == id then [x] else [])
  {
    assert (rows + [x])[..|rows|] == rows;
  }

  /** Each row of the owner occurs in the result as often as in the table,
      and no other row occurs. */
  lemma {:induction false} RowsOfMultiset(rows: seq<ImageRow>, id: EntityId)
    ensures forall x :: multiset(RowsOf(rows, id))[x] == if x.owner == id then multiset(rows)[x] else 0
  {
    if rows != [] {
      var init, last := rows[..|rows| - 1], rows[|rows| - 1];
      RowsOfMultiset(init, id);
      assert rows == init + [last];
      assert multiset(rows) == multiset(init) + multiset{last};
    }
  }

  /** Filtering keeps table order: the rows of a table made of two parts
      are the rows of the first part followed by those of the second. */
  lemma {:induction false} RowsOfConcat(a: seq<ImageRow>, b: seq<ImageRow>, id: EntityId)
    ensures RowsOf(a + b, id) == RowsOf(a, id) + RowsOf(b, id)
  {
    if b == [] {
      assert a + b == a;
    } else {
      var init, last := b[..|b| - 1], b[|b| - 1];
      var tail := if last.owner == id then [last] else [];
      assert b == init + [last];
      assert a + b == (a + init) + [last];
      calc {
        RowsOf(a + b, id);
        { RowsOfAppend(a + init, last, id); }
        RowsOf(a + init, id) + tail;
        { RowsOfConcat(a, init, id); }
        (RowsOf(a, id) + RowsOf(init, id)) + tail;
        RowsOf(a, id) + (RowsOf(init, id) + tail);
        { RowsOfAppend(init, last, id); }
        RowsOf(a, id) + RowsOf(b, id);
      }
    }
  }


  /** The rows that do not belong to one owner, in table order: what an
      ON DELETE CASCADE leaves behind. */
  function RowsNotOf(rows: seq<ImageRow>, id: EntityId): (r: seq<ImageRow>)
    ensures |r| <= |rows|
    ensures forall x :: x in r <==> x in rows && x.owner != id
  {
    if rows == [] then []
    else
      var last := rows[|rows| - 1];
      RowsNotOf(rows[..|rows| - 1], id) + (if last.owner != id then [last] else [])
  }

  /** SELECT checksum FROM … WHERE checksum = ? AND owner = ?  returns a row. */
  predicate HasChecksum(rows: seq<ImageRow>, id: EntityId, c: Checksum)
  {
    exists i :: 0 <= i < |rows| && rows[i].owner == id && rows[i].checksum == c
  }

  // ---------------------------------------------------------------------
  // ORDER BY changedAt DESC LIMIT 1

  /** The newest row of an owner. SQLite leaves the order of rows with equal
      changedAt unspecified; the model picks the one inserted last. */
  function Latest(rows: seq<ImageRow>, id: EntityId): (r: Option<ImageRow>)
    ensures r.None? <==> forall x :: x in rows ==> x.owner != id
    ensures r.Some? ==> r.value in rows && r.value.owner == id
    ensures r.Some? ==> forall x :: x in rows && x.owner == id ==> x.changedAt <= r.value.changedAt
  {
    if rows == [] then None
    else
      var rest := Latest(rows[..|rows| - 1], id);
      var last := rows[|rows| - 1];
      if last.owner == id && (rest.None? || rest.value.changedAt <= last.changedAt) then Some(last)
      else rest
  }

  lemma LatestAppend(rows: seq<ImageRow>, x: ImageRow)
    ensures Latest(rows + [x], x.owner) ==
      (var before := Latest(rows, x.owner);
       if before.None? || before.value.changedAt <= x.changedAt then Some(x) else before)
  {
    assert (rows + [x])[..|rows|] == rows;
  }

  lemma LatestAppendOther(rows: seq<ImageRow>, x: ImageRow, id: EntityId)
    requires x.owner != id
    ensures Latest(rows + [x], id) == Latest(rows, id)
  {
    assert (rows + [x])[..|rows|] == rows;
  }

  // ---------------------------------------------------------------------
  // ORDER BY changedAt DESC

  predicate NewestFirstOrdered(s: seq<ImageRow>)
  {
    forall i, j :: 0 <= i < j < |s| ==> s[i].changedAt >= s[j].changedAt
  }

  /** Places x into a newest-first list, ahead of every row that is not
      strictly newer than x. */
  function InsertByTime(x: ImageRow, t: seq<ImageRow>): (r: seq<ImageRow>)
    ensures multiset(r) == multiset(t) + multiset{x}
    ensures |r| == |t| + 1
  {
    if t == [] || t[0].changedAt <= x.changedAt then [x] + t
    else
      assert t == [t[0]] + t[1..];
      [t[0]] + InsertByTime(x, t[1..])
  }

  /** The rows ordered newest first; among rows with equal changedAt the
      one inserted later comes first. */
  function NewestFirst(rows: seq<ImageRow>): (r: seq<ImageRow>)
    ensures multiset(r) == multiset(rows)
  {
    if rows == [] then []
    else
      assert rows == rows[..|rows| - 1] + [rows[|rows| - 1]];
      InsertByTime(rows[|rows| - 1], NewestFirst(rows[..|rows| - 1]))
  }

  /** InsertByTime adds no row later than a bound every input row meets. */
  lemma {:induction false} InsertByTimeBound(x: ImageRow, t: seq<ImageRow>, bound: Timestamp)
    requires x.changedAt <= bound
    requires forall i :: 0 <= i < |t| ==> t[i].changedAt <= bound
    ensures forall i :: 0 <= i < |InsertByTime(x, t)| ==> InsertByTime(x, t)[i].changedAt <= bound
  {
    if t != [] && t[0].changedAt > x.changedAt {
      InsertByTimeBound(x, t[1..], bound);
    }
  }

  lemma {:induction false} InsertByTimeOrdered(x: ImageRow, t: seq<ImageRow>)
    requires NewestFirstOrdered(t)
    ensures NewestFirstOrdered(InsertByTime(x, t))
  {
    if t != [] && t[0].changedAt > x.changedAt {
      var rest := InsertByTime(x, t[1..]);
      InsertByTimeOrdered(x, t[1..]);
      InsertByTimeBound(x, t[1..], t[0].changedAt);
      var r := [t[0]] + rest;
      assert forall i :: 1 <= i < |r| ==> r[i] == rest[i - 1];
    }
  }

  lemma {:induction false} NewestFirstIsOrdered(rows: seq<ImageRow>)
    ensures NewestFirstOrdered(NewestFirst(rows))
  {
    if rows != [] {
      NewestFirstIsOrdered(rows[..|rows| - 1]);
      InsertByTimeOrdered(rows[|rows| - 1], NewestFirst(rows[..|rows| - 1]));
    }
  }

  lemma InsertByTimeHead(x: ImageRow, t: seq<ImageRow>)
    ensures InsertByTime(x, t)[0] == if t == [] || t[0].changedAt <= x.changedAt then x else t[0]
  {
  }

  lemma NewestFirstAppend(rows: seq<ImageRow>, x: ImageRow)
    ensures NewestFirst(rows + [x]) == InsertByTime(x, NewestFirst(rows))
  {
    assert (rows + [x])[..|rows|] == rows;
  }

  /** The head of an owner's newest-first listing is the row the "latest"
      query returns, and the listing is empty exactly when there is none. */
  lemma {:induction false} NewestFirstHeadIsLatest(rows: seq<ImageRow>, id: EntityId)
    ensures NewestFirst(RowsOf(rows, id)) == [] <==> Latest(rows, id).None?
    ensures Latest(rows, id).Some? ==> NewestFirst(RowsOf(rows, id))[0] == Latest(rows, id).value
  {
    if rows != [] {
      var init := rows[..|rows| - 1];
      var last := rows[|rows| - 1];
      assert rows == init + [last];
      NewestFirstHeadIsLatest(init, id);
      RowsOfAppend(init, last, id);
      if last.owner == id {
        NewestFirstAppend(RowsOf(init, id), last);
        InsertByTimeHead(last, NewestFirst(RowsOf(init, id)));
        LatestAppend(init, last);
      } else {
        LatestAppendOther(init, last, id);
        assert RowsOf(rows, id) == RowsOf(init, id);
      }
    }
  }

  // ---------------------------------------------------------------------
  // UsernameChange queries

  /** SELECT username FROM UsernameChange WHERE username = ? AND userId = ? */
  predicate HasName(names: seq<NameRow>, userId: EntityId, username: string)
  {
    exists i :: 0 <= i < |names| && names[i].userId == userId && names[i].username == username
  }

  /** Every (userId, username) pair occurs at most once. */
  predicate NamePairsUnique(names: seq<NameRow>)
  {
    forall i, j :: 0 <= i < j < |names| ==>
      names[i].userId != names[j].userId || names[i].username != names[j].username
  }

  /** The UsernameChange rows that survive deleting one user. */
  function NamesNotOf(names: seq<NameRow>, id: EntityId): (r: seq<NameRow>)
    ensures |r| <= |names|
    ensures forall x :: x in r <==> x in names && x.userId != id
  {
    if names == [] then []
    else
      var last := names[|names| - 1];
      NamesNotOf(names[..|names| - 1], id) + (if last.userId != id then [last] else [])
  }

  /** The UsernameChange rows of one user, in table order. */
  function NamesOf(names: seq<NameRow>, id: EntityId): (r: seq<NameRow>)
    ensures |r| <= |names|
    ensures forall x :: x in r <==> x in names && x.userId == id
  {
    if names == [] then []
    else
      var last := names[|names| - 1];
      NamesOf(names[..|names| - 1], id) + (if last.userId == id then [last] else [])
  }

  // ---------------------------------------------------------------------
  // User / Server queries

  /** The id column of a User or Server table, in table order. */
  function IdsOf(rows: seq<TrackedRow>): (r: seq<EntityId>)
    ensures |r| == |rows|
    ensures forall i :: 0 <= i < |rows| ==> r[i] == rows[i].id
  {
    if rows == [] then [] else IdsOf(rows[..|rows| - 1]) + [rows[|rows| - 1].id]
  }

  predicate Distinct(ids: seq<EntityId>)
  {
    forall i, j :: 0 <= i < j < |ids| ==> ids[i] != ids[j]
  }

  /** SELECT … WHERE id = ? LIMIT 1 */
  function FindTracked(rows: seq<TrackedRow>, id: EntityId): (r: Option<TrackedRow>)
    ensures r.None? <==> id !in IdsOf(rows)
    ensures r.Some? ==> r.value in rows && r.value.id == id
  {
    if rows == [] then None
    else if rows[0].id == id then Some(rows[0])
    else
      assert rows == [rows[0]] + rows[1..];
      assert IdsOf(rows) == [rows[0].id] + IdsOf(rows[1..]);
      FindTracked(rows[1..], id)
  }

  /** DELETE FROM … WHERE id = ?: the rows that remain. */
  function TrackedWithout(rows: seq<TrackedRow>, id: EntityId): (r: seq<TrackedRow>)
    ensures forall x :: x in r <==> x in rows && x.id != id
    ensures id !in IdsOf(rows) ==> r == rows
  {
    if rows == [] then []
    else
      var init := rows[..|rows| - 1];
      var last := rows[|rows| - 1];
      assert rows == init + [last];
      assert IdsOf(rows) == IdsOf(init) + [last.id];
      TrackedWithout(init, id) + (if last.id != id then [last] else [])
  }

  lemma IdsOfAppend(rows: seq<TrackedRow>, x: TrackedRow)
    ensures IdsOf(rows + [x]) == IdsOf(rows) + [x.id]
  {
    assert (rows + [x])[..|rows|] == rows;
  }

  lemma IdsOfMembership(rows: seq<TrackedRow>, id: EntityId)
    ensures id in IdsOf(rows) <==> exists x :: x in rows && x.id == id
  {
    if id in IdsOf(rows) {
      var k :| 0 <= k < |rows| && IdsOf(rows)[k] == id;
      assert rows[k] in rows;
    }
    if exists x :: x in rows && x.id == id {
      var x :| x in rows && x.id == id;
      var k :| 0 <= k < |rows| && rows[k] == x;
      assert IdsOf(rows)[k] == id;
    }
  }

  lemma DistinctSplit(ids: seq<EntityId>, x: EntityId)
    requires Distinct(ids + [x])
    ensures Distinct(ids) && x !in ids
  {
    var s := ids + [x];
    forall k | 0 <= k < |ids| ensures ids[k] != x {
      assert s[k] == ids[k] && s[|ids|] == x;
    }
    forall i, j | 0 <= i < j < |ids| ensures ids[i] != ids[j] {
      assert s[i] == ids[i] && s[j] == ids[j];
    }
  }

  /** With a primary key on id, the delete removes exactly one row when the
      id is present and none otherwise. */
  lemma {:induction false} TrackedWithoutCount(rows: seq<TrackedRow>, id: EntityId)
    requires Distinct(IdsOf(rows))
    ensures |TrackedWithout(rows, id)| == |rows| - (if id in IdsOf(rows) then 1 else 0)
  {
    if rows != [] {
      var init := rows[..|rows| - 1];
      var last := rows[|rows| - 1];
      assert rows == init + [last];
      IdsOfAppend(init, last);
      DistinctSplit(IdsOf(init), last.id);
      TrackedWithoutCount(init, id);
      DistinctSplit(IdsOf(init), last.id);
      assert id in IdsOf(rows) <==> id in IdsOf(init) || id == last.id;
    }
  }

  lemma DistinctAppend(ids: seq<EntityId>, x: EntityId)
    requires Distinct(ids) && x !in ids
    ensures Distinct(ids + [x])
  {
    var s := ids + [x];
    forall i, j | 0 <= i < j < |s| ensures s[i] != s[j] {
      assert s[i] == ids[i];
      if j < |ids| {
        assert s[j] == ids[j];
      }
    }
  }

  /** The ids left after the delete are the old ones minus the deleted id. */
  lemma TrackedWithoutMembership(rows: seq<TrackedRow>, id: EntityId)
    ensures forall x :: x in IdsOf(TrackedWithout(rows, id)) <==> x in IdsOf(rows) && x != id
  {
    var w := TrackedWithout(rows, id);
    forall x ensures x in IdsOf(w) <==> x in IdsOf(rows) && x != id {
      IdsOfMembership(w, x);
      IdsOfMembership(rows, x);
    }
  }

  /** Deleting rows keeps the ids free of duplicates. */
  lemma {:induction false} TrackedWithoutDistinct(rows: seq<TrackedRow>, id: EntityId)
    requires Distinct(IdsOf(rows))
    ensures Distinct(IdsOf(TrackedWithout(rows, id)))
  {
    if rows != [] {
      var init := rows[..|rows| - 1];
      var last := rows[|rows| - 1];
      assert rows == init + [last];
      IdsOfAppend(init, last);
      DistinctSplit(IdsOf(init), last.id);
      TrackedWithoutDistinct(init, id);
      var wi := TrackedWithout(init, id);
      if last.id != id {
        TrackedWithoutMembership(init, id);
        assert TrackedWithout(rows, id) == wi + [last];
        IdsOfAppend(wi, last);
        DistinctAppend(IdsOf(wi), last.id);
      }
    }
  }

  /** The ids left after the delete are the old ones minus the deleted id,
      still without duplicates. */
  lemma TrackedWithoutIds(rows: seq<TrackedRow>, id: EntityId)
    requires Distinct(IdsOf(rows))
    ensures Distinct(IdsOf(TrackedWithout(rows, id)))
    ensures forall x :: x in IdsOf(TrackedWithout(rows, id)) <==> x in IdsOf(rows) && x != id
  {
    TrackedWithoutMembership(rows, id);
    TrackedWithoutDistinct(rows, id);
  }
}
