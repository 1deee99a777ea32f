/** The bot's SQLite database as one object holding its five tables as
    sequences of rows in insertion order. For the Server and ServerPicture
    tables the constraints are the ones their integration tests pin down:
    serverId is the primary key, (checksum, serverId, changedAt) is the key
    of ServerPicture, a picture references a tracked server, and deleting a
    server cascades to its pictures. The User, ProfilePicture and
    UsernameChange tables are given the same constraints (discordId as
    primary key, picture and username rows referencing a tracked user, and
    the cascade from User to both); their schema is not among the files
    modelled, so those constraints are assumed. */
module Repository {
  import opened Rows

  /** Which kind of tracked entity: users (User, ProfilePicture and
      UsernameChange tables) or servers (Server and ServerPicture tables). */
  datatype EntityKind = Account | Community

  /** The outcome of an INSERT or DELETE statement. */
  datatype Exec = Done(rowsAffected: nat) | Failed

  class Database {
    /** Whether statements reach the database; when false every query and
        statement returns an error. */
    const available: bool
    var users: seq<TrackedRow>
    var profilePictures: seq<ImageRow>
    var usernameChanges: seq<NameRow>
    var servers: seq<TrackedRow>
    var serverPictures: seq<ImageRow>

    ghost predicate Valid()
      reads this
    {
      Consistent(users, profilePictures, usernameChanges, servers, serverPictures)
    }

    /** A freshly migrated database whose User table holds the given rows
        (no code in this model inserts users). */
    constructor (available: bool, users: seq<TrackedRow>)
      requires Distinct(IdsOf(users))
      ensures Valid()
      ensures this.available == available && this.users == users
      ensures profilePictures == [] && usernameChanges == [] && servers == [] && serverPictures == []
    {
      this.available := available;
      this.users := users;
      profilePictures := [];
      usernameChanges := [];
      servers := [];
      serverPictures := [];
    }

    /** The User or the Server table. */
    function Tracked(kind: EntityKind): seq<TrackedRow>
      reads this
    {
      match kind
      case Account => users
      case Community => servers
    }

    /** The ProfilePicture or the ServerPicture table. */
    function Images(kind: EntityKind): seq<ImageRow>
      reads this
    {
      match kind
      case Account => profilePictures
      case Community => serverPictures
    }

    /** The tables a pass over the pictures of one kind leaves alone. */
    function Others(kind: EntityKind): (seq<TrackedRow>, seq<TrackedRow>, seq<NameRow>, seq<ImageRow>)
      reads this
    {
      (users, servers, usernameChanges, if kind == Account then serverPictures else profilePictures)
    }

    /** INSERT INTO User/Server (id, trackedSince): fails on a duplicate id. */
    method InsertTracked(kind: EntityKind, row: TrackedRow) returns (result: Exec)
      requires Valid()
      modifies this
      ensures Valid()
      ensures result.Done? <==> available && row.id !in IdsOf(old(Tracked(kind)))
      ensures result.Done? ==> result.rowsAffected == 1
      ensures Tracked(kind) == if result.Done? then old(Tracked(kind)) + [row] else old(Tracked(kind))
      ensures kind == Account ==> servers == old(servers)
      ensures kind == Community ==> users == old(users)
      ensures profilePictures == old(profilePictures) && serverPictures == old(serverPictures)
      ensures usernameChanges == old(usernameChanges)
    {
      var rows := Tracked(kind);
      if available && row.id !in IdsOf(rows) {
        if kind == Account {
          TrackedGrows(users, row, profilePictures, usernameChanges);
          users := users + [row];
        } else {
          TrackedGrows(servers, row, serverPictures, []);
          servers := servers + [row];
        }
        result := Done(1);
      } else {
        result := Failed;
      }
    }

    /** DELETE FROM User/Server WHERE id = ?, with ON DELETE CASCADE on the
        picture table of that kind and, for users, on UsernameChange. */
    method DeleteTracked(kind: EntityKind, id: EntityId) returns (result: Exec)
      requires Valid()
      modifies this
      ensures Valid()
      ensures result.Done? <==> available
      ensures result.Done? ==> result.rowsAffected == if id in IdsOf(old(Tracked(kind))) then 1 else 0
      ensures Tracked(kind) == if result.Done? then TrackedWithout(old(Tracked(kind)), id) else old(Tracked(kind))
      ensures Images(kind) == if result.Done? then RowsNotOf(old(Images(kind)), id) else old(Images(kind))
      ensures usernameChanges ==
        if result.Done? && kind == Account then NamesNotOf(old(usernameChanges), id) else old(usernameChanges)
      ensures kind == Account ==> servers == old(servers) && serverPictures == old(serverPictures)
      ensures kind == Community ==> users == old(users) && profilePictures == old(profilePictures)
    {
      if !available {
        return Failed;
      }
      var rows := Tracked(kind);
      TrackedWithoutCount(rows, id);
      TrackedWithoutIds(rows, id);
      var remaining := TrackedWithout(rows, id);
      var affected := |rows| - |remaining|;
      var pictures := RowsNotOf(Images(kind), id);
      if kind == Account {
        TrackedShrinks(users, id, profilePictures, usernameChanges);
        users := remaining;
        profilePictures := pictures;
        usernameChanges := NamesNotOf(usernameChanges, id);
      } else {
        TrackedShrinks(servers, id, serverPictures, []);
        servers := remaining;
        serverPictures := pictures;
      }
      result := Done(affected);
    }

    /** INSERT INTO ProfilePicture/ServerPicture (checksum, owner, changedAt,
        link): fails on a duplicate composite key or an unknown owner. */
    method InsertImage(kind: EntityKind, row: ImageRow) returns (ok: bool)
      requires Valid()
      modifies this
      ensures Valid()
      ensures ok <==> available && row.owner in IdsOf(old(Tracked(kind))) && !HasImageKey(old(Images(kind)), KeyOf(row))
      ensures Images(kind) == if ok then old(Images(kind)) + [row] else old(Images(kind))
      ensures kind == Account ==> serverPictures == old(serverPictures)
      ensures kind == Community ==> profilePictures == old(profilePictures)
      ensures users == old(users) && servers == old(servers) && usernameChanges == old(usernameChanges)
    {
      ok := available && row.owner in IdsOf(Tracked(kind)) && !HasImageKey(Images(kind), KeyOf(row));
      if ok {
        ImagesGrow(Tracked(kind), Images(kind), row);
        if kind == Account {
          profilePictures := profilePictures + [row];
        } else {
          serverPictures := serverPictures + [row];
        }
      }
    }

    /** INSERT INTO UsernameChange (changedAt, username, userId): fails only
        when the database is unreachable or the user is unknown. */
    method InsertName(row: NameRow) returns (ok: bool)
      requires Valid()
      modifies this
      ensures Valid()
      ensures ok <==> available && row.userId in IdsOf(old(users))
      ensures usernameChanges == if ok then old(usernameChanges) + [row] else old(usernameChanges)
      ensures users == old(users) && servers == old(servers)
      ensures profilePictures == old(profilePictures) && serverPictures == old(serverPictures)
    {
      ok := available && row.userId in IdsOf(users);
      if ok {
        NamesGrow(users, usernameChanges, row);
        usernameChanges := usernameChanges + [row];
      }
    }

    /** SELECT … FROM ServerPicture/ProfilePicture WHERE owner = ?
        ORDER BY changedAt DESC */
    function PicturesNewestFirst(kind: EntityKind, id: EntityId): seq<ImageRow>
      reads this
    {
      NewestFirst(RowsOf(Images(kind), id))
    }

    /** SELECT checksum, link FROM … WHERE owner = ? ORDER BY changedAt DESC LIMIT 1 */
    function LatestPicture(kind: EntityKind, id: EntityId): Option<ImageRow>
      reads this
    {
      Latest(Images(kind), id)
    }
  }

  /** Every picture row references a tracked id. */
  ghost predicate OwnersTracked(pictures: seq<ImageRow>, tracked: seq<TrackedRow>)
  {
    forall r :: r in pictures ==> r.owner in IdsOf(tracked)
  }

  /** Every username row references a tracked user. */
  ghost predicate NamesTracked(names: seq<NameRow>, users: seq<TrackedRow>)
  {
    forall n :: n in names ==> n.userId in IdsOf(users)
  }

  /** The schema's constraints over the five tables: primary keys and
      foreign keys. */
  ghost predicate Consistent(users: seq<TrackedRow>, profilePictures: seq<ImageRow>, usernameChanges: seq<NameRow>,
                             servers: seq<TrackedRow>, serverPictures: seq<ImageRow>)
  {
    && Distinct(IdsOf(users))
    && Distinct(IdsOf(servers))
    && ImageKeysUnique(profilePictures)
    && ImageKeysUnique(serverPictures)
    && OwnersTracked(profilePictures, users)
    && OwnersTracked(serverPictures, servers)
    && NamesTracked(usernameChanges, users)
  }

  /** Adding a tracked row with a fresh id keeps its tables consistent. */
  lemma TrackedGrows(tracked: seq<TrackedRow>, row: TrackedRow, pictures: seq<ImageRow>, names: seq<NameRow>)
    requires Distinct(IdsOf(tracked)) && row.id !in IdsOf(tracked)
    ensures Distinct(IdsOf(tracked + [row]))
    ensures OwnersTracked(pictures, tracked) ==> OwnersTracked(pictures, tracked + [row])
    ensures NamesTracked(names, tracked) ==> NamesTracked(names, tracked + [row])
  {
    IdsOfAppend(tracked, row);
    DistinctAppend(IdsOf(tracked), row.id);
  }

  /** Deleting a tracked id together with its rows keeps the tables
      consistent. */
  lemma TrackedShrinks(tracked: seq<TrackedRow>, id: EntityId, pictures: seq<ImageRow>, names: seq<NameRow>)
    requires Distinct(IdsOf(tracked)) && ImageKeysUnique(pictures)
    ensures Distinct(IdsOf(TrackedWithout(tracked, id)))
    ensures ImageKeysUnique(RowsNotOf(pictures, id))
    ensures OwnersTracked(pictures, tracked) ==> OwnersTracked(RowsNotOf(pictures, id), TrackedWithout(tracked, id))
    ensures NamesTracked(names, tracked) ==> NamesTracked(NamesNotOf(names, id), TrackedWithout(tracked, id))
  {
    TrackedWithoutIds(tracked, id);
    SubsequenceKeysUnique(pictures, id);
  }

  /** Adding a picture row with a fresh key for a tracked owner keeps the
      picture table consistent. */
  lemma ImagesGrow(tracked: seq<TrackedRow>, pictures: seq<ImageRow>, row: ImageRow)
    requires ImageKeysUnique(pictures) && !HasImageKey(pictures, KeyOf(row))
    ensures ImageKeysUnique(pictures + [row])
    ensures OwnersTracked(pictures, tracked) && row.owner in IdsOf(tracked) ==> OwnersTracked(pictures + [row], tracked)
  {
    AppendFreshKey(pictures, row);
  }

  /** Adding a username row for a tracked user keeps the table consistent. */
  lemma NamesGrow(users: seq<TrackedRow>, names: seq<NameRow>, row: NameRow)
    ensures NamesTracked(names, users) && row.userId in IdsOf(users) ==> NamesTracked(names + [row], users)
  {
  }

  /** Removing one owner's rows keeps the composite keys unique. */
  lemma {:induction false} SubsequenceKeysUnique(rows: seq<ImageRow>, id: EntityId)
    requires ImageKeysUnique(rows)
    ensures ImageKeysUnique(RowsNotOf(rows, id))
  {
    if rows != [] {
      var init := rows[..|rows| - 1];
      var last := rows[|rows| - 1];
      assert ImageKeysUnique(init);
      SubsequenceKeysUnique(init, id);
      if last.owner != id {
        var w := RowsNotOf(init, id);
        assert !HasImageKey(w, KeyOf(last)) by {
          forall k | 0 <= k < |w| ensures KeyOf(w[k]) != KeyOf(last) {
            assert w[k] in init;
            var m :| 0 <= m < |init| && init[m] == w[k];
            assert rows[m] == w[k];
          }
        }
        AppendFreshKey(w, last);
      }
    }
  }
}
