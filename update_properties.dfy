/** What one update pass guarantees: the three-way decision per entity,
    dedup before upload, append-only growth with at most one row per entity,
    idempotence of a repeated pass, the append-once rule for display names,
    and the reuse-link behaviour of images that come back. */
module UpdateProperties {
  import opened Rows
  import opened ChronUpdate

  // ---------------------------------------------------------------------
  // One entity

  /** A checksum the entity never had is uploaded and recorded with the
      link the image host returned, at the probe's time stamp. */
  lemma FirstSightArchives(rows: seq<ImageRow>, id: EntityId, bytes: Bytes, now: Timestamp, link: Link,
                           hash: Bytes -> Checksum)
    requires !HasChecksum(rows, id, hash(bytes))
    ensures var row := ImageRow(hash(bytes), id, now, link);
      StepSpec(rows, id, Fetched(bytes, now, Uploaded(link)), hash) == Continue(rows + [row], Archived(row))
  {
    KeyHasChecksum(rows, ImageRow(hash(bytes), id, now, link));
  }

  /** A rejected upload of a new checksum panics; it is the only way a step
      can end with UploadFailed. */
  lemma UploadFailsOnlyOnFirstSight(rows: seq<ImageRow>, id: EntityId, p: Probe, hash: Bytes -> Checksum)
    ensures StepSpec(rows, id, p, hash) == Stop(UploadFailed) <==>
      p.Fetched? && p.upload.UploadRejected? && !HasChecksum(rows, id, hash(p.bytes))
  {
  }

  /** Dedup before upload: once the entity has had the checksum, what the
      image host would answer makes no difference, so no upload happens. */
  lemma KnownChecksumIgnoresUpload(rows: seq<ImageRow>, id: EntityId, bytes: Bytes, now: Timestamp,
                                   u1: Upload, u2: Upload, hash: Bytes -> Checksum)
    requires HasChecksum(rows, id, hash(bytes))
    ensures StepSpec(rows, id, Fetched(bytes, now, u1), hash) == StepSpec(rows, id, Fetched(bytes, now, u2), hash)
  {
  }

  /** No write happens exactly when the newest row already carries the
      checksum. */
  lemma UnchangedIffNewest(rows: seq<ImageRow>, id: EntityId, bytes: Bytes, now: Timestamp, u: Upload,
                           hash: Bytes -> Checksum)
    ensures StepSpec(rows, id, Fetched(bytes, now, u), hash) == Continue(rows, Unchanged) <==>
      Latest(rows, id).Some? && Latest(rows, id).value.checksum == hash(bytes)
  {
    var c := hash(bytes);
    var l := Latest(rows, id);
    if l.Some? && l.value.checksum == c {
      var k :| 0 <= k < |rows| && rows[k] == l.value;
      assert HasChecksum(rows, id, c);
    }
  }

  /** A checksum seen before but not the newest is recorded again, without
      an upload, with the link of the entity's newest row; the only failure
      is a row with the same key already being present. */
  lemma ReappearedReusesNewestLink(rows: seq<ImageRow>, id: EntityId, bytes: Bytes, now: Timestamp, u: Upload,
                                   hash: Bytes -> Checksum)
    requires HasChecksum(rows, id, hash(bytes))
    requires Latest(rows, id).Some? && Latest(rows, id).value.checksum != hash(bytes)
    ensures var row := ImageRow(hash(bytes), id, now, Latest(rows, id).value.link);
      StepSpec(rows, id, Fetched(bytes, now, u), hash) ==
        if HasImageKey(rows, KeyOf(row)) then Stop(InsertFailed) else Continue(rows + [row], Reused(row))
  {
  }

  /** A skipped entity reads and writes nothing. */
  lemma SkipsWriteNothing(rows: seq<ImageRow>, id: EntityId, p: Probe, hash: Bytes -> Checksum)
    requires !p.Fetched?
    ensures StepSpec(rows, id, p, hash).Continue? && StepSpec(rows, id, p, hash).rows == rows
    ensures StepSpec(rows, id, p, hash).outcome in {SkippedNoImage, SkippedDownload, SkippedBody}
  {
  }

  /** One step appends at most one row, owned by the entity, keeps the
      composite keys unique, and leaves every existing row in place. */
  lemma StepAppendsAtMostOne(rows: seq<ImageRow>, id: EntityId, p: Probe, hash: Bytes -> Checksum)
    requires StepSpec(rows, id, p, hash).Continue?
    ensures var next := StepSpec(rows, id, p, hash).rows;
      && |rows| <= |next| <= |rows| + 1
      && next[..|rows|] == rows
      && (|next| == |rows| + 1 ==> next[|rows|].owner == id)
      && (ImageKeysUnique(rows) ==> ImageKeysUnique(next))
  {
    var next := StepSpec(rows, id, p, hash).rows;
    if |next| != |rows| {
      var row := next[|rows|];
      assert next == rows + [row];
      AppendFreshKeyIfUnique(rows, row);
    }
  }

  lemma AppendFreshKeyIfUnique(rows: seq<ImageRow>, row: ImageRow)
    requires !HasImageKey(rows, KeyOf(row))
    ensures ImageKeysUnique(rows) ==> ImageKeysUnique(rows + [row])
  {
    if ImageKeysUnique(rows) {
      AppendFreshKey(rows, row);
    }
  }

  /** Idempotence: once a step has recorded or confirmed the checksum, a
      later step with the same bytes, at a time no earlier than the entity's
      rows, changes nothing. */
  lemma RepeatIsUnchanged(rows: seq<ImageRow>, id: EntityId, bytes: Bytes, now: Timestamp, u: Upload,
                          later: Timestamp, u2: Upload, hash: Bytes -> Checksum)
    requires forall x :: x in rows && x.owner == id ==> x.changedAt <= now
    requires StepSpec(rows, id, Fetched(bytes, now, u), hash).Continue?
    ensures var next := StepSpec(rows, id, Fetched(bytes, now, u), hash).rows;
      StepSpec(next, id, Fetched(bytes, later, u2), hash) == Continue(next, Unchanged)
  {
    var c := hash(bytes);
    var next := StepSpec(rows, id, Fetched(bytes, now, u), hash).rows;
    if next == rows {
      // the newest row already carried the checksum
      assert Decide(rows, id, c) == SameAsLatest;
      HasChecksumHasLatest(rows, id, c);
    } else {
      var row := next[|rows|];
      assert next == rows + [row];
      assert row == ImageRow(c, id, now, row.link);
      LatestAppend(rows, row);
      assert Latest(next, id) == Some(row);
    }
    UnchangedIffNewest(next, id, bytes, later, u2, hash);
  }

  // ---------------------------------------------------------------------
  // One pass over all ids

  /** A pass never modifies or deletes a row, appends at most one row per
      id, only for ids in the pass, keeps the composite keys unique, and
      reports one outcome per id unless it panicked. */
  lemma {:induction false} RunPassAppendOnly(rows: seq<ImageRow>, ids: seq<EntityId>, probe: EntityId -> Probe,
                                             hash: Bytes -> Checksum)
    ensures var p := RunPass(rows, ids, probe, hash);
      && |rows| <= |p.rows| <= |rows| + |ids|
      && p.rows[..|rows|] == rows
      && (forall k :: |rows| <= k < |p.rows| ==> p.rows[k].owner in ids)
      && |p.outcomes| <= |ids|
      && (p.halt.None? ==> |p.outcomes| == |ids|)
      && (ImageKeysUnique(rows) ==> ImageKeysUnique(p.rows))
    decreases |ids|
  {
    if ids != [] {
      var s := StepSpec(rows, ids[0], probe(ids[0]), hash);
      if s.Continue? {
        StepAppendsAtMostOne(rows, ids[0], probe(ids[0]), hash);
        RunPassAppendOnly(s.rows, ids[1..], probe, hash);
        var p := RunPass(rows, ids, probe, hash);
        assert p.rows == RunPass(s.rows, ids[1..], probe, hash).rows;
        assert p.rows[..|rows|] == s.rows[..|rows|];
        forall k | |rows| <= k < |p.rows| ensures p.rows[k].owner in ids {
          if k < |s.rows| {
            assert p.rows[k] == s.rows[k];
          } else {
            assert p.rows[k].owner in ids[1..];
          }
        }
      }
    }
  }

  /** With distinct ids (the primary key of the User and Server tables),
      no two rows appended by one pass belong to the same entity. */
  lemma {:induction false} RunPassOnePerEntity(rows: seq<ImageRow>, ids: seq<EntityId>, probe: EntityId -> Probe,
                                               hash: Bytes -> Checksum)
    requires Distinct(ids)
    ensures var p := RunPass(rows, ids, probe, hash);
      forall i, j :: |rows| <= i < j < |p.rows| ==> p.rows[i].owner != p.rows[j].owner
    decreases |ids|
  {
    if ids != [] {
      var s := StepSpec(rows, ids[0], probe(ids[0]), hash);
      if s.Continue? {
        StepAppendsAtMostOne(rows, ids[0], probe(ids[0]), hash);
        var tail := ids[1..];
        assert Distinct(tail) && ids[0] !in tail by {
          forall a, b | 0 <= a < b < |tail| ensures tail[a] != tail[b] {
            assert tail[a] == ids[a + 1] && tail[b] == ids[b + 1];
          }
          forall a | 0 <= a < |tail| ensures tail[a] != ids[0] {
            assert tail[a] == ids[a + 1];
          }
        }
        RunPassOnePerEntity(s.rows, tail, probe, hash);
        RunPassAppendOnly(s.rows, tail, probe, hash);
        var p := RunPass(rows, ids, probe, hash);
        assert p.rows == RunPass(s.rows, tail, probe, hash).rows;
        forall i, j | |rows| <= i < j < |p.rows| ensures p.rows[i].owner != p.rows[j].owner {
          if i < |s.rows| {
            assert p.rows[i] == s.rows[i];
            assert p.rows[i].owner == ids[0];
            assert p.rows[j].owner in tail;
          }
        }
      }
    }
  }

  /** An entity that is skipped (no image, failed download, failed read)
      affects nothing else: the pass without it ends with the same rows and
      the same halt. */
  lemma {:induction false} SkippedEntityIsIsolated(rows: seq<ImageRow>, ids: seq<EntityId>, k: nat,
                                                   probe: EntityId -> Probe, hash: Bytes -> Checksum)
    requires k < |ids| && !probe(ids[k]).Fetched?
    ensures var p := RunPass(rows, ids, probe, hash);
      var q := RunPass(rows, ids[..k] + ids[k + 1..], probe, hash);
      p.rows == q.rows && p.halt == q.halt
    decreases k
  {
    var shorter := ids[..k] + ids[k + 1..];
    if k == 0 {
      assert shorter == ids[1..];
    } else {
      var s := StepSpec(rows, ids[0], probe(ids[0]), hash);
      assert shorter[0] == ids[0];
      if s.Continue? {
        var tail := ids[1..];
        assert shorter[1..] == tail[..k - 1] + tail[k..];
        SkippedEntityIsIsolated(s.rows, tail, k - 1, probe, hash);
      }
    }
  }

  // ---------------------------------------------------------------------
  // Images that come back

  /** Pictures B, C, B on three passes: B and C are uploaded, and the third
      row carries B's checksum with C's link, because the reused link is the
      one of the newest row, not of the newest row with that checksum. */
  lemma ComebackTakesNewestLink(id: EntityId, b: Bytes, c: Bytes, t1: Timestamp, t2: Timestamp, t3: Timestamp,
                                linkB: Link, linkC: Link, u: Upload, hash: Bytes -> Checksum)
    requires hash(b) != hash(c) && t1 < t2 < t3
    ensures var r1 := ImageRow(hash(b), id, t1, linkB);
      var r2 := ImageRow(hash(c), id, t2, linkC);
      var r3 := ImageRow(hash(b), id, t3, linkC);
      && StepSpec([], id, Fetched(b, t1, Uploaded(linkB)), hash) == Continue([r1], Archived(r1))
      && StepSpec([r1], id, Fetched(c, t2, Uploaded(linkC)), hash) == Continue([r1, r2], Archived(r2))
      && StepSpec([r1, r2], id, Fetched(b, t3, u), hash) == Continue([r1, r2, r3], Reused(r3))
  {
    var r1 := ImageRow(hash(b), id, t1, linkB);
    var r2 := ImageRow(hash(c), id, t2, linkC);
    var r3 := ImageRow(hash(b), id, t3, linkC);
    FirstSightArchives([], id, b, t1, linkB, hash);
    assert [] + [r1] == [r1];
    assert !HasChecksum([r1], id, hash(c)) by {
      assert [r1][0] == r1;
    }
    FirstSightArchives([r1], id, c, t2, linkC, hash);
    assert [r1] + [r2] == [r1, r2];
    ComebackHistory(r1, r2, r3, id);
    ReappearedReusesNewestLink([r1, r2], id, b, t3, u, hash);
  }

  /** The facts about the history B, C that the comeback step reads. */
  lemma ComebackHistory(r1: ImageRow, r2: ImageRow, r3: ImageRow, id: EntityId)
    requires r1.owner == id && r2.owner == id && r3.owner == id
    requires r1.checksum == r3.checksum != r2.checksum && r3.link == r2.link
    requires r1.changedAt < r2.changedAt < r3.changedAt
    ensures HasChecksum([r1, r2], id, r3.checksum)
    ensures Latest([r1, r2], id) == Some(r2)
    ensures !HasImageKey([r1, r2], KeyOf(r3))
    ensures [r1, r2] + [r3] == [r1, r2, r3]
  {
    assert [r1, r2][0] == r1 && [r1, r2][1] == r2;
    assert [] + [r1] == [r1] && [r1] + [r2] == [r1, r2];
    LatestAppend([], r1);
    LatestAppend([r1], r2);
  }

  /** Rows of one owner with one checksum all carry the same link. */
  predicate LinksAgree(rows: seq<ImageRow>)
  {
    forall i, j :: 0 <= i < j < |rows| && rows[i].owner == rows[j].owner && rows[i].checksum == rows[j].checksum ==>
      rows[i].link == rows[j].link
  }

  /** The comeback above breaks LinksAgree as soon as the two uploads got
      different links: the history before it agrees, the history after it
      does not. */
  lemma ComebackBreaksLinksAgree(id: EntityId, b: Bytes, c: Bytes, t1: Timestamp, t2: Timestamp, t3: Timestamp,
                                 linkB: Link, linkC: Link, u: Upload, hash: Bytes -> Checksum)
    requires hash(b) != hash(c) && t1 < t2 < t3 && linkB != linkC
    ensures var before := [ImageRow(hash(b), id, t1, linkB), ImageRow(hash(c), id, t2, linkC)];
      var s := StepSpec(before, id, Fetched(b, t3, u), hash);
      && LinksAgree(before)
      && s.Continue? && s.rows[..2] == before && !LinksAgree(s.rows)
  {
    ComebackTakesNewestLink(id, b, c, t1, t2, t3, linkB, linkC, u, hash);
    var r1 := ImageRow(hash(b), id, t1, linkB);
    var r2 := ImageRow(hash(c), id, t2, linkC);
    var r3 := ImageRow(hash(b), id, t3, linkC);
    assert [r1, r2, r3][..2] == [r1, r2];
    assert [r1, r2, r3][0].link != [r1, r2, r3][2].link;
  }

  /** The rows carrying one checksum, in table order. */
  function WithChecksum(rows: seq<ImageRow>, c: Checksum): (r: seq<ImageRow>)
    ensures forall x :: x in r <==> x in rows && x.checksum == c
  {
    if rows == [] then []
    else
      var last := rows[|rows| - 1];
      assert rows == rows[..|rows| - 1] + [last];
      WithChecksum(rows[..|rows| - 1], c) + (if last.checksum == c then [last] else [])
  }

  /** For contrast only, not what the program does: a comeback that reuses
      the link of the newest row with the same checksum. */
  function CorrectedStep(rows: seq<ImageRow>, id: EntityId, p: Probe, hash: Bytes -> Checksum): Step
  {
    if p.Fetched? && Decide(rows, id, hash(p.bytes)).Reappeared? then
      var c := hash(p.bytes);
      assert HasChecksum(rows, id, c);
      var k :| 0 <= k < |rows| && rows[k].owner == id && rows[k].checksum == c;
      assert rows[k] in WithChecksum(rows, c);
      var same := Latest(WithChecksum(rows, c), id).value;
      var row := ImageRow(c, id, p.now, same.link);
      Append(rows, row, Reused(row))
    else StepSpec(rows, id, p, hash)
  }

  /** The corrected step keeps LinksAgree, so a checksum always points to
      the copy uploaded for it. */
  lemma CorrectedStepKeepsLinksAgree(rows: seq<ImageRow>, id: EntityId, p: Probe, hash: Bytes -> Checksum)
    requires LinksAgree(rows)
    requires CorrectedStep(rows, id, p, hash).Continue?
    ensures LinksAgree(CorrectedStep(rows, id, p, hash).rows)
  {
    var next := CorrectedStep(rows, id, p, hash);
    if p.Fetched? {
      var c := hash(p.bytes);
      var d := Decide(rows, id, c);
      if d.FirstSight? {
        var row := ImageRow(c, id, p.now, p.upload.link);
        assert next == Append(rows, row, Archived(row));
        assert next.rows == rows + [row];
        assert !HasChecksum(rows, id, c);
        LinksAgreeAppend(rows, row);
      } else if d.Reappeared? {
        var same := Latest(WithChecksum(rows, c), id).value;
        var row := ImageRow(c, id, p.now, same.link);
        assert next == Append(rows, row, Reused(row));
        assert next.rows == rows + [row];
        SameChecksumSameLink(rows, id, c);
        LinksAgreeAppend(rows, row);
      } else {
        assert next.rows == rows;
      }
    } else {
      assert next.rows == rows;
    }
  }

  /** Under LinksAgree, the newest row with a checksum carries the link of
      every row of that owner with that checksum. */
  lemma SameChecksumSameLink(rows: seq<ImageRow>, id: EntityId, c: Checksum)
    requires LinksAgree(rows) && HasChecksum(rows, id, c)
    ensures Latest(WithChecksum(rows, c), id).Some?
    ensures var same := Latest(WithChecksum(rows, c), id).value;
      forall i :: 0 <= i < |rows| && rows[i].owner == id && rows[i].checksum == c ==> rows[i].link == same.link
  {
    var w := WithChecksum(rows, c);
    var k :| 0 <= k < |rows| && rows[k].owner == id && rows[k].checksum == c;
    assert rows[k] in rows;
    assert rows[k] in w;
    var same := Latest(w, id).value;
    assert same in w;
    assert same in rows && same.owner == id && same.checksum == c;
    var m :| 0 <= m < |rows| && rows[m] == same;
    forall i | 0 <= i < |rows| && rows[i].owner == id && rows[i].checksum == c
      ensures rows[i].link == same.link
    {
      if i < m {
        assert rows[i].link == rows[m].link;
      } else if m < i {
        assert rows[m].link == rows[i].link;
      }
    }
  }

  /** A row that carries the link of every earlier row with its owner and
      checksum keeps LinksAgree. */
  lemma LinksAgreeAppend(rows: seq<ImageRow>, row: ImageRow)
    requires LinksAgree(rows)
    ensures (forall i :: 0 <= i < |rows| && rows[i].owner == row.owner && rows[i].checksum == row.checksum ==>
      rows[i].link == row.link) ==> LinksAgree(rows + [row])
  {
    var next := rows + [row];
    assert forall i :: 0 <= i < |rows| ==> next[i] == rows[i];
  }

  // ---------------------------------------------------------------------
  // Display names

  /** A name is appended exactly when the user resolves, has a global name,
      and that (user, name) pair was never recorded; the pairs stay unique. */
  lemma NameStepAppendsOnce(names: seq<NameRow>, id: EntityId, p: NameProbe)
    ensures var (next, o) := NameStep(names, id, p);
      && (next != names <==> p.GlobalName? && !HasName(names, id, p.name))
      && (next != names ==> next == names + [NameRow(p.now, p.name, id)] && o == Recorded(NameRow(p.now, p.name, id)))
      && (NamePairsUnique(names) ==> NamePairsUnique(next))
  {
    var (next, o) := NameStep(names, id, p);
    if next != names {
      var row := NameRow(p.now, p.name, id);
      assert next == names + [row];
      if NamePairsUnique(names) {
        forall i, j | 0 <= i < j < |next|
          ensures next[i].userId != next[j].userId || next[i].username != next[j].username
        {
          assert next[i] == names[i];
          if j == |names| {
            assert !(names[i].userId == id && names[i].username == p.name);
          }
        }
      }
    }
  }

  /** The display-name pass only appends, only for users in the pass, gives
      one outcome per user, and keeps every (user, name) pair unique. */
  lemma {:induction false} RunNamePassAppendOnly(names: seq<NameRow>, ids: seq<EntityId>, probe: EntityId -> NameProbe)
    ensures var p := RunNamePass(names, ids, probe);
      && |names| <= |p.names| <= |names| + |ids|
      && p.names[..|names|] == names
      && (forall k :: |names| <= k < |p.names| ==> p.names[k].userId in ids)
      && |p.outcomes| == |ids|
      && (NamePairsUnique(names) ==> NamePairsUnique(p.names))
    decreases |ids|
  {
    if ids != [] {
      var (next, o) := NameStep(names, ids[0], probe(ids[0]));
      NameStepAppendsOnce(names, ids[0], probe(ids[0]));
      RunNamePassAppendOnly(next, ids[1..], probe);
      var p := RunNamePass(names, ids, probe);
      assert p.names == RunNamePass(next, ids[1..], probe).names;
      assert p.names[..|names|] == next[..|names|];
      forall k | |names| <= k < |p.names| ensures p.names[k].userId in ids {
        if k < |next| {
          assert p.names[k] == next[k];
        } else {
          assert p.names[k].userId in ids[1..];
        }
      }
    }
  }

  /** Alice, then Bob, then Alice again over three passes: two rows, and
      reverting to the earlier name adds nothing. */
  lemma RevertedNameAddsNothing(id: EntityId, alice: string, bob: string, t1: Timestamp, t2: Timestamp, t3: Timestamp)
    requires alice != bob
    ensures var (n1, o1) := NameStep([], id, GlobalName(alice, t1));
      var (n2, o2) := NameStep(n1, id, GlobalName(bob, t2));
      var (n3, o3) := NameStep(n2, id, GlobalName(alice, t3));
      n3 == [NameRow(t1, alice, id), NameRow(t2, bob, id)] && o3 == AlreadyRecorded
  {
    var r1 := NameRow(t1, alice, id);
    var r2 := NameRow(t2, bob, id);
    assert [] + [r1] == [r1];
    assert !HasName([r1], id, bob);
    assert [r1] + [r2] == [r1, r2];
    assert [r1, r2][0] == r1;
    assert HasName([r1, r2], id, alice);
  }
}
