# pfp-checker, modelled in Dafny

pfp-checker is a Discord bot that keeps a history of the profile pictures
and display names of users, and of the icons of servers, that someone asked
it to watch. Every half hour a scheduled pass downloads each tracked
entity's current image and hashes it with SHA-1. It then takes one of three
paths:

- A checksum the entity never had is uploaded to an image host (imgbb) and
  recorded.
- A checksum equal to the entity's newest row is ignored.
- A checksum the entity had before, but not most recently, is recorded
  again without an upload, reusing a stored link.

A second pass over users records a display name the first time that
(user, name) pair appears. Slash commands start and stop the tracking of
users and servers, show the paginated history, and compute how often an
entity changes its picture on average.

This project models that core:

- The SQLite database is a class `Repository.Database`. Its five tables are
  sequences of rows, and its primary-key, foreign-key and cascade rules are
  kept as the invariant `Valid()`. For the Server and ServerPicture tables
  these rules are the ones tests/server_tracking_db_tests.rs checks. For the
  User, ProfilePicture and UsernameChange tables they are assumed to be the
  same (see "## Left out").
- The update passes (`ChronUpdate`) are loop methods. Each is proved equal
  to a pure specification of the pass (`RunPass`, `RunNamePass`).
  `UpdateProperties` proves what such a pass guarantees.
- The statistics commands (`Stats`, `ServerStats`) are accumulation loops.
  They are proved against the span from the first row to the last.
  `Durations` models the bot's rounding, its cast to i32 and its truncating
  division exactly.
- The monitoring commands (`MonitorServer`, `RemoveMonitorServer`,
  `RemoveMonitor`) map every outcome of the guards and the database to the
  reply the command sends.
- The history commands (`History`, `UsernameHistory`, `ServerPfpHistory`)
  turn rows into embed entries, and `Pagination` cuts the entries into
  pages of ten.
- The integration tests of the server tables (`ServerTracking`) are
  scenario methods over the database class. They hold for every id and
  every time stamp.

A few things outside the bot's own code are inputs to the model:

- the network, the Discord API, the image host and the clock;
- the hash function;
- for each entity, what resolving and downloading its image yields in a
  given pass.

Two behaviours of the update pass are modelled as the code has them, even
where a reader might expect otherwise:

- A failure while handling one entity does not always skip just that
  entity. A failed upload or a failed insert (src/util/chron_update.rs
  lines 161-164 and 172-179) unwraps an error and panics, which ends the
  whole pass; the rows written before it stay. The model returns such a
  panic as a `Halt` value. The only failures that skip just one entity are
  a missing image, a failed download and a failed body read.
- When a checksum comes back, one would expect the link stored for that
  checksum to be reused. The query at src/util/chron_update.rs lines
  113-122 instead takes the link of the entity's newest row overall,
  whatever its checksum. The model does the same (`Decide`,
  `ReappearedReusesNewestLink`). `ComebackTakesNewestLink` and
  `ComebackBreaksLinksAgree` show the consequence: after pictures B, C, B
  the third row carries C's link. `CorrectedStep` is a contrast only, not
  used by the passes. It reuses the link of the newest row with the same
  checksum, and `CorrectedStepKeepsLinksAgree` proves that it keeps every
  checksum tied to one link.

## Model

| member | source | states |
|---|---|---|
| Rows.RowsOf | src/commands/stats.rs:30-35 | a row is in the result iff it is in the table and belongs to the owner |
| Rows.RowsOfMultiset | src/commands/stats.rs:30-35 | each row of the owner occurs as often as in the table, and no other row occurs |
| Rows.RowsOfConcat | src/commands/stats.rs:30-35 | table order is kept: filtering a table made of two parts gives the first part's rows followed by the second's |
| Rows.RowsNotOf | src/commands/removemonitor.rs:21-23 | what the cascade leaves: exactly the rows of every other owner |
| Rows.Latest | src/util/chron_update.rs:113-122 | the "ORDER BY changedAt DESC LIMIT 1" row: absent iff the owner has no row, else one of its rows and no earlier than any of them |
| Rows.LatestAppend | src/util/chron_update.rs:130-143 | after an insert the owner's newest row is the new row unless an existing row is strictly later |
| Rows.NewestFirst | src/commands/serverstats.rs:45-50 | the DESC listing is a permutation of the owner's rows |
| Rows.NewestFirstIsOrdered | src/commands/serverpfphistory.rs:46-51 | the DESC listing is ordered by changedAt, newest first |
| Rows.NewestFirstHeadIsLatest | src/util/chron_update.rs:92-102 | the head of the DESC listing is the row the "newest row" query returns, and the listing is empty iff that query finds nothing |
| Rows.FindTracked | src/commands/monitorserver.rs:65-70 | the lookup by id finds nothing iff the id is not in the table, else a row with that id |
| Rows.TrackedWithout | src/commands/removemonitorserver.rs:61-63 | DELETE by id keeps exactly the rows with other ids and changes nothing when the id is absent |
| Rows.TrackedWithoutCount | tests/server_tracking_db_tests.rs:115-152 | with id as primary key the delete affects one row when the id is present and none otherwise |
| Rows.TrackedWithoutIds | tests/server_tracking_db_tests.rs:115-152 | after the delete the ids are the old ids minus the deleted one, still without duplicates |
| Rows.AppendFreshKey | tests/server_tracking_db_tests.rs:339-399 | adding a row whose (checksum, owner, changedAt) is new keeps the composite key unique |
| Rows.NamesOf | src/commands/usernamehistory.rs:31-34 | a UsernameChange row is in the result iff it has the user's userId |
| Rows.NamesNotOf | src/commands/removemonitor.rs:21-23 | what the cascade leaves in UsernameChange: exactly the rows of other users |
| Repository.Database.constructor | tests/server_tracking_db_tests.rs:9-27 | a freshly migrated database: empty history tables, the given users, constraints hold |
| Repository.Database.InsertTracked | tests/server_tracking_db_tests.rs:305-335 | INSERT of a tracked row succeeds iff the database is reachable and the id is new, affects one row, and keeps the constraints |
| Repository.Database.DeleteTracked | tests/server_tracking_db_tests.rs:254-301 | DELETE by id affects one row iff the id was present and cascades to exactly that owner's pictures (and display names) |
| Repository.Database.InsertImage | tests/server_tracking_db_tests.rs:339-399 | a picture row is stored iff the database is reachable, its owner is tracked and its composite key is new |
| Repository.Database.InsertName | src/util/chron_update.rs:267-275 | a display-name row is stored iff the database is reachable and the user is tracked |
| Repository.TrackedShrinks | tests/server_tracking_db_tests.rs:254-301 | deleting an owner with its rows keeps ids distinct, keys unique and every foreign key valid |
| Repository.SubsequenceKeysUnique | tests/server_tracking_db_tests.rs:254-301 | removing one owner's pictures keeps the composite key unique |
| ChronUpdate.HasChecksumHasLatest | src/util/chron_update.rs:89-102 | when the checksum query finds a row, the newest-row query finds one too, so the comparison is defined |
| ChronUpdate.InsertStep | src/util/chron_update.rs:136-143 | the insert with unwrap appends the row, or halts the pass on a key violation with the table unchanged |
| ChronUpdate.UpdateEntity | src/util/chron_update.rs:37-181 | one loop iteration: skip on no image or a failed download or read; otherwise the checksum decides between upload and record, ignore, and record with the newest row's link, as the step specification says |
| ChronUpdate.RunPassUnfold | src/util/chron_update.rs:37-51 | the pass over ids from i on is the step for ids[i] followed by the pass over the rest |
| ChronUpdate.PassAdvances | src/util/chron_update.rs:37-51 | the loop invariant survives an iteration that does not panic |
| ChronUpdate.PassStops | src/util/chron_update.rs:136-143 | a panicking iteration ends the pass with the rows written so far |
| ChronUpdate.UpdateMonitoredEntity | src/util/chron_update.rs:14-184 | the loop over all tracked ids leaves the picture table and outcomes the specification of the pass gives; it touches no other table, and does nothing when the id query fails |
| ChronUpdate.NamesAdvance | src/util/chron_update.rs:226-285 | the display-name loop invariant survives every iteration |
| ChronUpdate.UpdateUsername | src/util/chron_update.rs:228-284 | one display-name iteration: insert the name only if the (name, user) pair was never recorded |
| ChronUpdate.UpdateUsernames | src/util/chron_update.rs:221-286 | the display-name loop over all users leaves the UsernameChange table the specification of the pass gives |
| ChronUpdate.UpdateMonitoredUsers | src/util/chron_update.rs:186-287 | the picture pass, then the display-name pass, which a panic in the picture pass prevents |
| ChronUpdate.UpdateMonitoredServers | src/util/chron_update.rs:289-323 | the picture pass over Server and ServerPicture, leaving the user tables alone |
| UpdateProperties.FirstSightArchives | src/util/chron_update.rs:146-180 | a checksum the entity never had is recorded with the host's link at the probe's time |
| UpdateProperties.UploadFailsOnlyOnFirstSight | src/util/chron_update.rs:161-164 | a step halts on the upload exactly when the checksum is new and the host rejects it |
| UpdateProperties.KnownChecksumIgnoresUpload | src/util/chron_update.rs:89-145 | dedup before upload: for a known checksum the host's answer does not matter |
| UpdateProperties.UnchangedIffNewest | src/util/chron_update.rs:97-105 | nothing is written exactly when the newest row already has the checksum |
| UpdateProperties.ReappearedReusesNewestLink | src/util/chron_update.rs:106-143 | a known checksum that is not the newest is recorded again with the newest row's link, unless its key exists |
| UpdateProperties.SkipsWriteNothing | src/util/chron_update.rs:42-68 | an entity without image, download or body writes nothing and is reported as skipped |
| UpdateProperties.StepAppendsAtMostOne | src/util/chron_update.rs:131-179 | a step keeps every row, appends at most one row, owned by the entity, and keeps keys unique |
| UpdateProperties.RepeatIsUnchanged | src/util/chron_update.rs:97-105 | idempotence: the same bytes seen again later change nothing |
| UpdateProperties.RunPassAppendOnly | src/util/chron_update.rs:37-182 | a pass only appends, at most one row per id and only for ids in the pass, keeps keys unique, and reports one outcome per id unless it halted |
| UpdateProperties.RunPassOnePerEntity | src/util/chron_update.rs:37-182 | with distinct ids no two rows added by one pass share an owner |
| UpdateProperties.SkippedEntityIsIsolated | src/util/chron_update.rs:42-68 | removing a skipped entity from the pass changes neither the final rows nor the halt |
| UpdateProperties.ComebackTakesNewestLink | src/util/chron_update.rs:112-143 | pictures B, C, B: the third row carries C's link |
| UpdateProperties.ComebackBreaksLinksAgree | src/util/chron_update.rs:112-143 | that comeback turns a history where each checksum has one link into one where it does not |
| UpdateProperties.CorrectedStepKeepsLinksAgree | src/util/chron_update.rs:112-143 | contrast: reusing the link of the newest row with the same checksum keeps each checksum tied to one link |
| UpdateProperties.NameStepAppendsOnce | src/util/chron_update.rs:246-284 | a name row is added iff the user resolves, has a global name and the pair is new; pairs stay unique |
| UpdateProperties.RunNamePassAppendOnly | src/util/chron_update.rs:226-285 | the display-name pass only appends, only for users in the pass, one outcome per user, pairs unique |
| UpdateProperties.RevertedNameAddsNothing | src/util/chron_update.rs:257-261 | names Alice, Bob, Alice give two rows; the revert adds nothing |
| Durations.RoundHalfAwayNearest | src/commands/stats.rs:64-67 | f64 round: within one half of the quotient, halves away from zero |
| Durations.SaturateI32Clamps | src/commands/stats.rs:67 | the cast to i32 lands in range, keeps in-range values and is monotone |
| Durations.TruncDivBounds | src/commands/stats.rs:69 | i32 division truncates toward zero |
| Durations.TruncDivNested | src/commands/stats.rs:69-70 | hours / 24 from hours equals seconds / 86400 |
| Durations.SplitIsTruncation | src/commands/serverstats.rs:80-81 | hours are whole hours of the average and days are whole days of it, both truncated toward zero |
| Stats.GapSumTelescopes | src/commands/stats.rs:42-60 | the summed gaps between consecutive rows equal last minus first |
| Stats.Accumulate | src/commands/stats.rs:39-60 | the loop counts the rows and sums the gaps |
| Stats.Report | src/commands/stats.rs:62-114 | not enough data iff at most one row; a NULL trackedSince panics; else the rounded average of last minus first over the row count, and the count |
| Stats.Run | src/commands/stats.rs:16-138 | not tracked iff the lookup fails; otherwise the report over the user's rows in table order |
| ServerStats.WindowSum | src/commands/serverstats.rs:56-73 | the windows loop sums to newest minus oldest |
| ServerStats.SpanOfNewestFirst | src/commands/serverstats.rs:45-73 | over the DESC listing the span is non-negative and reaches from the latest row to the earliest |
| ServerStats.Report | src/commands/serverstats.rs:52-124 | not enough data iff at most one row; a NULL trackedSince panics; else the rounded average over the number of gaps, and the count |
| ServerStats.Run | src/commands/serverstats.rs:17-153 | not in a guild, not tracked, or the report over the server's rows newest first |
| MonitorServer.Run | src/commands/monitorserver.rs:23-141 | each reply iff its condition: no guild, missing Manage Server, already tracked (with the start when it is set and chrono can represent it, without otherwise), failed insert, or added with the current time |
| RemoveMonitorServer.Run | src/commands/removemonitorserver.rs:21-109 | removed iff tracked, not found iff untracked, failure iff unreachable; afterwards neither the server nor its icons remain |
| RemoveMonitor.Run | src/commands/removemonitor.rs:13-76 | deleted iff tracked, not found iff untracked, failure iff unreachable; afterwards neither the user nor its pictures or names remain |
| Pagination.PageBounds | src/commands/history.rs:120-145 | a page exists iff it starts within the list; it holds the entries from page·10 on, at most ten; Back is disabled iff it is the first page, Next iff it reaches the end |
| Pagination.TotalPagesIsCeiling | src/commands/usernamehistory.rs:116 | the page count is the least number of ten-entry pages holding the list |
| Pagination.NextPageExists | src/commands/serverpfphistory.rs:131-135 | an enabled Next leads to a page that exists and lies within the page count |
| Pagination.BackPageExists | src/commands/usernamehistory.rs:173-177 | an enabled Back leads to a page that exists |
| Pagination.EveryEntryOnItsPage | src/commands/serverpfphistory.rs:151-153 | every entry k appears on page k / 10 at position k mod 10 |
| History.HistoryEntryShowsRow | src/commands/history.rs:40-58 | each field shows the row's time, link and checksum |
| History.HistoryEntries | src/commands/history.rs:40-58 | one field per row, in row order |
| History.Run | src/commands/history.rs:18-113 | no reply, user not found, abort, no entries, or the first page of the user's entries, each iff its condition |
| UsernameHistory.NameEntries | src/commands/usernamehistory.rs:40-54 | one field per name row, showing its name and time, in row order |
| UsernameHistory.Run | src/commands/usernamehistory.rs:30-61 | user not found, abort, no entries, or the first page of the user's names, each iff its condition |
| ServerPfpHistory.IconEntryShowsRecord | src/commands/serverpfphistory.rs:72-83 | each field shows the record's time, link and checksum |
| ServerPfpHistory.IconEntriesOf | src/commands/serverpfphistory.rs:70-83 | one field per record, in record order, field i titled with record i's time |
| ServerPfpHistory.IconEntriesShowRecords | src/commands/serverpfphistory.rs:72-82 | field i shows record i's time, link and checksum |
| ServerPfpHistory.IconEntries | src/commands/serverpfphistory.rs:70-83 | the push loop builds exactly those fields |
| ServerPfpHistory.EntriesNewestFirst | src/commands/serverpfphistory.rs:46-83 | the fields come out newest first |
| ServerPfpHistory.Run | src/commands/serverpfphistory.rs:22-99 | not in a guild, fetch failure, no history, or the first page of the icons newest first, each iff its condition |
| ServerTracking.NewServer | tests/server_tracking_db_tests.rs:9-27 | a fresh database tracking one server with no pictures |
| ServerTracking.InsertAndRetrieveServer | tests/server_tracking_db_tests.rs:56-112 | inserting a server affects one row and the lookup returns its id and start |
| ServerTracking.DeleteServer | tests/server_tracking_db_tests.rs:115-152 | deleting the server affects one row and it is no longer found |
| ServerTracking.InsertServerPicture | tests/server_tracking_db_tests.rs:156-190 | a picture of a tracked server is stored as its only row |
| ServerTracking.RetrieveServerPictures | tests/server_tracking_db_tests.rs:195-251 | three pictures 100 seconds apart list as exactly three rows, newest first, with checksums c3, c2, c1 |
| ServerTracking.CascadeDeleteServerPictures | tests/server_tracking_db_tests.rs:254-301 | deleting the server removes its pictures |
| ServerTracking.UniqueServerId | tests/server_tracking_db_tests.rs:305-335 | a second server with the same id is rejected |
| ServerTracking.ServerPictureCompositeKey | tests/server_tracking_db_tests.rs:339-399 | the same picture at the same time is rejected, at a later time accepted |
| ServerTracking.QueryLatestServerPicture | tests/server_tracking_db_tests.rs:403-459 | of two pictures the later one is the latest, with its checksum and link |

## Left out

- Network access, the Discord API, SHA-1 and the image host are inputs:
  `probe` gives what resolving and downloading an entity yields, and `hash`
  is an uninterpreted checksum function. The upload in
  src/util/external/imgbb.rs and src/util/uploader.rs is not part of this
  model.
- The clock is an input: each probe, and the `now` parameter of
  `MonitorServer.Run`, carries the time stamp.
- Concurrency and `async` are not modelled. Every pass and command runs to
  completion on its own.
- Configuration loading (`Config::from_env`), the database connection and
  its migrations, main.rs, monitor.rs and ping.rs are not part of this
  model.
- Durations.RoundHalfAway: it rounds the exact rational quotient. f64
  precision loss for quotients beyond 2^53 is not modelled.
- Pagination.CeilDiv: the page count is computed with an integer ceiling
  rather than through f32, which is exact for lists shorter than 2^24
  entries.
- Panics of `DateTime::from_timestamp(...).unwrap()` and `.expect(...)` on
  time stamps outside chrono's range are not modelled. The one place where
  an out-of-range value is handled without a panic (monitorserver.rs line
  80) is modelled with `Rows.Representable`, using the range of chrono
  0.4.35 and later (years -262143 to 262142). The model's time stamps are
  otherwise unbounded integers, and neither are the try_into panics of ids that are zero or
  negative.
- Columns that the schema allows to be NULL (changedAt, link, checksum,
  username) are always present in the model. Only a NULL trackedSince is
  modelled, because the commands branch on it.
- Database faults are one flag, `available`, for the whole database. A
  query that fails on its own while the others succeed is not modelled.
- Guild names from the cache, embed titles, colours, footers and button
  ids are not modelled. The replies are datatypes naming which message is
  sent.
- History.Run and UsernameHistory.Run: a failing `to_user` is the
  `Aborted` reply, and the command sends nothing. The error value
  propagated to the caller is not modelled.
- The creating and the editing page builders of usernamehistory.rs, and
  the one builder each of history.rs and serverpfphistory.rs, compute the
  same bounds and buttons. All of them are `Pagination.PageOf`, and the
  button handlers that request page ± 1 are represented by
  `NextPageExists` and `BackPageExists`.
- History.Run and UsernameHistory.Run: history.rs builds
  `ProfilePictureEntry` from src/util/objects.rs, while usernamehistory.rs
  and serverpfphistory.rs use `EmbedEntry`, which is not among the files
  modelled. Both are taken to have the same title, content and inline
  fields, and are modelled as `Pagination.Entry`.
- Stats.Run: the ProfilePicture query has no ORDER BY, so the rows are
  taken in table (insertion) order. ServerStats.Run uses the DESC order its
  query asks for.
- The schema of the User, ProfilePicture and UsernameChange tables is not
  among the files modelled. The model assumes that discordId is the primary
  key of User, that every ProfilePicture and UsernameChange row references
  a tracked user, that (checksum, userId, changedAt) is the key of
  ProfilePicture, and that deleting a user cascades to both tables
  (`Repository.Database.DeleteTracked`, `RemoveMonitor.Run`). These mirror
  the Server tables that the integration tests check.
- Rows.Latest: ties on changedAt are broken toward the row inserted later,
  and `Rows.NewestFirst` lists rows with equal changedAt later-inserted
  first. SQLite leaves this order unspecified for `ORDER BY changedAt DESC`
  with or without `LIMIT 1`. This is a modelling choice, and the results
  that read the newest row depend on it: `UpdateProperties.RepeatIsUnchanged`
  (a repeat at the same second) and the link reused by
  `UpdateProperties.ReappearedReusesNewestLink` when two rows share the
  newest time stamp.
- The primary key of UsernameChange is not modelled. The display-name pass
  checks the (user, name) pair itself, and `NamePairsUnique` is proved to
  be kept.
- The table-creation tests (tests/server_tracking_db_tests.rs lines 30-53)
  only check the schema exists. Here the schema is the `Database` class
  itself.
