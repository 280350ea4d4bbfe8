# Exhibition QR visitor tracker — a Dafny model

The system runs an exhibition where every visitor carries a QR code. The
exhibiting teams scan that code, and an administrator hands out a sticker once
a visitor has seen enough teams. It keeps three SQLite tables:

- `visitor_visits`: one row per (visitor, team) visit;
- `visitors`: one aggregate row per code, holding the visit counter and the
  sticker flag;
- `qr_codes`: the codes handed out. Rows are soft-deleted on reset, never
  removed.

This project models the core of the system:

- **Visit recorder.** The three copies of `team_scan` / `create_visit` record a
  visit.
- **Stickers.** The eligibility check and its message table, the one-way
  sticker dispenser, and the dashboard counts.
- **QR code lifecycle.**
  - The bounded random generation loop and its all-or-nothing batch insert.
  - The sequential `QR_0001…` seeding.
  - The soft-delete reset, which renames every active row to `DEL_<code>` and
    then reseeds.
  - The active-code predicate.
  - Bulk printed/distributed flagging.
- **Read side.** Pagination of the code list (a `LEFT JOIN` with defaults), the
  visitor status report with its not-visited-teams filter, and the
  `/api/check-qr` and `/api/check-visitor` routes.

Layout:

- `schema.dfy`: the tables are the value `Schema.Tables`. Every SQL statement
  is a function returning `Ok(new tables)` or `Err(IntegrityError)`, and the
  schema's UNIQUE, PRIMARY KEY and AUTOINCREMENT guarantees are the predicate
  `Schema.Valid`.
- `store.dfy`: the database connection is the class `Store.Store`, whose fields
  are the three tables. Each state-changing handler is a method that issues the
  source's statements in order.
  - A transaction runs on a working copy. `Commit` stores the copy, and an
    early return drops it (rollback).
  - Each method is proved to leave the store, and to reply, exactly as a
    specification function of the modules below says.
  - Each method keeps the store invariant `Consistent()`:
    - the schema constraints;
    - `total_visits` equals the number of visit rows;
    - stickers only at or above the threshold;
    - soft-deleted codes carry `DEL_`.
- Modules by concern:
  - `visits.dfy`: the recorder.
  - `stickers.dfy`: check, dispense, dashboard.
  - `status.dfy`: the visitor status report.
  - `qrcodes.dfy`: generation, batch insert, pagination, flagging.
  - `qrgenerator.dfy`: seeding and reset.
  - `helpers.dfy`: the active-code predicate.
  - `qrroutes.dfy`: the two `/api` routes.
  - `text.dfy`: Python's `str(n)`, `{:04}` and `str.strip()`.
  - `sorting.dfy`: `ORDER BY`.
  - `settings.dfy`: the constants of config.py.

The repository holds three versions of the recorder:

| version | `first_visit` on UPDATE | new visitor row | empty code | reply |
|---|---|---|---|---|
| app.py `team_scan` | untouched | `first_visit`/`last_visit` left unset | rejected | no visit id |
| routes/team.py `team_scan` | `COALESCE(first_visit, now)` | both timestamps `now` | rejected | no visit id |
| database/models.py `VisitorVisit.create_visit` | `COALESCE(first_visit, now)` | both timestamps `now` | not checked | new visit id |

The model keeps them apart as `Visits.ScanVariant`. It uses one schema for all
three, the one in database/database.py, where `first_visit` and `last_visit`
have no default. app.py's own `init_db` (app.py:34-43) declares them
`DEFAULT CURRENT_TIMESTAMP`. On a table it created, app.py's INSERT of a new
visitor would stamp both columns, as the other two versions do.

## Model

| member | source | states |
|---|---|---|
| `Text.DecimalRoundTrip` | utils/qr_generator.py:43 | Reading back the numeral `str(n)` gives `n`. |
| `Text.PaddedDecimalInjective` | utils/qr_generator.py:43 | Distinct numbers get distinct `{:04}`-padded numerals, at any width. |
| `Text.Decimal` | routes/qr_codes.py:19 | `str(n)` of a natural number is a non-empty string of digits. |
| `Text.ZeroPad` | utils/qr_generator.py:43 | `{:0w}` pads on the left with `'0'` to width `w` and keeps the numeral as its tail; a numeral already `w` wide is unchanged. |
| `Text.Strip` | routes/qr_routes.py:11-12 | `strip()` never lengthens a string and leaves one that neither starts nor ends with whitespace unchanged. |
| `Text.StripSpec` | routes/qr_routes.py:11-12 | `strip()` returns a contiguous part of its input. Everything cut off on either side is whitespace, and the result neither starts nor ends with whitespace. |
| `Text.StripEmptyIffBlank` | routes/qr_routes.py:14-15 | A stripped string is empty exactly when the input is all whitespace. |
| `Text.StripIdempotent` | routes/qr_routes.py:11-12 | Stripping twice is stripping once. |
| `Sorting.SortBy` | routes/visitor.py:41-47 | `ORDER BY visit_time`: the result is sorted by the key and is a permutation of the rows. |
| `Schema.DefaultVisitorRow` | database/database.py:66-78 | A new `visitors` row has `total_visits` 0, no sticker, `is_active` true, and null `first_visit`/`last_visit`/`sticker_dispensed_time`/image. |
| `Schema.NewQrRow` | database/database.py:81-92 | A new `qr_codes` row is active (`deleted_time` null), not printed, not distributed, and keeps the code, image and id it was given. |
| `Schema.FindVisit` | database/models.py:34-39 | The duplicate lookup finds nothing exactly when no row has the (visitor, team) pair, and otherwise returns the index of a row with that pair. |
| `Schema.AllCodes` | routes/qr_codes.py:44-45 | The set of existing codes holds exactly the codes of some `qr_codes` row. |
| `Schema.VisitsOf` | routes/visitor.py:41-47 | `WHERE visitor_qr = ?` keeps exactly the visit rows of that visitor. |
| `Schema.InsertVisit` | database/database.py:55-63 | The visit insert fails exactly when the (visitor, team) pair already has a row, as `UNIQUE(visitor_qr, team_name)` demands. |
| `Schema.InsertVisitor` | database/database.py:66-68 | The visitor insert fails exactly when the code already has a row: `visitor_qr` is the primary key. |
| `Schema.InsertQr` | database/database.py:81-84 | The code insert fails exactly when the code is in use by any row, active or soft-deleted. |
| `Schema.InsertVisitKeepsValid` | database/database.py:55-63 | A successful visit insert keeps every UNIQUE and AUTOINCREMENT guarantee. |
| `Schema.InsertQrKeepsValid` | database/database.py:81-92 | A successful code insert keeps every UNIQUE and AUTOINCREMENT guarantee. |
| `Visits.VisitsRemaining` | app.py:122 | `max(0, MIN - total)`: zero exactly at or above the threshold, and otherwise fills the gap to `MIN` exactly. |
| `Visits.VisitedRow` | app.py:89-114 | After a new visit the visitor's row counts one more visit (one for a new visitor) and keeps its sticker flag. A known visitor's `last_visit` becomes now and a set `first_visit` is kept. A new visitor's `first_visit` is set exactly in the variants that stamp it. |
| `Visits.RecordVisit` | app.py:55-123 | One scan, in all three variants (also routes/team.py:25-98 and database/models.py:27-73). <br>Rejections: an unknown team (always, before anything else); an empty code (except in `create_visit`). Both write nothing. <br>Duplicate: exactly when the pair has a row. It writes nothing, and its id is that row's. <br>Recorded: otherwise. Adds exactly one visit row with the next id, and updates or creates only that visitor. The new total is old + 1, or 1 for a new visitor. The reply carries `max(0, MIN - total)` and `total >= MIN`. |
| `Visits.RecordVisitKeepsValid` | database/database.py:55-63 | A scan keeps the UNIQUE pair constraint and the increasing visit ids. |
| `Visits.RecordVisitKeepsAggregates` | app.py:89-114 | A scan keeps every visitor's `total_visits` equal to its number of visit rows, and every visit row has its visitor row. |
| `Visits.RecordVisitKeepsDispensedEligible` | app.py:101-114 | A scan never lowers a counter, never clears a sticker flag, and keeps "dispensed only at or above the threshold". |
| `Visits.RecordVisitFirstVisit` | routes/team.py:71-89 | A scan never overwrites a set `first_visit`. A new visit stamps `last_visit` of a known visitor. A new visitor gets `first_visit == last_visit == now` (in app.py both stay null). The `COALESCE` variants always leave `first_visit` set. |
| `Visits.ScanTwiceIsDuplicate` | app.py:75-86 | Scanning an accepted pair a second time is a duplicate that changes nothing. The counter rises by exactly one however often a team scans. |
| `Visits.CountIsDistinctTeams` | database/database.py:61 | Under the UNIQUE pair constraint, a visitor's number of visit rows equals its number of distinct teams. |
| `Visits.TotalIsDistinctTeams` | database/database.py:55-63 | In a consistent store, `total_visits` is the number of distinct teams the visitor has seen. |
| `Stickers.StickerMessageFor` | routes/admin.py:81-89 | The message decision table: "already dispensed" exactly when dispensed, "ready" exactly when not dispensed and eligible, "needs N more" otherwise. |
| `Stickers.NeedsMoreIsRemaining` | routes/admin.py:87-89 | As the eligibility check calls it, "needs N more" always names a positive N equal to `visits_remaining`. |
| `Stickers.StickerCheck` | routes/admin.py:22-75 | Outcomes: empty code rejected; unknown visitor is 404; a known one gets a status. <br>The status fields: `eligible` ⇔ (`total >= MIN` and not dispensed); `required_visits` = MIN; `visits_remaining = max(0, MIN - total)`; the counter, flag and `sticker_dispensed_time` from the visitor row; the visitor's own visit rows in time order; the message is `_get_sticker_message` applied to (`total >= MIN`, dispensed, total). |
| `Stickers.AppStickerCheck` | app.py:136-200 | app.py's copy as written: the same empty-code and not-found answers, and a 500 for every known visitor; it never reports a status. |
| `Stickers.AppStickerCheckFailsForKnownVisitors` | app.py:187-200 | In app.py's copy, every known visitor gets the 500 where the routes/admin.py copy reports a status (see Findings). |
| `Stickers.Dispense` | routes/admin.py:97-150 | The checks in order, for the route (also app.py:219-272) and `Visitor.dispense_sticker` (database/models.py:172-209, no request checks): <br>1. missing code (route only); <br>2. no `adminConfirm` (route only); <br>3. unknown visitor; <br>4. already dispensed; <br>5. `total < MIN`, which reports `visits_remaining = MIN - total > 0`. <br>Each holds exactly under its condition and writes nothing. Otherwise only that visitor's flag and time change. |
| `Stickers.DispenseOnce` | routes/admin.py:123-143 | After a dispense, the flag is set and a second request is refused as already dispensed, changing nothing. |
| `Stickers.DispenseKeepsInvariants` | routes/admin.py:136-143 | Dispensing keeps the schema, the aggregates and "dispensed only at or above the threshold", adds no visitor, and never clears a flag. |
| `Stickers.Dashboard` | routes/admin.py:166-186 | The counts are the sizes of the tables and of the visitor subsets. Active, eligible and dispensed never exceed all visitors, and with a threshold of at least one eligible never exceeds active. |
| `Stickers.DashboardOrdered` | routes/admin.py:166-186 | With a threshold of at least one: dispensed ≤ eligible ≤ active (`total_visits > 0`) ≤ all visitors. |
| `Stickers.ActiveVisitorsHaveVisits` | routes/admin.py:170-172 | In a consistent store the active visitors are exactly the codes that occur in visit rows. |
| `Status.TeamsOf` | routes/visitor.py:49 | `visited_teams` names the team of each visit row, in row order. |
| `Status.NotVisitedTeams` | routes/visitor.py:50-51 | The filter keeps exactly the allowed teams that were not visited. |
| `Status.NotVisitedKeepsOrder` | app.py:368-370 | The not-visited list keeps the order of `ALLOWED_TEAMS`. |
| `Status.NotVisitedDistinct` | database/models.py:226-227 | With distinct configured teams, the not-visited list has no repeats. |
| `Status.NotVisitedCount` | database/models.py:226-227 | The not-visited list has one entry per configured team not visited. |
| `Status.RecordVisitKeepsAllowedTeams` | app.py:55-58 | Every visit row names a configured team, and a scan keeps it so. |
| `Status.VisitorStatus` | routes/visitor.py:28-65 | Outcomes: an unknown visitor is "not found" and nothing else. <br>For a known visitor: the counter and flag from its row; `max(0, MIN - total)` and `total >= MIN`; its visit rows in time order; the teams of those rows; exactly the allowed teams not among them. Also app.py:347-384 and database/models.py:212-241. |
| `Status.VisitedTeamsAreTeamsVisited` | routes/visitor.py:41-49 | The visited teams are exactly the teams of the visitor's rows. |
| `Status.NotVisitedComplementsTotal` | routes/visitor.py:49-56 | With distinct configured teams and rows to configured teams, the not-visited list has `len(ALLOWED_TEAMS) - total_visits` entries in a consistent store. |
| `Status.DefaultTeamsDistinct` | config.py:15-18 | The thirteen configured teams are distinct. |
| `QrCodes.GenerateCode` | routes/qr_codes.py:17-22 | The code is `VISITOR_`, the decimal seconds, `_`, then the 8-character suffix. |
| `QrCodes.GenerateCodeInjective` | routes/qr_codes.py:17-22 | A code text determines the clock reading and the suffix it was made from. |
| `QrCodes.AttemptBudget` | routes/qr_codes.py:49 | The attempt budget is `count * 3`, and nothing when `count` is not positive. |
| `QrCodes.RequestedCount` | routes/qr_codes.py:31-32 | `data.get('count', 500)`: the requested count, or 500 when the body has none. |
| `QrCodes.DrawUniqueCodes` | routes/qr_codes.py:44-78 | The drawing loop accepts pairwise distinct codes, none already in the table, at most `count` of them. It makes at most `3 * count` attempts and uses all of them when short. Every draw is either existing or accepted, and every accepted code is one of the draws. |
| `QrCodes.PreparedVisitorRow` | routes/qr_codes.py:92-96 | The `visitors` row beside a new code holds the column defaults and the image. |
| `QrCodes.InsertCode` | database/models.py:273-289 | One code's inserts fail exactly when the code is in use or, for a paired insert, already has a visitor row. |
| `QrCodes.InsertCodes` | routes/qr_codes.py:85-98 | The insert loop: an empty batch changes nothing; a committed batch adds one `qr_codes` row per code, leaves the visit rows alone, and without pairing leaves the visitors alone. |
| `QrCodes.InsertCodesSpec` | routes/qr_codes.py:85-98 | All or nothing. The batch commits exactly when no code repeats, none is in use, and (paired) none has a visitor row. It then appends one row per code with consecutive ids, adds one visitor row per code, and changes nothing else. |
| `QrCodes.InsertCodesPrefixFails` | database/database.py:24-31 | Once a statement of the batch fails, the whole batch fails. |
| `QrCodes.InsertCodesKeepsInvariants` | routes/qr_codes.py:85-98 | A committed batch keeps every schema constraint and the visit aggregates. |
| `QrCodes.CreateQrCodeIsSingletonBatch` | database/models.py:273-289 | `create_qr_code` is a one-code paired batch under one commit. |
| `QrCodes.GenerateOutcome` | routes/qr_codes.py:34-105 | Rejections: a count over 1000 is too many; a short draw reports the number produced and the number requested. Both write nothing. On success it reports the count and the first ten codes. |
| `QrCodes.GenerateSpec` | routes/qr_codes.py:80-98 | For fresh distinct codes, the batch fails only when a code already has a visitor row. On success it is the paired batch and keeps the invariants. |
| `QrCodes.FloorDiv` | routes/qr_codes.py:159 | Python's `//` is the floor of the quotient, for either sign of the divisor. |
| `QrCodes.TotalPages` | routes/qr_codes.py:159 | The page count is undefined exactly for `per_page == 0` (ZeroDivisionError). |
| `QrCodes.TotalPagesIsCeiling` | routes/qr_codes.py:159 | For a positive page size the page count is the ceiling of `total / per_page`. |
| `QrCodes.LimitOffset` | routes/qr_codes.py:130-136 | SQLite's `LIMIT ? OFFSET ?` returns the contiguous slice at the offset. <br>A negative offset counts as zero. A negative limit means no limit. <br>It returns at most `limit` rows, and exactly `limit` when enough remain. |
| `QrCodes.RowOnItsPage` | database/models.py:294-310 | Row `k` of the ordering appears on page `k // per_page + 1`, at position `k % per_page`, and that page is among the counted pages. |
| `QrCodes.ListedOnItsPage` | routes/qr_codes.py:117-159 | Every code appears in the listing of page `k // per_page + 1`, a counted page, at position `k % per_page`, where `k` is its newest-first rank. |
| `QrCodes.PagesBeyondAreEmpty` | database/models.py:294-333 | Pages after the last counted page are empty. |
| `QrCodes.EntryFor` | database/models.py:316-327 | A listing entry keeps the code's own columns. A code without a visitor row reports 0 visits, no sticker and no visit times. `status` is "used" exactly when visits > 0. |
| `QrCodes.NewestFirst` | routes/qr_codes.py:134 | `ORDER BY generated_time DESC` is a permutation of the rows, newest first. |
| `QrCodes.ListCodes` | routes/qr_codes.py:117-161 | The listing is an error exactly for `per_page == 0`. Otherwise it reports the total, the page, the ceiling page count, and the entries of the newest-first rows from `max(0, (page-1)*per_page)` on: entry `i` is the joined row `start + i`, and there are as many as `LIMIT`/`OFFSET` allow (at most `per_page`). |
| `QrCodes.BuildCodeList` | routes/qr_codes.py:140-153 | The building loop produces one entry per fetched row, entry `i` being the joined row `i`. |
| `QrCodes.GetQrCodes` | database/models.py:292-335 | The handler, step by step, replies exactly what the listing specification says. |
| `QrCodes.PaginationExample` | routes/qr_codes.py:159 | 120 codes at 50 per page give three pages, the third holding 20 rows. |
| `QrCodes.MarkRows` | routes/qr_codes.py:210-214 | The flag is set on exactly the rows whose code is listed; the others are unchanged. |
| `QrCodes.MatchCountIsListedCodesPresent` | routes/qr_codes.py:216 | With unique codes, `rowcount` is the number of distinct listed codes that exist. |
| `QrCodes.MarkRowsProperties` | database/models.py:358-383 | Flagging keeps the schema and the set of codes, never touches `deleted_time`, and is idempotent. |
| `QrCodes.MarkBatch` | routes/qr_codes.py:202-216 | Rejections: an empty list, for the routes, writes nothing. Otherwise exactly the listed rows are flagged, and the reply is the number of rows matched. |
| `QrGenerator.SeqLabel` | utils/qr_generator.py:43 | `QR_` followed by the padded numeral. |
| `QrGenerator.SeqLabelInjective` | utils/qr_generator.py:43 | Distinct indices give distinct labels, and conversely. |
| `QrGenerator.FirstLabel` | utils/qr_generator.py:43 | The first label is `QR_0001`. |
| `QrGenerator.SeedLabels` | utils/qr_generator.py:42-43 | `init_qr_codes` inserts `n` labels, label `i` being `QR_{i+1:04}`. |
| `QrGenerator.SeedLabelsDistinct` | utils/qr_generator.py:42-43 | The seed labels are pairwise distinct. |
| `QrGenerator.Seed` | utils/qr_generator.py:41-49 | A committed seeding appends `n` rows and leaves visits and visitors alone. |
| `QrGenerator.SeedSpec` | utils/qr_generator.py:41-49 | Seeding commits exactly when no label is in use, then appends the labels in order, no visitor rows. A collision rolls the whole batch back. |
| `QrGenerator.Midway` | utils/qr_generator.py:64-70 | During the UPDATE, rows before the cursor are processed and the rest are as they were. |
| `QrGenerator.SoftDeleteFrom` | utils/qr_generator.py:64-70 | A committed UPDATE from row `i` on keeps the number of rows, every row's id, and the rows before `i`. |
| `QrGenerator.SoftDeleteFromSpec` | utils/qr_generator.py:64-70 | The UPDATE from row `i` on succeeds exactly when no rename meets a code current at that moment. It then processes every remaining row. |
| `QrGenerator.RenameCheckAt` | database/database.py:84 | Row `i`'s rename meets a current code exactly when some row outside the earlier active rows holds `DEL_` + its code. |
| `QrGenerator.SoftDelete` | utils/qr_generator.py:60-70 | A committed soft delete keeps the number of rows and every row's id: it renames in place. |
| `QrGenerator.SoftDeleteSpec` | utils/qr_generator.py:62-70 | The UPDATE commits exactly when no rename collides. It then retires every active row in place (`DEL_` prefix and `deleted_time`) and leaves deleted rows as they were. |
| `QrGenerator.SoftDeleteLeavesNoActiveRow` | utils/qr_generator.py:64-70 | After the UPDATE no row is active, ids are kept and codes are still unique. |
| `QrGenerator.CollisionFailsSoftDelete` | utils/qr_generator.py:64-70 | An active code whose `DEL_` form is already held by a deleted row makes the whole UPDATE roll back. |
| `QrGenerator.SoftDeletePrefixesAll` | utils/qr_generator.py:64-70 | After the UPDATE every row holds a `DEL_` code. |
| `QrGenerator.LabelNotPrefixed` | utils/qr_generator.py:43 | No seed label starts with `DEL_`. |
| `QrGenerator.Reset` | utils/qr_generator.py:51-72 | A reset whose UPDATE committed leaves visits and visitors alone; a failed reseed keeps the row count, a completed one adds `n` rows. |
| `QrGenerator.ResetSpec` | utils/qr_generator.py:51-72 | When deleted rows carry the prefix, a reset never fails in its reseed. It fails in the UPDATE (changing nothing) exactly when a rename collides. <br>Otherwise every old row ends up soft-deleted in place and the `n` labels are appended as active rows. The visits and visitors are untouched and the store stays consistent. |
| `QrGenerator.SoftDeletedStore` | utils/qr_generator.py:62-70 | Between the two transactions the store is valid and every row holds a `DEL_` code. |
| `QrGenerator.NoLabelInUse` | utils/qr_generator.py:72 | After the UPDATE no seed label is in use. |
| `QrGenerator.ReseedDone` | utils/qr_generator.py:72 | The reseed after the UPDATE keeps the old rows and appends the labels as active rows, consistently. |
| `QrGenerator.SecondResetFails` | utils/qr_generator.py:43-72 | Because the labels are reused, a second reset of a store whose first reset retired an active `QR_0001` fails: its UPDATE would create `DEL_QR_0001` again. |
| `QrGenerator.SeededStore` | utils/qr_generator.py:41-49 | Seeding an empty store succeeds. It holds only active labels, is consistent, and its first reset renames freely. |
| `QrGenerator.SeedResetResetFails` | utils/qr_generator.py:35-72 | From an empty store: seed, reset (succeeds), reset again (fails in the UPDATE). |
| `Helpers.ActiveCodeIsItsRow` | utils/helpers.py:18-26 | With unique codes, a code is active exactly when its one row has no deletion time, and an active code is in use. |
| `Helpers.CodeActive` | utils/helpers.py:18-26 | `check_qr_code_exists`: an active code is a code in use, and an empty table has none. |
| `Helpers.NothingActiveAfterSoftDelete` | utils/helpers.py:22 | After the soft delete no code is active, neither the old code nor the `DEL_` code. |
| `Helpers.ActiveAfterReset` | utils/helpers.py:18-26 | After a completed reset the active codes are exactly the seed labels. |
| `Helpers.BatchCodesActive` | utils/helpers.py:18-26 | Every code of a committed batch is active. |
| `Helpers.MarkKeepsActive` | utils/helpers.py:18-26 | Flagging printed or distributed does not change which codes are active. |
| `QrRoutes.CheckQr` | routes/qr_routes.py:11-27 | Both fields are stripped. An empty code is rejected. A visit is requested exactly when the code is non-empty and active and the team is non-empty, with the stripped values. Otherwise only whether the code is active is returned. |
| `QrRoutes.CheckQrIgnoresSurroundingSpace` | routes/qr_routes.py:11-12 | A request with stripped fields is answered exactly as the original. |
| `QrRoutes.BlankCodeRejected` | routes/qr_routes.py:14-15 | A code that is all whitespace (or empty) is rejected, and only such a code is. |
| `QrRoutes.CheckVisitor` | routes/qr_routes.py:33-68 | Outcomes: an empty code is rejected; an unknown visitor is not found; `total < 10` reports only the total; otherwise the total and the visit log. |
| `QrRoutes.LogNewestFirstSpec` | database/database.py:174-182 | The visit log is the visitor's rows, each row's time at or after the next row's. |
| `QrRoutes.EnoughVisitsLog` | routes/qr_routes.py:56-68 | With enough visits the reply carries all of the visitor's rows, newest first. |
| `QrRoutes.EnoughVisitsLogLength` | routes/qr_routes.py:47-68 | In a consistent store the log of an accepted visitor has at least ten rows. |
| `QrRoutes.CountMatchesVisitsOf` | database/database.py:174-182 | The log has as many rows as the visitor's visit count. |
| `Store.Store.constructor` | database/database.py:36-92 | A new database has three empty tables and is consistent. |
| `Store.Store.Commit` | database/database.py:24-28 | Committing a working copy makes it the store. |
| `Store.Store.TeamScan` | routes/team.py:25-98 | The handler's statements leave the store and reply exactly as `Visits.RecordVisit` says, and keep the store consistent. |
| `Store.Store.AddVisit` | routes/team.py:58-98 | The statements of a first visit: the visit row with the next id, then the UPDATE or the INSERT of the visitor row, then the reply. |
| `Store.Store.DispenseSticker` | app.py:219-272 | The handler leaves the store and replies exactly as `Stickers.Dispense` says, and keeps it consistent. |
| `Store.Store.InsertBatch` | database/database.py:24-31 | The insert loop commits exactly when the batch specification succeeds, becoming its result. Otherwise it leaves the store untouched (rollback). |
| `Store.Store.GenerateQrCodes` | routes/qr_codes.py:30-105 | The handler with its drawing loop replies and leaves the store as `QrCodes.GenerateOutcome` says for the codes it drew, with the count defaulting to 500. It draws at most `max(0, count)` codes, none for a count over 1000, each among the first `count*3` draws, distinct and new. A success reports exactly `max(0, count)` codes. It keeps the store consistent. |
| `Store.Store.Mark` | routes/qr_codes.py:193-225 | The flagging handler leaves the store and replies as `QrCodes.MarkBatch` says, and keeps it consistent. |
| `Store.Store.InitQrCodes` | utils/qr_generator.py:35-49 | The seeding loop commits exactly when `Seed` succeeds, and otherwise changes nothing. It keeps the store consistent. |
| `Store.Store.ResetQrCodes` | utils/qr_generator.py:51-72 | The two transactions reply and leave the store as `Reset` says. The first alone is kept when the second fails. On a consistent store the reset either completes or fails in its UPDATE, and the store stays consistent. |
| `Store.RecordVisitKeepsConsistent` | app.py:88-116 | A scan keeps every invariant of the store. |
| `Store.BatchKeepsStoreInvariants` | routes/qr_codes.py:85-98 | A committed batch keeps "dispensed only when eligible" and the `DEL_` prefix of deleted rows. |

## Left out

**Presentation and I/O**

- HTTP routing, the GET branches that render templates, JSON shaping, status codes and message texts. Replies are datatypes with the fields that carry information.
- The `team_stats` and `completion_stats` groupings of the dashboard. Their `ORDER BY count DESC` leaves ties open, and they are presentation.
- The float percentages: `usage_rate`, `completion_rate`, `progress_percentage`.
- QR image rendering (qrcode, PNG, base64). It is the opaque parameter `render: Code -> Image`. `get_qr_image` and the CSV export handlers are not part of this model.

**Environment and concurrency**

- Randomness and the clock. `generate_qr_code` takes the whole seconds and the suffix as arguments. The generation loop takes its successive draws as `draw: nat -> Code`. Timestamps are an abstract `now`.
- Concurrency and locking. Execution is sequential: one request at a time.
- The nested connections of `VisitorVisit.create_visit` are modelled as one transaction.
- The `except sqlite3.IntegrityError` paths of `team_scan`. The preceding SELECT rules that error out in sequential execution, so those paths are unreachable.

**Reply details**

- `cur.lastrowid` in the replies of the two `team_scan` routes, and the return value of `create_qr_code`. They report the rowid of whichever insert ran last, and the model does not number `visitors` rows. `create_visit`'s visit id is modelled.
- Non-string request values. A missing or null `visitorQR` is the empty code. A non-integer `count` or a JSON that is not an object (errors that end in the 500 handler) is not modelled.
- SQL leaves the order of rows with equal sort keys open. The model keeps them in table order, for `ORDER BY ... DESC` too (it sorts on the negated key).

**Configuration and code beyond this model**

- Loading config.py from the environment. Its constants are the `Settings.Config` parameter, with `Settings.Default` holding the defaults.
- The literal 1000/500 of routes/qr_codes.py and the 10 of routes/qr_routes.py are separate constants, as in the source. A request without `count` uses 500 (`QrCodes.RequestedCount`).
- `record_visitor_visit`, `init_teams_from_csv` and `export_active_qr_codes_to_csv` are not part of this model. `QrRoutes.CheckQr` returns the request to record a visit instead of calling it.
- `init_db`/`reset_db` DDL, `get_db_stats`, `get_team_by_id`, `get_team_visit_stats` and `get_completion_stats` are not part of this model. Only the state a new database starts with is modelled (`Store.Store.constructor`).

**Simplifications**

- `QrGenerator.Reset`: both transactions of a reset use one `now`. In the source, the UPDATE's `datetime.now()` and the reseed's `CURRENT_TIMESTAMP` are separate readings.
- `Store.Store.TeamScan`, `Store.Store.DispenseSticker`, `Store.Store.GenerateQrCodes`, `Store.Store.Mark`, `Store.Store.InitQrCodes`, `Store.Store.ResetQrCodes`: store consistency is promised as `old(Consistent()) ==> Consistent()`. They are callable on any store, as the handlers are.
- `init_qr_codes` inserts no `visitors` rows, and `get_qr_codes` clamps no page numbers. The model follows the code on both points.

## Findings

| source | as written | input that shows it | evidently intended | confidence | as-written member | corrected member |
|---|---|---|---|---|---|---|
| app.py:196 | `sticker_check` is a module-level function but builds its reply with `self._get_sticker_message(...)`. `self` is undefined, so the NameError is caught and every known visitor gets the 500 of app.py:199-200. | a POST to `/admin/sticker-check` with a `visitorQR` that has a `visitors` row | call the module function `_get_sticker_message(...)`, as routes/admin.py:74 does, and report the visitor's status | not executed | `Stickers.AppStickerCheckFailsForKnownVisitors` | `Stickers.StickerCheck` |
